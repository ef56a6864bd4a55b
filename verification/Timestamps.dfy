/** Hybrid logical clock timestamps. */
module Timestamps {
  import opened Bytes

  /** Ordered by physical milliseconds (64 bits), then by the logical counter (32 bits). */
  datatype Ts = Ts(ms: nat, logical: nat) {
    predicate Valid() { ms <= U64_MAX && logical <= U32_MAX }

    predicate Lt(other: Ts) { ms < other.ms || (ms == other.ms && logical < other.logical) }

    predicate Le(other: Ts) { this == other || Lt(other) }

    function Max(other: Ts): Ts { if Lt(other) then other else this }
  }

  const ZERO := Ts(0, 0)
  const MAX := Ts(U64_MAX, U32_MAX)
}
