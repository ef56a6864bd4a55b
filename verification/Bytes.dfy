/** Byte strings: fixed-width integer codecs and positioned file writes. */
module Bytes {

  type Byte = b: int | 0 <= b < 256

  const U32_MAX: nat := 0xFFFF_FFFF
  const U64_MAX: nat := 0xFFFF_FFFF_FFFF_FFFF

  function Larger(a: nat, b: nat): nat { if a < b then b else a }

  /** The little-endian value of `b`. */
  function LittleEndian(b: seq<Byte>): (n: nat) {
    if b == [] then 0 else b[0] + 256 * LittleEndian(b[1..])
  }

  function Zeros(n: nat): (z: seq<Byte>)
    ensures |z| == n && forall i :: 0 <= i < n ==> z[i] == 0
  {
    seq(n, _ => 0)
  }

  /** The byte a reader finds at `a`: holes and the space past the end read as zero. */
  function At(file: seq<Byte>, a: nat): Byte {
    if a < |file| then file[a] else 0
  }

  /** `file` after a positioned write of `data` at `off`; a hole before `off` is zero-filled. */
  function WriteAt(file: seq<Byte>, off: nat, data: seq<Byte>): (r: seq<Byte>)
    ensures |r| == if data == [] then |file| else if |file| < off + |data| then off + |data| else |file|
    ensures forall a :: 0 <= a < |r| ==>
      r[a] == if off <= a < off + |data| then data[a - off] else At(file, a)
  {
    if data == [] then file
    else
      var padded := if |file| < off then file + Zeros(off - |file|) else file;
      padded[..off] + data + (if off + |data| < |padded| then padded[off + |data|..] else [])
  }

  /** Consecutive positioned writes are one positioned write of the joined data. */
  lemma WriteAtJoins(file: seq<Byte>, off: nat, first: seq<Byte>, second: seq<Byte>)
    ensures WriteAt(WriteAt(file, off, first), off + |first|, second) == WriteAt(file, off, first + second)
  {
    if first == [] {
      assert first + second == second;
    } else if second == [] {
      assert first + second == first;
    }
  }
}
