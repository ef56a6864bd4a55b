/** The main database file under page writes. */
module MainFile {
  import opened Bytes
  import opened JournalScan
  import opened Options

  const PAGE_SIZE_LEAF: nat := 32768

  /** Every page has one slot of the same size, whatever the length of its image. */
  function WritePage(file: seq<Byte>, w: PageImage): seq<Byte> {
    WriteAt(file, w.page * PAGE_SIZE_LEAF, w.data)
  }

  function WriteAll(file: seq<Byte>, ws: seq<PageImage>): seq<Byte> {
    if ws == [] then file else WritePage(WriteAll(file, ws[..|ws| - 1]), ws[|ws| - 1])
  }

  lemma {:induction false} WriteAllAppend(file: seq<Byte>, a: seq<PageImage>, b: seq<PageImage>)
    ensures WriteAll(file, a + b) == WriteAll(WriteAll(file, a), b)
    decreases |b|
  {
    if b == [] {
      assert a + b == a;
    } else {
      var n := |b| - 1;
      assert (a + b)[..|a + b| - 1] == a + b[..n] && (a + b)[|a + b| - 1] == b[n];
      WriteAllAppend(file, a, b[..n]);
    }
  }

  lemma WriteOne(file: seq<Byte>, w: PageImage)
    ensures WriteAll(file, [w]) == WritePage(file, w)
  {
    assert [w][..0] == [];
  }

  predicate Covers(w: PageImage, a: nat) {
    w.page * PAGE_SIZE_LEAF <= a < w.page * PAGE_SIZE_LEAF + |w.data|
  }

  /** The byte the last write that covers `a` puts there. */
  function LastByte(ws: seq<PageImage>, a: nat): Option<Byte> {
    if ws == [] then None
    else
      var w := ws[|ws| - 1];
      if Covers(w, a) then Some(w.data[a - w.page * PAGE_SIZE_LEAF]) else LastByte(ws[..|ws| - 1], a)
  }

  /** How far the writes reach. */
  function Extent(ws: seq<PageImage>): nat {
    if ws == [] then 0
    else
      var w := ws[|ws| - 1];
      Larger(Extent(ws[..|ws| - 1]), if w.data == [] then 0 else w.page * PAGE_SIZE_LEAF + |w.data|)
  }

  lemma {:induction false} WriteAllLength(file: seq<Byte>, ws: seq<PageImage>)
    ensures |WriteAll(file, ws)| == Larger(|file|, Extent(ws))
    decreases |ws|
  {
    if ws != [] { WriteAllLength(file, ws[..|ws| - 1]); }
  }

  /** A written file shows the last write at each address, and the old byte where there is none. */
  lemma {:induction false} WriteAllByte(file: seq<Byte>, ws: seq<PageImage>, a: nat)
    ensures At(WriteAll(file, ws), a) == if LastByte(ws, a).Some? then LastByte(ws, a).value else At(file, a)
    decreases |ws|
  {
    if ws != [] {
      WriteAllByte(file, ws[..|ws| - 1], a);
    }
  }

  lemma SameFile(f: seq<Byte>, g: seq<Byte>)
    requires |f| == |g| && forall a: nat :: At(f, a) == At(g, a)
    ensures f == g
  {
    forall a | 0 <= a < |f| ensures f[a] == g[a] { assert At(f, a) == At(g, a); }
  }

  lemma {:induction false} ExtentIsCovered(ws: seq<PageImage>, a: nat)
    ensures LastByte(ws, a).Some? ==> a < Extent(ws)
    ensures a + 1 == Extent(ws) ==> LastByte(ws, a).Some?
    decreases |ws|
  {
    if ws != [] { ExtentIsCovered(ws[..|ws| - 1], a); }
  }

  /** Where `second` writes, `first` ends up showing the same byte. */
  ghost predicate Repeated(first: seq<PageImage>, second: seq<PageImage>) {
    forall a: nat :: LastByte(second, a).Some? ==> LastByte(first, a) == LastByte(second, a)
  }

  lemma RepeatedIsNoop(file: seq<Byte>, first: seq<PageImage>, second: seq<PageImage>)
    requires Repeated(first, second)
    ensures WriteAll(WriteAll(file, first), second) == WriteAll(file, first)
  {
    var once := WriteAll(file, first);
    WriteAllLength(file, first);
    WriteAllLength(once, second);
    if Extent(second) > 0 {
      ExtentIsCovered(second, Extent(second) - 1);
      ExtentIsCovered(first, Extent(second) - 1);
    }
    forall a: nat ensures At(WriteAll(once, second), a) == At(once, a) {
      WriteAllByte(file, first, a);
      WriteAllByte(once, second, a);
    }
    SameFile(WriteAll(once, second), once);
  }

  /** A byte that only the second writes change. */
  lemma ChangedByte(first: seq<PageImage>, second: seq<PageImage>, a: nat) returns (file: seq<Byte>)
    requires LastByte(second, a).Some? && LastByte(first, a) != LastByte(second, a)
    ensures WriteAll(WriteAll(file, first), second) != WriteAll(file, first)
  {
    var other: Byte := if LastByte(second, a).value == 0 then 1 else 0;
    file := seq(a + 1, _ => other);
    WriteAllByte(file, first, a);
    WriteAllByte(WriteAll(file, first), second, a);
  }

  ghost predicate Harmless(first: seq<PageImage>, second: seq<PageImage>) {
    forall file: seq<Byte> :: WriteAll(WriteAll(file, first), second) == WriteAll(file, first)
  }

  /** Writing more changes no file exactly when every byte written is there already. */
  lemma HarmlessIff(first: seq<PageImage>, second: seq<PageImage>)
    ensures Harmless(first, second) <==> Repeated(first, second)
  {
    if Repeated(first, second) {
      forall file: seq<Byte> ensures WriteAll(WriteAll(file, first), second) == WriteAll(file, first) {
        RepeatedIsNoop(file, first, second);
      }
    } else {
      var a: nat :| LastByte(second, a).Some? && LastByte(first, a) != LastByte(second, a);
      var file := ChangedByte(first, second, a);
    }
  }

  lemma {:induction false} LastByteAppend(a: seq<PageImage>, b: seq<PageImage>, x: nat)
    ensures LastByte(a + b, x) == if LastByte(b, x).Some? then LastByte(b, x) else LastByte(a, x)
    decreases |b|
  {
    if b == [] {
      assert a + b == a;
    } else {
      var n := |b| - 1;
      assert (a + b)[..|a + b| - 1] == a + b[..n] && (a + b)[|a + b| - 1] == b[n];
      LastByteAppend(a, b[..n], x);
    }
  }
}
