/** The byte ranges the dispatchers hand out: blocks of at most BUFFER_SIZE bytes, in file order. */
module Blocks {
  import opened Bytes
  import opened Stats

  /** Size of one block (BUFFER_SIZE in both dispatchers, CHUNK in the chunked scanner). */
  const BUFFER_SIZE: nat := 8192

  /** The span [start, end) of the file. */
  datatype Span = Span(start: nat, end: nat)

  /** Number of bytes of a span (end - start, and 0 for a span that is not well formed). */
  function Length(sp: Span): nat { if sp.end > sp.start then sp.end - sp.start else 0 }

  /** The span handed out when the cursor stands at `pos`: [pos, min(pos + BUFFER_SIZE, size)). */
  function NextSpan(pos: nat, size: nat): (sp: Span)
    requires pos < size
    ensures sp.start == pos
    ensures pos < sp.end <= size
    ensures sp.end - sp.start <= BUFFER_SIZE
    ensures sp.end == size || sp.end - sp.start == BUFFER_SIZE
  {
    var e := pos + BUFFER_SIZE;
    Span(pos, if e > size then size else e)
  }

  /** Every span the dispatcher hands out from cursor `pos` until the end of a file of `size` bytes. */
  function SpansFrom(pos: nat, size: nat): seq<Span>
    decreases size - pos
  {
    if pos >= size then [] else [NextSpan(pos, size)] + SpansFrom(NextSpan(pos, size).end, size)
  }

  /** The spans left from `pos`: none at the end, otherwise the next one and those after it. */
  lemma SpansLeft(pos: nat, size: nat)
    ensures pos >= size <==> |SpansFrom(pos, size)| == 0
    ensures pos < size ==> |SpansFrom(pos, size)| == 1 + |SpansFrom(NextSpan(pos, size).end, size)|
  {
  }

  /** The whole partition of a file of `size` bytes. */
  function AllSpans(size: nat): seq<Span>
  {
    SpansFrom(0, size)
  }

  /** A file is handed out in one span per started block of BUFFER_SIZE bytes. */
  lemma AllSpansCount(size: nat)
    ensures |AllSpans(size)| == (size + BUFFER_SIZE - 1) / BUFFER_SIZE
  {
    SpansFromCount(0, size);
  }

  /** From a cursor within the file, one span per started block of the bytes that are left. */
  lemma {:induction false} SpansFromCount(pos: nat, size: nat)
    requires pos <= size
    ensures |SpansFrom(pos, size)| == (size - pos + BUFFER_SIZE - 1) / BUFFER_SIZE
    decreases size - pos
  {
    if pos < size {
      SpansFromCount(NextSpan(pos, size).end, size);
    }
  }

  /** `spans` tile [lo, hi): the first starts at `lo`, each later one starts where the previous one
      ended, the last ends at `hi`, and every one is non-empty and at most BUFFER_SIZE long. */
  ghost predicate Contiguous(spans: seq<Span>, lo: nat, hi: nat)
  {
    && (|spans| == 0 ==> lo == hi)
    && (|spans| > 0 ==> spans[0].start == lo && spans[|spans| - 1].end == hi)
    && (forall i :: 0 <= i < |spans| ==>
          lo <= spans[i].start < spans[i].end <= hi && spans[i].end - spans[i].start <= BUFFER_SIZE)
    && (forall i :: 0 < i < |spans| ==> spans[i].start == spans[i - 1].end)
  }

  /** Handing out the next span at the end keeps the tiling. */
  lemma ContiguousExtend(spans: seq<Span>, lo: nat, hi: nat, sp: Span)
    requires Contiguous(spans, lo, hi)
    requires sp.start == hi < sp.end && sp.end - sp.start <= BUFFER_SIZE
    ensures Contiguous(spans + [sp], lo, sp.end)
  {
  }

  /** Whatever the cursor, the spans still to come tile the rest of the file. */
  lemma {:induction false} SpansFromContiguous(pos: nat, size: nat)
    requires pos <= size
    ensures Contiguous(SpansFrom(pos, size), pos, size)
    decreases size - pos
  {
    if pos < size {
      var sp := NextSpan(pos, size);
      SpansFromContiguous(sp.end, size);
      var rest := SpansFrom(sp.end, size);
      assert SpansFrom(pos, size) == [sp] + rest;
      assert forall i :: 0 < i < |rest| + 1 ==> ([sp] + rest)[i] == rest[i - 1];
    }
  }

  /** The (start, end) pairs of `spans`, in order: what a dispatcher writes into its assignments. */
  function Bounds(spans: seq<Span>): (r: seq<(int, int)>)
    ensures |r| == |spans| && forall i :: 0 <= i < |spans| ==> r[i] == (spans[i].start, spans[i].end)
  {
    seq(|spans|, i requires 0 <= i < |spans| => (spans[i].start, spans[i].end))
  }

  lemma BoundsSnoc(spans: seq<Span>, sp: Span)
    ensures Bounds(spans + [sp]) == Bounds(spans) + [(sp.start, sp.end)]
  {
    assert forall i :: 0 <= i < |spans| ==> (spans + [sp])[i] == spans[i];
  }

  /** Offset `x` lies in one of the spans. */
  ghost predicate Covered(spans: seq<Span>, x: nat)
  {
    exists i :: 0 <= i < |spans| && spans[i].start <= x < spans[i].end
  }

  /** In a tiling, every span ends no later than any later span starts. */
  lemma {:induction false} ContiguousOrdered(spans: seq<Span>, lo: nat, hi: nat, i: nat, j: nat)
    requires Contiguous(spans, lo, hi)
    requires i < j < |spans|
    ensures spans[i].end <= spans[j].start
    decreases j - i
  {
    if j > i + 1 {
      ContiguousOrdered(spans, lo, hi, i, j - 1);
    }
  }

  /** A tiling covers every offset of [lo, hi) with exactly one span, in increasing order. */
  lemma {:induction false} ContiguousCovers(spans: seq<Span>, lo: nat, hi: nat)
    requires Contiguous(spans, lo, hi)
    ensures forall x :: lo <= x < hi ==> Covered(spans, x)
    ensures forall i, j :: 0 <= i < j < |spans| ==> spans[i].end <= spans[j].start
    decreases |spans|
  {
    forall i, j | 0 <= i < j < |spans| ensures spans[i].end <= spans[j].start {
      ContiguousOrdered(spans, lo, hi, i, j);
    }
    if |spans| > 0 {
      var n := |spans| - 1;
      var init := spans[..n];
      assert Contiguous(init, lo, spans[n].start);
      ContiguousCovers(init, lo, spans[n].start);
      forall x | lo <= x < hi ensures Covered(spans, x) {
        if x >= spans[n].start {
          assert spans[n].start <= x < spans[n].end;
        } else {
          assert Covered(init, x);
          var i :| 0 <= i < |init| && init[i].start <= x < init[i].end;
          assert spans[i] == init[i];
        }
      }
    }
  }

  /** The partition of a file, whatever its size, covers it exactly once. */
  lemma AllSpansPartition(size: nat)
    ensures Contiguous(AllSpans(size), 0, size)
    ensures forall x :: 0 <= x < size ==> Covered(AllSpans(size), x)
    ensures forall i, j :: 0 <= i < j < |AllSpans(size)| ==> AllSpans(size)[i].end <= AllSpans(size)[j].start
  {
    SpansFromContiguous(0, size);
    ContiguousCovers(AllSpans(size), 0, size);
  }

  /** A file of 20000 bytes is handed out as exactly [0,8192), [8192,16384), [16384,20000). */
  lemma TwentyThousandBytes()
    ensures AllSpans(20000) == [Span(0, 8192), Span(8192, 16384), Span(16384, 20000)]
  {
    assert SpansFrom(20000, 20000) == [];
    assert SpansFrom(16384, 20000) == [Span(16384, 20000)];
    assert SpansFrom(8192, 20000) == [Span(8192, 16384), Span(16384, 20000)];
  }

  /** Lengths of what reading every span of `spans` from `file` returns. */
  function ReadLengths(file: seq<byte>, spans: seq<Span>): (r: seq<int>)
    ensures |r| == |spans|
  {
    if |spans| == 0 then []
    else [|ReadAt(file, spans[0].start, Length(spans[0]))|] + ReadLengths(file, spans[1..])
  }

  /** Entry `i` is the length of what reading span `i` returns. */
  lemma {:induction false} ReadLengthsAt(file: seq<byte>, spans: seq<Span>)
    ensures forall i :: 0 <= i < |spans| ==>
      ReadLengths(file, spans)[i] == |ReadAt(file, spans[i].start, Length(spans[i]))|
  {
    if |spans| > 0 {
      ReadLengthsAt(file, spans[1..]);
      assert forall i :: 1 <= i < |spans| ==> spans[1..][i - 1] == spans[i];
    }
  }

  /** Reading every span of the partition reads every byte of the file exactly once: the bytes read
      add up to the file's size. */
  lemma {:induction false} ReadsAddUpToFile(file: seq<byte>, pos: nat)
    requires pos <= |file|
    ensures Sum(ReadLengths(file, SpansFrom(pos, |file|))) == |file| - pos
    decreases |file| - pos
  {
    if pos < |file| {
      var sp := NextSpan(pos, |file|);
      ReadsAddUpToFile(file, sp.end);
      assert SpansFrom(pos, |file|)[1..] == SpansFrom(sp.end, |file|);
      SumCons(sp.end - sp.start, ReadLengths(file, SpansFrom(sp.end, |file|)));
    }
  }
}
