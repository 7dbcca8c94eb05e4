/** The single-process chunked scanner: reads the file in chunks of CHUNK bytes, processes each
    chunk up to its last newline, prepends the fragment left over from the chunk before, splits
    what it has into lines, and prints the lines the pattern matches. */
module Grep2 {
  import opened Bytes

  /** Bytes per read. */
  const CHUNK: nat := 8192

  // ---------------------------------------------------------------------------
  // Lines as C strings
  // ---------------------------------------------------------------------------

  /** What a C string function sees of `s`: everything before its first NUL. */
  function CStr(s: seq<byte>): (r: seq<byte>)
    ensures |r| <= |s| && r == s[..|r|]
    ensures NUL !in r
    ensures |r| < |s| ==> s[|r|] == NUL
  {
    if |s| == 0 || s[0] == NUL then [] else [s[0]] + CStr(s[1..])
  }

  /** The lines printed, in order: each line the pattern matches, as the C string it holds. */
  function MatchingLines(lines: seq<seq<byte>>, matches: seq<byte> -> bool): (r: seq<seq<byte>>)
    ensures |r| <= |lines|
    ensures forall k :: 0 <= k < |r| ==> matches(r[k]) && NUL !in r[k]
  {
    if |lines| == 0 then []
    else (if matches(CStr(lines[0])) then [CStr(lines[0])] else []) + MatchingLines(lines[1..], matches)
  }

  lemma MatchingLinesCons(line: seq<byte>, rest: seq<seq<byte>>, matches: seq<byte> -> bool)
    ensures MatchingLines([line] + rest, matches) ==
      (if matches(CStr(line)) then [CStr(line)] else []) + MatchingLines(rest, matches)
  {
    assert ([line] + rest)[1..] == rest;
  }

  /** Every printed line is, as a C string, one of the lines it came from, and holds no newline. */
  lemma {:induction false} MatchingLinesFromLines(lines: seq<seq<byte>>, matches: seq<byte> -> bool)
    requires forall k :: 0 <= k < |lines| ==> NL !in lines[k]
    ensures forall k :: 0 <= k < |MatchingLines(lines, matches)| ==>
      NL !in MatchingLines(lines, matches)[k] &&
      exists j :: 0 <= j < |lines| && MatchingLines(lines, matches)[k] == CStr(lines[j])
  {
    if |lines| > 0 {
      MatchingLinesFromLines(lines[1..], matches);
      var rest := MatchingLines(lines[1..], matches);
      var head := if matches(CStr(lines[0])) then [CStr(lines[0])] else [];
      assert MatchingLines(lines, matches) == head + rest;
      forall k | 0 <= k < |head + rest|
        ensures NL !in (head + rest)[k] && exists j :: 0 <= j < |lines| && (head + rest)[k] == CStr(lines[j])
      {
        if k < |head| {
          assert (head + rest)[k] == CStr(lines[0]);
          assert CStr(lines[0]) == lines[0][..|CStr(lines[0])|];
        } else {
          var j :| 0 <= j < |lines[1..]| && rest[k - |head|] == CStr(lines[1..][j]);
          assert (head + rest)[k] == CStr(lines[j + 1]);
        }
      }
    }
  }

  // ---------------------------------------------------------------------------
  // One chunk
  // ---------------------------------------------------------------------------

  /** The backward `for` loop with `break` that looks for the chunk's last newline, and the
      processed length it gives: one past that newline, or the whole chunk when there is none. */
  method FindProcessLen(buf: seq<byte>, r: nat) returns (processLen: nat)
    requires r <= |buf|
    ensures processLen <= r
    ensures (exists k :: 0 <= k < r && buf[k] == NL) ==>
      0 < processLen && buf[processLen - 1] == NL && forall k :: processLen <= k < r ==> buf[k] != NL
    ensures (forall k :: 0 <= k < r ==> buf[k] != NL) ==> processLen == r
    ensures processLen == CompleteLinesEnd(buf[..r])
  {
    var lastNl: int := -1;
    var i: int := r - 1;
    while i >= 0
      invariant -1 <= i < r
      invariant forall k :: i < k < r ==> buf[k] != NL
      invariant lastNl == -1
      decreases i + 1
    {
      if buf[i] == NL {
        lastNl := i;
        break;
      }
      i := i - 1;
    }
    if lastNl >= 0 {
      processLen := lastNl + 1;
    } else {
      processLen := r;
    }
    LastNewline(buf, r, processLen);
  }

  /** The inner `while (p < e)` loop: cuts `work` at every newline (memchr), keeps empty lines, and
      prints each line the pattern matches. */
  method EmitMatchingLines(work: seq<byte>, matches: seq<byte> -> bool) returns (out: seq<seq<byte>>)
    ensures out == MatchingLines(SplitLines(work), matches)
  {
    out := [];
    var p := 0;
    assert work[p..] == work;
    while p < |work|
      invariant 0 <= p <= |work|
      invariant out + MatchingLines(SplitLines(work[p..]), matches) == MatchingLines(SplitLines(work), matches)
      decreases |work| - p
    {
      var nl := FindNewline(work, p);
      var line := work[p..nl];
      var np := if nl < |work| then nl + 1 else nl;
      EmitInvariant(work, p, nl, out, matches);
      if matches(CStr(line)) {
        out := out + [CStr(line)];
      } else {
        assert out + [] == out;
      }
      p := np;
    }
  }

  /** memchr(p, '\n', e - p): the first newline at or after `p`, or the end of `work`. */
  method FindNewline(work: seq<byte>, p: nat) returns (nl: nat)
    requires p <= |work|
    ensures p <= nl <= |work|
    ensures forall k :: p <= k < nl ==> work[k] != NL
    ensures nl < |work| ==> work[nl] == NL
  {
    nl := p;
    while nl < |work| && work[nl] != NL
      invariant p <= nl <= |work|
      invariant forall k :: p <= k < nl ==> work[k] != NL
      decreases |work| - nl
    {
      nl := nl + 1;
    }
  }

  /** The loop invariant survives one turn: what is printed so far, then the line work[p..nl] if
      it matches, then the rest, is what the whole buffer prints. */
  lemma EmitInvariant(work: seq<byte>, p: nat, nl: nat, out: seq<seq<byte>>, matches: seq<byte> -> bool)
    requires p < |work| && p <= nl <= |work|
    requires forall k :: p <= k < nl ==> work[k] != NL
    requires nl < |work| ==> work[nl] == NL
    requires out + MatchingLines(SplitLines(work[p..]), matches) == MatchingLines(SplitLines(work), matches)
    ensures var np := if nl < |work| then nl + 1 else nl;
      var line := work[p..nl];
      (out + (if matches(CStr(line)) then [CStr(line)] else [])) + MatchingLines(SplitLines(work[np..]), matches)
      == MatchingLines(SplitLines(work), matches)
  {
    var np := if nl < |work| then nl + 1 else nl;
    var line := work[p..nl];
    EmitStep(work, p, nl, matches);
    ConcatAssoc(out, if matches(CStr(line)) then [CStr(line)] else [], MatchingLines(SplitLines(work[np..]), matches));
  }

  /** One turn of the inner loop: with the first newline at or after `p` at `nl` (or none), the
      lines printed from `p` on are those of the line work[p..nl], then those from just past the
      newline. */
  lemma EmitStep(work: seq<byte>, p: nat, nl: nat, matches: seq<byte> -> bool)
    requires p < |work| && p <= nl <= |work|
    requires forall k :: p <= k < nl ==> work[k] != NL
    requires nl < |work| ==> work[nl] == NL
    ensures var np := if nl < |work| then nl + 1 else nl;
      MatchingLines(SplitLines(work[p..]), matches) ==
        (if matches(CStr(work[p..nl])) then [CStr(work[p..nl])] else [])
        + MatchingLines(SplitLines(work[np..]), matches)
  {
    var s := work[p..];
    var len := nl - p;
    var np := if nl < |work| then nl + 1 else nl;
    var line := s[..len];
    var next := if len < |s| then s[len + 1..] else [];
    FirstNewlineUnique(s, len);
    assert line == work[p..nl] by { SliceOfSuffix(work, p, nl); }
    assert next == work[np..] by {
      if nl < |work| {
        SuffixOfSuffix(work, p, nl + 1);
      } else {
        assert work[nl..] == [];
      }
    }
    calc {
      MatchingLines(SplitLines(work[p..]), matches);
      == { EmitFront(s, matches); }
      (if matches(CStr(line)) then [CStr(line)] else []) + MatchingLines(SplitLines(next), matches);
      ==
      (if matches(CStr(work[p..nl])) then [CStr(work[p..nl])] else []) + MatchingLines(SplitLines(work[np..]), matches);
    }
  }

  /** The lines printed from `s` are those of its first line, then those from just past that
      line's newline. */
  lemma EmitFront(s: seq<byte>, matches: seq<byte> -> bool)
    requires |s| > 0
    ensures var len := FirstNewline(s);
      MatchingLines(SplitLines(s), matches) ==
        (if matches(CStr(s[..len])) then [CStr(s[..len])] else [])
        + MatchingLines(SplitLines(if len < |s| then s[len + 1..] else []), matches)
  {
    var len := FirstNewline(s);
    SplitLinesStep(s);
    MatchingLinesCons(s[..len], SplitLines(if len < |s| then s[len + 1..] else []), matches);
  }

  /** One step of the splitter: the first line, then the lines after its newline. */
  lemma SplitLinesStep(s: seq<byte>)
    requires |s| > 0
    ensures var i := FirstNewline(s);
      SplitLines(s) == [s[..i]] + SplitLines(if i < |s| then s[i + 1..] else [])
  {
    if FirstNewline(s) == |s| {
      assert s[..|s|] == s;
    }
  }

  // ---------------------------------------------------------------------------
  // The chunk loop
  // ---------------------------------------------------------------------------

  /** What a read of CHUNK bytes at `pos` returns: the next CHUNK bytes, fewer at the end of the
      file, none past it. */
  function Chunk(file: seq<byte>, pos: nat): (buf: seq<byte>)
    ensures |buf| == if pos < |file| then Min(CHUNK, |file| - pos) else 0
    ensures pos < |file| ==> buf == file[pos..pos + |buf|]
  {
    ReadAt(file, pos, CHUNK)
  }

  /** What one iteration of the chunk loop leaves: the work buffer it built and split, and the
      file position and carry the next iteration starts from. */
  datatype Iteration = Iteration(work: seq<byte>, pos: nat, carry: seq<byte>)

  /** One iteration as written. The chunk is processed up to its last newline; what follows it
      becomes the carry, and the position is moved back by the carry's length. So the work buffer
      and the new carry together are the old carry and the chunk, the position moves on by the
      processed length (at least 1), and the carry holds no newline. */
  function Step(file: seq<byte>, pos: nat, carry: seq<byte>): (it: Iteration)
    requires pos < |file|
    ensures var buf := Chunk(file, pos);
      && it.work + it.carry == carry + buf
      && it.pos + |it.carry| == pos + |buf|
      && pos < it.pos <= |file|
      && it.pos - pos == CompleteLinesEnd(buf) == |it.work| - |carry|
      && NL !in it.carry
  {
    var buf := Chunk(file, pos);
    var pl := CompleteLinesEnd(buf);
    CompleteLinesEndPositive(buf);
    assert buf[..pl] + buf[pl..] == buf;
    ConcatAssoc(carry, buf[..pl], buf[pl..]);
    assert NL !in buf[pl..] by {
      if NL !in buf {
        assert buf[pl..] == [];
      }
    }
    Iteration(carry + buf[..pl], pos + pl, buf[pl..])
  }

  /** The work buffers the loop builds from position `pos` with `carry` in hand, as written. */
  function Works(file: seq<byte>, pos: nat, carry: seq<byte>): (r: seq<seq<byte>>)
    ensures |r| == 0 <==> pos >= |file|
    ensures pos <= |file| ==> |r| <= |file| - pos
    decreases |file| - pos
  {
    if pos >= |file| then []
    else
      var it := Step(file, pos, carry);
      [it.work] + Works(file, it.pos, it.carry)
  }

  /** The lines printed for a sequence of work buffers. */
  function Emitted(works: seq<seq<byte>>, matches: seq<byte> -> bool): (r: seq<seq<byte>>)
    ensures forall k :: 0 <= k < |r| ==> matches(r[k]) && NUL !in r[k]
  {
    if |works| == 0 then [] else MatchingLines(SplitLines(works[0]), matches) + Emitted(works[1..], matches)
  }

  /** The work buffers glued together. */
  function Concat(works: seq<seq<byte>>): seq<byte>
  {
    if |works| == 0 then [] else works[0] + Concat(works[1..])
  }

  lemma EmittedCons(work: seq<byte>, rest: seq<seq<byte>>, matches: seq<byte> -> bool)
    ensures Emitted([work] + rest, matches) == MatchingLines(SplitLines(work), matches) + Emitted(rest, matches)
  {
    assert ([work] + rest)[1..] == rest;
  }

  lemma ConcatCons(work: seq<byte>, rest: seq<seq<byte>>)
    ensures Concat([work] + rest) == work + Concat(rest)
  {
    assert ([work] + rest)[1..] == rest;
  }

  /** main's `for (;;)` loop as written, with the carry and the rewind. The branch after the loop
      that would print a left-over carry is never taken: a carry is only taken when the position
      is left before the end of the file, so another chunk is read and the carry is discarded. */
  method Scan(file: seq<byte>, matches: seq<byte> -> bool) returns (out: seq<seq<byte>>)
    ensures out == Emitted(Works(file, 0, []), matches)
  {
    out := [];
    var pos: nat := 0;
    var carry: seq<byte> := [];
    while true
      invariant pos <= |file|
      invariant carry != [] ==> pos < |file|
      invariant out + Emitted(Works(file, pos, carry), matches) == Emitted(Works(file, 0, []), matches)
      decreases |file| - pos
    {
      var buf := Chunk(file, pos);
      var r := |buf|;
      if r == 0 {
        break;
      }
      var processLen := FindProcessLen(buf, r);
      WholeSlice(buf);
      var work := carry + buf[..processLen];
      var lines := EmitMatchingLines(work, matches);
      ghost var it := Step(file, pos, carry);
      ScanInvariant(file, pos, carry, out, lines, matches);
      out := out + lines;
      carry := [];
      pos := pos + r;
      if processLen < r {
        var restLen := r - processLen;
        carry := buf[processLen..];
        pos := pos - restLen;
      }
      assert pos == it.pos && carry == it.carry;
    }
    if |carry| > 0 {
      assert false;
    }
    assert Works(file, pos, carry) == [];
  }

  /** Step spelled out: the work buffer is the carry and the chunk up to its last newline, and the
      rest of the chunk is the new carry. */
  lemma StepIs(file: seq<byte>, pos: nat, carry: seq<byte>)
    requires pos < |file|
    ensures var buf := Chunk(file, pos);
      var pl := CompleteLinesEnd(buf);
      Step(file, pos, carry) == Iteration(carry + buf[..pl], pos + pl, buf[pl..])
  {
  }

  /** The loop invariant of Scan survives one iteration: with `lines` the lines printed for the
      work buffer built from the carry and the chunk up to its last newline, what is printed so far
      and then from the next position on is still everything. */
  lemma ScanInvariant(file: seq<byte>, pos: nat, carry: seq<byte>, out: seq<seq<byte>>,
                      lines: seq<seq<byte>>, matches: seq<byte> -> bool)
    requires pos < |file|
    requires out + Emitted(Works(file, pos, carry), matches) == Emitted(Works(file, 0, []), matches)
    requires var buf := Chunk(file, pos);
      lines == MatchingLines(SplitLines(carry + buf[..CompleteLinesEnd(buf)]), matches)
    ensures var buf := Chunk(file, pos);
      var pl := CompleteLinesEnd(buf);
      var it := Step(file, pos, carry);
      && it == Iteration(carry + buf[..pl], pos + pl, buf[pl..])
      && (out + lines) + Emitted(Works(file, it.pos, it.carry), matches) == Emitted(Works(file, 0, []), matches)
  {
    var it := Step(file, pos, carry);
    StepIs(file, pos, carry);
    WorksEmittedStep(file, pos, carry, matches);
    ConcatAssoc(out, lines, Emitted(Works(file, it.pos, it.carry), matches));
  }

  /** The lines printed from `pos` on: those of this iteration's work buffer, then the rest. */
  lemma WorksEmittedStep(file: seq<byte>, pos: nat, carry: seq<byte>, matches: seq<byte> -> bool)
    requires pos < |file|
    ensures var it := Step(file, pos, carry);
      Emitted(Works(file, pos, carry), matches) ==
      MatchingLines(SplitLines(it.work), matches) + Emitted(Works(file, it.pos, it.carry), matches)
  {
    var it := Step(file, pos, carry);
    EmittedCons(it.work, Works(file, it.pos, it.carry), matches);
  }

  /** After a cut, the next chunk is read from the fragment's start: it begins with the fragment,
      and since the fragment holds no newline, its processed length covers the whole fragment. */
  lemma FragmentReread(file: seq<byte>, pos: nat, carry: seq<byte>)
    requires pos < |file| && Step(file, pos, carry).carry != []
    ensures var it := Step(file, pos, carry);
      var buf2 := Chunk(file, it.pos);
      && it.pos < |file|
      && |buf2| >= |it.carry|
      && buf2[..|it.carry|] == it.carry
      && CompleteLinesEnd(buf2) >= |it.carry|
  {
    var it := Step(file, pos, carry);
    var c := it.carry;
    CarryIsRest(file, pos, carry);
    var buf2 := Chunk(file, it.pos);
    assert buf2[..|c|] == c;
    CompleteLinesEndPastPrefix(buf2, c);
  }

  /** The carry is the tail of the file that ends where the chunk ends. */
  lemma CarryIsRest(file: seq<byte>, pos: nat, carry: seq<byte>)
    requires pos < |file|
    ensures var it := Step(file, pos, carry);
      it.carry == file[it.pos..pos + |Chunk(file, pos)|]
  {
    var buf := Chunk(file, pos);
    var it := Step(file, pos, carry);
    var c := it.carry;
    assert c == buf[|buf| - |c|..] by {
      assert (it.work + c)[|it.work|..] == c;
      assert (carry + buf)[|carry| + |buf| - |c|..] == buf[|buf| - |c|..];
    }
  }

  /** The second work buffer is the one built by the iteration that starts where the first
      iteration left off. */
  lemma SecondWork(file: seq<byte>, pos: nat, carry: seq<byte>)
    requires pos < |file| && Step(file, pos, carry).pos < |file|
    ensures var it := Step(file, pos, carry);
      |Works(file, pos, carry)| >= 2 && Works(file, pos, carry)[1] == Step(file, it.pos, it.carry).work
  {
    var it := Step(file, pos, carry);
    var it2 := Step(file, it.pos, it.carry);
    assert Works(file, pos, carry) == [it.work] + Works(file, it.pos, it.carry);
    assert Works(file, it.pos, it.carry) == [it2.work] + Works(file, it2.pos, it2.carry);
  }

  /** The rewind makes the fragment appear twice: after an iteration that leaves a carry `c`, the
      next work buffer begins with `c` followed by `c` again. */
  lemma RewindRepeatsCarry(file: seq<byte>, pos: nat, carry: seq<byte>)
    requires pos < |file| && Step(file, pos, carry).carry != []
    ensures var c := Step(file, pos, carry).carry;
      && |Works(file, pos, carry)| >= 2
      && |Works(file, pos, carry)[1]| >= 2 * |c|
      && Works(file, pos, carry)[1][..2 * |c|] == c + c
  {
    var it := Step(file, pos, carry);
    var c := it.carry;
    FragmentReread(file, pos, carry);
    SecondWork(file, pos, carry);
    var buf2 := Chunk(file, it.pos);
    var pl2 := CompleteLinesEnd(buf2);
    StepIs(file, it.pos, c);
    DoubledFront(c, buf2, pl2);
    assert Works(file, pos, carry)[1] == c + buf2[..pl2];
  }

  /** A buffer that starts with `c`, cut at or after `|c|` and put behind `c`, starts with `c + c`. */
  lemma DoubledFront(c: seq<byte>, buf: seq<byte>, end: nat)
    requires |c| <= end <= |buf| && buf[..|c|] == c
    ensures |c + buf[..end]| >= 2 * |c| && (c + buf[..end])[..2 * |c|] == c + c
  {
    assert buf[..end][..|c|] == c;
  }

  /** A file of 8194 bytes: 8190 'x', a newline, then "yz" and a newline. */
  function RewindFile(): (file: seq<byte>)
    ensures |file| == 8194
  {
    seq(8190, _ => 120 as byte) + [10, 121, 122, 10]
  }

  /** The first chunk of RewindFile ends in "\ny": everything up to the newline is processed, "y" is
      carried, and the position is moved back to it. */
  lemma RewindFileFirstStep()
    ensures Step(RewindFile(), 0, []) == Iteration(RewindFile()[..8191], 8191, [121])
  {
    var file := RewindFile();
    var buf := Chunk(file, 0);
    assert |buf| == 8192 && buf == file[..8192];
    assert buf[8190] == NL && buf[8191..] == [121];
    CompleteLinesEndUnique(buf, 8191);
    StepIs(file, 0, []);
    assert buf[..8191] == file[..8191];
    assert [] + file[..8191] == file[..8191];
  }

  /** The second chunk is "yz\n", read again from the carried "y": the work buffer is "yyz\n". */
  lemma RewindFileSecondStep()
    ensures Step(RewindFile(), 8191, [121]) == Iteration([121, 121, 122, 10], 8194, [])
  {
    var file := RewindFile();
    var buf2 := Chunk(file, 8191);
    assert buf2 == [121, 122, 10];
    CompleteLinesEndUnique(buf2, 3);
    StepIs(file, 8191, [121]);
    assert buf2[..3] == buf2 && buf2[3..] == [];
  }

  /** The two work buffers built on RewindFile: its first 8191 bytes, then "yyz\n". */
  lemma RewindWorks()
    ensures Works(RewindFile(), 0, []) == [RewindFile()[..8191], [121, 121, 122, 10]]
  {
    var file := RewindFile();
    var w1 := file[..8191];
    var w2: seq<byte> := [121, 121, 122, 10];
    RewindFileFirstStep();
    RewindFileSecondStep();
    assert Works(file, 8194, []) == [];
    assert Works(file, 8191, [121]) == [w2] + Works(file, 8194, []);
    assert Works(file, 0, []) == [w1] + Works(file, 8191, [121]);
  }

  /** "yyz\n" is the single line "yyz". */
  lemma RepeatedLine()
    ensures SplitLines([121, 121, 122, 10]) == [[121, 121, 122]]
  {
    var w2: seq<byte> := [121, 121, 122, 10];
    assert FirstNewline(w2) == 3;
    assert w2[..3] == [121, 121, 122];
    assert SplitLines(w2[4..]) == [];
    SplitLinesStep(w2);
  }

  /** On RewindFile the scanner builds two work buffers and the second is "yyz\n": it tries the
      pattern on the line "yyz", which is not in the file, and never on "yz"; and the work buffers
      hold one byte more than the file. */
  lemma RewindCounterexample()
    ensures var works := Works(RewindFile(), 0, []);
      && |works| == 2
      && works[1] == [121, 121, 122, 10]
      && SplitLines(works[1]) == [[121, 121, 122]]
      && |Concat(works)| == |RewindFile()| + 1
  {
    var file := RewindFile();
    var w1 := file[..8191];
    var w2: seq<byte> := [121, 121, 122, 10];
    RewindWorks();
    RepeatedLine();
    ConcatCons(w2, []);
    ConcatCons(w1, [w2]);
    assert [w1] + [w2] == [w1, w2];
  }

  // ---------------------------------------------------------------------------
  // The loop as intended: carry the fragment, do not rewind
  // ---------------------------------------------------------------------------

  /** One iteration without the rewind: the position moves on by the whole chunk, and the work
      buffer and the new carry together are still the old carry and the chunk. */
  function StepCarryOnly(file: seq<byte>, pos: nat, carry: seq<byte>): (it: Iteration)
    requires pos < |file|
    ensures var buf := Chunk(file, pos);
      && it.work + it.carry == carry + buf
      && it.pos == pos + |buf| <= |file|
      && |it.work| - |carry| == CompleteLinesEnd(buf)
      && NL !in it.carry
  {
    var buf := Chunk(file, pos);
    var pl := CompleteLinesEnd(buf);
    assert buf[..pl] + buf[pl..] == buf;
    ConcatAssoc(carry, buf[..pl], buf[pl..]);
    assert NL !in buf[pl..] by {
      if NL !in buf {
        assert buf[pl..] == [];
      }
    }
    Iteration(carry + buf[..pl], pos + |buf|, buf[pl..])
  }

  /** The work buffers without the rewind; a fragment still in hand at the end of the file is
      processed on its own. */
  function WorksCarryOnly(file: seq<byte>, pos: nat, carry: seq<byte>): (r: seq<seq<byte>>)
    ensures pos <= |file| ==> |r| <= |file| - pos + 1
    ensures pos >= |file| ==> (|r| == 1 <==> |carry| > 0)
    decreases |file| - pos
  {
    if pos >= |file| then (if |carry| > 0 then [carry] else [])
    else
      var it := StepCarryOnly(file, pos, carry);
      [it.work] + WorksCarryOnly(file, it.pos, it.carry)
  }

  /** Without the rewind every byte is processed exactly once and in order: the work buffers glued
      together are the carry followed by the rest of the file. */
  lemma {:induction false} CarryOnlyCoversRest(file: seq<byte>, pos: nat, carry: seq<byte>)
    requires pos <= |file|
    ensures Concat(WorksCarryOnly(file, pos, carry)) == carry + file[pos..]
    decreases |file| - pos
  {
    if pos == |file| {
      assert file[pos..] == [];
      if |carry| > 0 {
        ConcatCons(carry, []);
      }
    } else {
      var it := StepCarryOnly(file, pos, carry);
      var rest := WorksCarryOnly(file, it.pos, it.carry);
      calc {
        Concat(WorksCarryOnly(file, pos, carry));
        == { ConcatCons(it.work, rest); }
        it.work + Concat(rest);
        == { CarryOnlyCoversRest(file, it.pos, it.carry); }
        it.work + (it.carry + file[it.pos..]);
        == { ConcatAssoc(it.work, it.carry, file[it.pos..]); }
        (carry + Chunk(file, pos)) + file[it.pos..];
        == { ConcatAssoc(carry, Chunk(file, pos), file[it.pos..]); ChunkThenRest(file, pos); }
        carry + file[pos..];
      }
    }
  }

  /** The rest of the file from `pos` is the chunk read there followed by what comes after it. */
  lemma ChunkThenRest(file: seq<byte>, pos: nat)
    requires pos < |file|
    ensures file[pos..] == Chunk(file, pos) + file[pos + |Chunk(file, pos)|..]
  {
  }

  /** The whole file is processed exactly once. */
  lemma CarryOnlyCoversFile(file: seq<byte>)
    ensures Concat(WorksCarryOnly(file, 0, [])) == file
  {
    CarryOnlyCoversRest(file, 0, []);
    assert file[0..] == file;
  }

  /** At the end of the file the intended loop prints the fragment in hand if the pattern matches it. */
  lemma CarryOnlyEnd(file: seq<byte>, pos: nat, carry: seq<byte>, matches: seq<byte> -> bool)
    requires pos == |file| && NL !in carry
    ensures Emitted(WorksCarryOnly(file, pos, carry), matches) ==
      if |carry| > 0 && matches(CStr(carry)) then [CStr(carry)] else []
  {
    if |carry| > 0 {
      assert FirstNewline(carry) == |carry|;
      assert SplitLines(carry) == [carry];
      EmittedCons(carry, [], matches);
      MatchingLinesCons(carry, [], matches);
    }
  }

  lemma StepCarryOnlyIs(file: seq<byte>, pos: nat, carry: seq<byte>)
    requires pos < |file|
    ensures var buf := Chunk(file, pos);
      var pl := CompleteLinesEnd(buf);
      StepCarryOnly(file, pos, carry) == Iteration(carry + buf[..pl], pos + |buf|, buf[pl..])
  {
  }

  lemma CarryOnlyEmittedStep(file: seq<byte>, pos: nat, carry: seq<byte>, matches: seq<byte> -> bool)
    requires pos < |file|
    ensures var it := StepCarryOnly(file, pos, carry);
      Emitted(WorksCarryOnly(file, pos, carry), matches) ==
      MatchingLines(SplitLines(it.work), matches) + Emitted(WorksCarryOnly(file, it.pos, it.carry), matches)
  {
    var it := StepCarryOnly(file, pos, carry);
    EmittedCons(it.work, WorksCarryOnly(file, it.pos, it.carry), matches);
  }

  /** The loop invariant of ScanCorrected survives one iteration. */
  lemma ScanCorrectedInvariant(file: seq<byte>, pos: nat, carry: seq<byte>, out: seq<seq<byte>>,
                               lines: seq<seq<byte>>, matches: seq<byte> -> bool)
    requires pos < |file|
    requires out + Emitted(WorksCarryOnly(file, pos, carry), matches) == Emitted(WorksCarryOnly(file, 0, []), matches)
    requires var buf := Chunk(file, pos);
      lines == MatchingLines(SplitLines(carry + buf[..CompleteLinesEnd(buf)]), matches)
    ensures var buf := Chunk(file, pos);
      var pl := CompleteLinesEnd(buf);
      var it := StepCarryOnly(file, pos, carry);
      && it == Iteration(carry + buf[..pl], pos + |buf|, buf[pl..])
      && (out + lines) + Emitted(WorksCarryOnly(file, it.pos, it.carry), matches)
         == Emitted(WorksCarryOnly(file, 0, []), matches)
  {
    var it := StepCarryOnly(file, pos, carry);
    StepCarryOnlyIs(file, pos, carry);
    CarryOnlyEmittedStep(file, pos, carry, matches);
    ConcatAssoc(out, lines, Emitted(WorksCarryOnly(file, it.pos, it.carry), matches));
  }

  /** The loop with the rewind removed; the branch after the loop now prints a fragment left over
      at the end of the file. */
  method ScanCorrected(file: seq<byte>, matches: seq<byte> -> bool) returns (out: seq<seq<byte>>)
    ensures out == Emitted(WorksCarryOnly(file, 0, []), matches)
  {
    out := [];
    var pos: nat := 0;
    var carry: seq<byte> := [];
    while true
      invariant pos <= |file|
      invariant NL !in carry
      invariant out + Emitted(WorksCarryOnly(file, pos, carry), matches) == Emitted(WorksCarryOnly(file, 0, []), matches)
      decreases |file| - pos
    {
      var buf := Chunk(file, pos);
      var r := |buf|;
      if r == 0 {
        break;
      }
      var processLen := FindProcessLen(buf, r);
      WholeSlice(buf);
      var work := carry + buf[..processLen];
      var lines := EmitMatchingLines(work, matches);
      ghost var it := StepCarryOnly(file, pos, carry);
      ScanCorrectedInvariant(file, pos, carry, out, lines, matches);
      out := out + lines;
      carry := buf[processLen..];
      pos := pos + r;
      assert pos == it.pos && carry == it.carry;
    }
    CarryOnlyEnd(file, pos, carry, matches);
    if |carry| > 0 {
      // The fragment left at the end of the file holds no newline: it is one line, tried as it is.
      if matches(CStr(carry)) {
        out := out + [CStr(carry)];
      }
    }
  }
}
