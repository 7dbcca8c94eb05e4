/** Bytes of the searched file and the three ways the programs cut them into lines:
    the backward search for the last newline, the strtok-style tokenizer of the
    multi-process workers, and the memchr-style splitter of the chunked scanner. */
module Bytes {

  newtype byte = x: int | 0 <= x < 256

  /** '\n' */
  const NL: byte := 10
  /** '\0', the end of a C string */
  const NUL: byte := 0

  function Min(a: int, b: int): int { if a < b then a else b }

  /** What fread returns: at most `count` bytes starting at `pos`, fewer at the end of the file. */
  function ReadAt(file: seq<byte>, pos: nat, count: nat): (data: seq<byte>)
    ensures |data| <= count
    ensures pos + |data| <= |file| || data == []
    ensures |data| == Min(count, |file| - pos) || (pos >= |file| && data == [])
    ensures pos < |file| ==> data == file[pos..pos + |data|]
  {
    if pos >= |file| then [] else file[pos..Min(pos + count, |file|)]
  }

  lemma WholeSlice(s: seq<byte>)
    ensures s[..|s|] == s
  {
  }

  /** A prefix one element longer. */
  lemma PrefixSnoc<T>(s: seq<T>, i: nat)
    requires i < |s|
    ensures s[..i + 1] == s[..i] + [s[i]]
  {
  }

  /** The front of a suffix is a slice of the whole. */
  lemma SliceOfSuffix(s: seq<byte>, i: nat, j: nat)
    requires i <= j <= |s|
    ensures s[i..][..j - i] == s[i..j]
  {
  }

  /** A suffix of a suffix is a suffix of the whole. */
  lemma SuffixOfSuffix(s: seq<byte>, i: nat, j: nat)
    requires i <= j <= |s|
    ensures s[i..][j - i..] == s[j..]
  {
  }

  // ---------------------------------------------------------------------------
  // The end of the last complete line
  // ---------------------------------------------------------------------------

  /** One past the last newline of `s`, or |s| when `s` holds no newline. */
  function CompleteLinesEnd(s: seq<byte>): (r: nat)
    ensures r <= |s|
    ensures NL in s ==> 0 < r && s[r - 1] == NL && NL !in s[r..]
    ensures NL !in s ==> r == |s|
    decreases |s|
  {
    if |s| == 0 then 0
    else if s[|s| - 1] == NL then |s|
    else if NL in s[..|s| - 1] then
      var r := CompleteLinesEnd(s[..|s| - 1]);
      assert s[r..] == s[..|s| - 1][r..] + [s[|s| - 1]];
      r
    else
      assert s == s[..|s| - 1] + [s[|s| - 1]];
      |s|
  }

  /** The two properties of CompleteLinesEnd pin it down: any offset that has them is it. */
  lemma CompleteLinesEndUnique(s: seq<byte>, k: nat)
    requires k <= |s|
    requires (0 < k && s[k - 1] == NL && NL !in s[k..]) || (k == |s| && NL !in s)
    ensures CompleteLinesEnd(s) == k
  {
  }

  /** A non-empty buffer always yields a non-empty prefix, so a consumer that advances by it makes progress. */
  lemma CompleteLinesEndPositive(s: seq<byte>)
    requires |s| > 0
    ensures CompleteLinesEnd(s) > 0
  {
  }

  /** An offset just past a newline with none after it before `r`, or `r` itself when there is no
      newline before it, is the processed length of `buf[..r]`. */
  lemma LastNewline(buf: seq<byte>, r: nat, pl: nat)
    requires pl <= r <= |buf|
    requires forall k :: pl <= k < r ==> buf[k] != NL
    requires (0 < pl && buf[pl - 1] == NL) || (pl == r && forall k :: 0 <= k < r ==> buf[k] != NL)
    ensures CompleteLinesEnd(buf[..r]) == pl
  {
    var s := buf[..r];
    assert s[pl..] == buf[pl..r];
    assert NL !in s[pl..] by {
      forall k | 0 <= k < |s[pl..]| ensures s[pl..][k] != NL {
        assert s[pl..][k] == buf[pl + k];
      }
    }
    if pl == r && forall k :: 0 <= k < r ==> buf[k] != NL {
      assert NL !in s by {
        forall k | 0 <= k < |s| ensures s[k] != NL {
          assert s[k] == buf[k];
        }
      }
    }
    CompleteLinesEndUnique(s, pl);
  }

  /** A buffer that begins with a newline-free prefix has its last complete line end past it. */
  lemma CompleteLinesEndPastPrefix(s: seq<byte>, c: seq<byte>)
    requires |c| <= |s| && s[..|c|] == c && NL !in c
    ensures CompleteLinesEnd(s) >= |c|
  {
  }

  // ---------------------------------------------------------------------------
  // strtok(buffer, "\n") over the C string held in a buffer
  // ---------------------------------------------------------------------------

  /** Length of the leading run of `s` that holds neither a newline nor the terminating NUL. */
  function TokenLen(s: seq<byte>): (n: nat)
    ensures n <= |s|
    ensures forall k :: 0 <= k < n ==> s[k] != NL && s[k] != NUL
    ensures n < |s| ==> s[n] == NL || s[n] == NUL
  {
    if |s| == 0 || s[0] == NL || s[0] == NUL then 0 else 1 + TokenLen(s[1..])
  }

  /** The properties of TokenLen pin it down. */
  lemma TokenLenUnique(s: seq<byte>, n: nat)
    requires n <= |s|
    requires forall k :: 0 <= k < n ==> s[k] != NL && s[k] != NUL
    requires n < |s| ==> s[n] == NL || s[n] == NUL
    ensures TokenLen(s) == n
  {
  }

  /** The successive tokens strtok(_, "\n") returns from the buffer `s`: the C string stops at the
      first NUL, runs of newlines are skipped, so no token is empty. */
  function Tokens(s: seq<byte>): (r: seq<seq<byte>>)
    ensures |r| <= |s|
    decreases |s|
  {
    if |s| == 0 || s[0] == NUL then []
    else if s[0] == NL then Tokens(s[1..])
    else
      var n := TokenLen(s);
      [s[..n]] + Tokens(s[n..])
  }

  /** Every token is non-empty and holds neither a newline nor a NUL. */
  lemma {:induction false} TokensShape(s: seq<byte>)
    ensures forall k :: 0 <= k < |Tokens(s)| ==>
              |Tokens(s)[k]| > 0 && NL !in Tokens(s)[k] && NUL !in Tokens(s)[k]
    decreases |s|
  {
    if |s| == 0 || s[0] == NUL {
    } else if s[0] == NL {
      TokensShape(s[1..]);
    } else {
      var n := TokenLen(s);
      TokensShape(s[n..]);
      assert NL !in s[..n] && NUL !in s[..n] by {
        forall k | 0 <= k < n ensures s[..n][k] != NL && s[..n][k] != NUL { }
      }
    }
  }

  /** The NUL the worker writes after the bytes it read ends the C string and adds no token. */
  lemma {:induction false} TokensIgnoreTerminator(s: seq<byte>)
    ensures Tokens(s + [NUL]) == Tokens(s)
    decreases |s|
  {
    var t := s + [NUL];
    if |s| == 0 || s[0] == NUL {
    } else if s[0] == NL {
      assert t[1..] == s[1..] + [NUL];
      TokensIgnoreTerminator(s[1..]);
    } else {
      var n := TokenLen(s);
      TokenLenUnique(t, n);
      assert t[..n] == s[..n];
      assert t[n..] == s[n..] + [NUL];
      TokensIgnoreTerminator(s[n..]);
    }
  }

  /** The bytes read, copied into a buffer and terminated with a NUL: the buffer's first |data|
      bytes are the data and its tokens are those of the data. */
  lemma Terminated(data: seq<byte>)
    ensures (data + [NUL])[..|data|] == data
    ensures Tokens(data + [NUL]) == Tokens(data)
  {
    TokensIgnoreTerminator(data);
  }

  /** Number of `lines` the pattern matches. */
  function CountMatching(lines: seq<seq<byte>>, matches: seq<byte> -> bool): nat
  {
    if |lines| == 0 then 0
    else (if matches(lines[0]) then 1 else 0) + CountMatching(lines[1..], matches)
  }

  /** The count is at most the number of lines, is zero when the pattern matches none of them,
      and equals the number of lines when it matches all of them. */
  lemma {:induction false} CountMatchingBounds(lines: seq<seq<byte>>, matches: seq<byte> -> bool)
    ensures CountMatching(lines, matches) <= |lines|
    ensures (forall k :: 0 <= k < |lines| ==> !matches(lines[k])) ==> CountMatching(lines, matches) == 0
    ensures (forall k :: 0 <= k < |lines| ==> matches(lines[k])) ==> CountMatching(lines, matches) == |lines|
  {
    if |lines| > 0 {
      CountMatchingBounds(lines[1..], matches);
      assert forall k :: 1 <= k < |lines| ==> lines[1..][k - 1] == lines[k];
    }
  }

  /** The worker's token loop (strtok followed by regexec on every token): counts the tokens of the
      C string held in `buffer` that the pattern matches. */
  method CountMatchingTokens(buffer: seq<byte>, matches: seq<byte> -> bool) returns (count: nat)
    ensures count == CountMatching(Tokens(buffer), matches)
    ensures count <= |Tokens(buffer)|
  {
    count := 0;
    var i := 0;
    while i < |buffer| && buffer[i] != NUL
      invariant 0 <= i <= |buffer|
      invariant count + CountMatching(Tokens(buffer[i..]), matches) == CountMatching(Tokens(buffer), matches)
      decreases |buffer| - i
    {
      if buffer[i] == NL {
        // strtok skips the delimiters in front of a token
        CountTokensSkip(buffer, i, matches);
        i := i + 1;
      } else {
        var j := TokenEnd(buffer, i);
        CountTokensStep(buffer, i, j, matches);
        if matches(buffer[i..j]) {
          count := count + 1;
        }
        i := j;
      }
    }
    CountMatchingBounds(Tokens(buffer), matches);
  }

  /** strtok's scan for the end of the token that starts at `i`: the first newline or NUL at or
      after `i`, or the end of the buffer. */
  method TokenEnd(buffer: seq<byte>, i: nat) returns (j: nat)
    requires i <= |buffer|
    ensures i <= j <= |buffer|
    ensures forall k :: i <= k < j ==> buffer[k] != NL && buffer[k] != NUL
    ensures j < |buffer| ==> buffer[j] == NL || buffer[j] == NUL
  {
    j := i;
    while j < |buffer| && buffer[j] != NL && buffer[j] != NUL
      invariant i <= j <= |buffer|
      invariant forall k :: i <= k < j ==> buffer[k] != NL && buffer[k] != NUL
      decreases |buffer| - j
    {
      j := j + 1;
    }
  }

  /** A delimiter in front of a token is skipped. */
  lemma CountTokensSkip(buffer: seq<byte>, i: nat, matches: seq<byte> -> bool)
    requires i < |buffer| && buffer[i] == NL
    ensures CountMatching(Tokens(buffer[i..]), matches) == CountMatching(Tokens(buffer[i + 1..]), matches)
  {
    assert buffer[i..][1..] == buffer[i + 1..];
  }

  /** The token buffer[i..j] at the front counts once if the pattern matches it, then counting goes
      on after it. */
  lemma CountTokensStep(buffer: seq<byte>, i: nat, j: nat, matches: seq<byte> -> bool)
    requires i < j <= |buffer|
    requires forall k :: i <= k < j ==> buffer[k] != NL && buffer[k] != NUL
    requires j < |buffer| ==> buffer[j] == NL || buffer[j] == NUL
    ensures CountMatching(Tokens(buffer[i..]), matches) ==
      (if matches(buffer[i..j]) then 1 else 0) + CountMatching(Tokens(buffer[j..]), matches)
  {
    var s := buffer[i..];
    var n := j - i;
    TokenLenUnique(s, n);
    assert s[..n] == buffer[i..j];
    assert s[n..] == buffer[j..];
    assert Tokens(s) == [s[..n]] + Tokens(s[n..]);
    assert ([s[..n]] + Tokens(s[n..]))[1..] == Tokens(s[n..]);
  }

  // ---------------------------------------------------------------------------
  // The memchr splitter: cut at every newline, empty lines kept
  // ---------------------------------------------------------------------------

  /** Index of the first newline of `s`, or |s| (memchr returning NULL). */
  function FirstNewline(s: seq<byte>): (i: nat)
    ensures i <= |s|
    ensures forall k :: 0 <= k < i ==> s[k] != NL
    ensures i < |s| ==> s[i] == NL
  {
    if |s| == 0 || s[0] == NL then 0 else 1 + FirstNewline(s[1..])
  }

  /** The properties of FirstNewline pin it down. */
  lemma {:induction false} FirstNewlineUnique(s: seq<byte>, i: nat)
    requires i <= |s|
    requires forall k :: 0 <= k < i ==> s[k] != NL
    requires i < |s| ==> s[i] == NL
    ensures FirstNewline(s) == i
  {
    if i > 0 {
      FirstNewlineUnique(s[1..], i - 1);
    }
  }

  /** The lines the memchr loop cuts `s` into: one per newline, plus a last one when `s` does not
      end with a newline; a newline at the very end does not start an empty line. */
  function SplitLines(s: seq<byte>): (r: seq<seq<byte>>)
    ensures |r| <= |s|
    ensures |r| == 0 <==> |s| == 0
    decreases |s|
  {
    if |s| == 0 then []
    else
      var i := FirstNewline(s);
      if i == |s| then [s] else [s[..i]] + SplitLines(s[i + 1..])
  }

  /** The lines glued back together with a newline between consecutive ones. */
  function JoinLines(lines: seq<seq<byte>>): seq<byte>
  {
    if |lines| == 0 then []
    else if |lines| == 1 then lines[0]
    else lines[0] + [NL] + JoinLines(lines[1..])
  }

  function CountNewlines(s: seq<byte>): nat
  {
    if |s| == 0 then 0 else (if s[0] == NL then 1 else 0) + CountNewlines(s[1..])
  }

  predicate EndsWithNewline(s: seq<byte>) { |s| > 0 && s[|s| - 1] == NL }

  /** No line holds a newline. */
  lemma {:induction false} SplitLinesShape(s: seq<byte>)
    ensures forall k :: 0 <= k < |SplitLines(s)| ==> NL !in SplitLines(s)[k]
    decreases |s|
  {
    if |s| > 0 {
      var i := FirstNewline(s);
      assert NL !in s[..i] by {
        forall k | 0 <= k < i ensures s[..i][k] != NL { }
      }
      if i < |s| {
        SplitLinesShape(s[i + 1..]);
      }
    }
  }

  /** Joining the lines with newlines gives back `s` up to its final newline. */
  lemma {:induction false} SplitLinesJoin(s: seq<byte>)
    ensures JoinLines(SplitLines(s)) + (if EndsWithNewline(s) then [NL] else []) == s
    decreases |s|
  {
    if |s| > 0 {
      var i := FirstNewline(s);
      if i == |s| {
        assert !EndsWithNewline(s) by { assert s[|s| - 1] != NL; }
        assert SplitLines(s) == [s];
      } else {
        var head := s[..i];
        var rest := s[i + 1..];
        assert s == head + [NL] + rest;
        assert SplitLines(s) == [head] + SplitLines(rest);
        if |rest| == 0 {
          assert SplitLines(s) == [head];
          assert EndsWithNewline(s);
        } else {
          SplitLinesJoin(rest);
          var lines := SplitLines(rest);
          var tail: seq<byte> := if EndsWithNewline(rest) then [NL] else [];
          assert |lines| > 0 by { SplitLinesNonEmpty(rest); }
          assert ([head] + lines)[0] == head && ([head] + lines)[1..] == lines;
          assert JoinLines([head] + lines) == head + [NL] + JoinLines(lines);
          assert EndsWithNewline(s) == EndsWithNewline(rest) by {
            assert s[|s| - 1] == rest[|rest| - 1];
          }
          calc {
            JoinLines(SplitLines(s)) + tail;
            == (head + [NL] + JoinLines(lines)) + tail;
            == { ConcatAssoc(head + [NL], JoinLines(lines), tail); }
            (head + [NL]) + (JoinLines(lines) + tail);
            ==
            head + [NL] + rest;
          }
        }
      }
    }
  }

  /** A non-empty input gives at least one line. */
  lemma SplitLinesNonEmpty(s: seq<byte>)
    requires |s| > 0
    ensures |SplitLines(s)| > 0
  {
  }

  lemma ConcatAssoc<T>(a: seq<T>, b: seq<T>, c: seq<T>)
    ensures (a + b) + c == a + (b + c)
  {
  }

  /** Every newline ends exactly one line, so empty lines between consecutive newlines are kept. */
  lemma {:induction false} SplitLinesCount(s: seq<byte>)
    ensures |SplitLines(s)| == CountNewlines(s) + (if |s| > 0 && !EndsWithNewline(s) then 1 else 0)
    decreases |s|
  {
    if |s| > 0 {
      var i := FirstNewline(s);
      NoNewlineCount(s[..i]);
      CountNewlinesAppend(s[..i], s[i..]);
      assert s == s[..i] + s[i..];
      if i == |s| {
        assert s[i..] == [];
      } else {
        var rest := s[i + 1..];
        assert s[i..] == [NL] + rest;
        assert CountNewlines(s[i..]) == 1 + CountNewlines(rest);
        SplitLinesCount(rest);
        if |rest| > 0 {
          assert EndsWithNewline(s) == EndsWithNewline(rest);
        }
      }
    }
  }

  lemma {:induction false} NoNewlineCount(s: seq<byte>)
    requires forall k :: 0 <= k < |s| ==> s[k] != NL
    ensures CountNewlines(s) == 0
  {
    if |s| > 0 {
      NoNewlineCount(s[1..]);
    }
  }

  lemma {:induction false} CountNewlinesAppend(a: seq<byte>, b: seq<byte>)
    ensures CountNewlines(a + b) == CountNewlines(a) + CountNewlines(b)
  {
    if |a| > 0 {
      assert (a + b)[1..] == a[1..] + b;
      CountNewlinesAppend(a[1..], b);
    } else {
      assert a + b == b;
    }
  }
}
