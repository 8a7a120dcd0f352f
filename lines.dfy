/**
 * Splitting the output of `cliphist list` into identifier lines.
 *
 * The program iterates `entries.lines()`, so the identifiers are exactly the
 * lines of Rust's `str::lines`: the text is cut after every '\n', the '\n' is
 * dropped, a '\r' directly before that '\n' is dropped too, and a final line
 * without a terminator is kept as it is. A terminator at the very end does not
 * produce an extra empty line.
 */
module Lines {

  /** Position of the first '\n' in `s`, or `|s|` when there is none. */
  function NewlineIndex(s: string): (n: nat)
    ensures n <= |s|
    ensures n < |s| ==> s[n] == '\n'
    ensures forall k :: 0 <= k < n ==> s[k] != '\n'
  {
    if s == [] || s[0] == '\n' then 0 else 1 + NewlineIndex(s[1..])
  }

  /** Drops one trailing carriage return, if there is one. */
  function StripCr(l: string): string
  {
    if |l| > 0 && l[|l| - 1] == '\r' then l[..|l| - 1] else l
  }

  /** The lines of `s`, as `str::lines` yields them. */
  function Lines(s: string): seq<string>
    decreases |s|
  {
    if s == [] then []
    else
      var n := NewlineIndex(s);
      if n == |s| then [s] else [StripCr(s[..n])] + Lines(s[n + 1..])
  }

  /** True when no character of `l` is a line feed. */
  predicate NoNewline(l: string)
  {
    forall k :: 0 <= k < |l| ==> l[k] != '\n'
  }

  /** Number of line feeds in `s`. */
  function Newlines(s: string): nat
  {
    if s == [] then 0 else (if s[0] == '\n' then 1 else 0) + Newlines(s[1..])
  }

  /** Lines joined with a "\r\n" terminator after each one. */
  function JoinCrlf(ls: seq<string>): string
  {
    if ls == [] then [] else ls[0] + "\r\n" + JoinCrlf(ls[1..])
  }

  /** Lines joined with a "\n" terminator after each one. */
  function JoinLf(ls: seq<string>): string
  {
    if ls == [] then [] else ls[0] + "\n" + JoinLf(ls[1..])
  }

  /** No identifier produced by the split contains a line feed. */
  lemma {:induction false} LinesHaveNoNewline(s: string)
    ensures forall i :: 0 <= i < |Lines(s)| ==> NoNewline(Lines(s)[i])
    decreases |s|
  {
    if s != [] {
      var n := NewlineIndex(s);
      if n < |s| {
        LinesHaveNoNewline(s[n + 1..]);
        var head := StripCr(s[..n]);
        assert NoNewline(head);
      }
    }
  }

  /** Newlines are additive over concatenation. */
  lemma {:induction false} NewlinesAppend(a: string, b: string)
    ensures Newlines(a + b) == Newlines(a) + Newlines(b)
  {
    if a != [] {
      assert (a + b)[1..] == a[1..] + b;
      NewlinesAppend(a[1..], b);
    } else {
      assert a + b == b;
    }
  }

  /** A string with no line feed has no newlines to count. */
  lemma {:induction false} NoNewlineCountsZero(l: string)
    requires NoNewline(l)
    ensures Newlines(l) == 0
  {
    if l != [] {
      NoNewlineCountsZero(l[1..]);
    }
  }

  /**
   * There is one line per line feed, plus one for a final line that has no
   * terminator: a trailing terminator adds no empty line.
   */
  lemma {:induction false} LineCount(s: string)
    ensures |Lines(s)| == Newlines(s) + (if s != [] && s[|s| - 1] != '\n' then 1 else 0)
    decreases |s|
  {
    if s != [] {
      var n := NewlineIndex(s);
      if n == |s| {
        NoNewlineCountsZero(s);
      } else {
        var rest := s[n + 1..];
        assert s == s[..n] + [s[n]] + rest;
        NewlinesAppend(s[..n] + [s[n]], rest);
        NewlinesAppend(s[..n], [s[n]]);
        assert NoNewline(s[..n]);
        NoNewlineCountsZero(s[..n]);
        assert Newlines([s[n]]) == 1;
        LineCount(rest);
        if rest != [] {
          assert s[|s| - 1] == rest[|rest| - 1];
        }
      }
    }
  }

  /** The first line feed of `a + ['\n'] + b`, when `a` has none, is right after `a`. */
  lemma {:induction false} NewlineIndexAfter(a: string, b: string)
    requires NoNewline(a)
    ensures NewlineIndex(a + ['\n'] + b) == |a|
  {
    if a != [] {
      assert (a + ['\n'] + b)[1..] == a[1..] + ['\n'] + b;
      NewlineIndexAfter(a[1..], b);
    }
  }

  /** `s` is the text before position `n`, the character at `n`, and the rest. */
  lemma SplitAt(s: string, n: nat)
    requires n < |s|
    ensures s == s[..n] + [s[n]] + s[n + 1..]
  {
    assert s[n..] == [s[n]] + s[n + 1..];
    assert s[..n] + s[n..] == s;
  }

  /** A line without line feeds, a '\n', then more text: the first line, then the lines of the rest. */
  lemma LinesCons(a: string, b: string)
    requires NoNewline(a)
    ensures Lines(a + ['\n'] + b) == [StripCr(a)] + Lines(b)
  {
    var t := a + ['\n'] + b;
    NewlineIndexAfter(a, b);
    assert t[..|a|] == a;
    assert t[|a| + 1..] == b;
  }

  /** Splitting text written with "\r\n" terminators gives back the lines written. */
  lemma {:induction false} LinesOfJoinCrlf(ls: seq<string>)
    requires forall i :: 0 <= i < |ls| ==> NoNewline(ls[i])
    ensures Lines(JoinCrlf(ls)) == ls
  {
    if ls != [] {
      var a := ls[0] + "\r";
      assert JoinCrlf(ls) == a + ['\n'] + JoinCrlf(ls[1..]);
      assert NoNewline(a);
      LinesCons(a, JoinCrlf(ls[1..]));
      assert StripCr(a) == ls[0];
      assert forall i :: 0 <= i < |ls| - 1 ==> ls[1..][i] == ls[i + 1];
      LinesOfJoinCrlf(ls[1..]);
      assert ls == [ls[0]] + ls[1..];
    }
  }

  /**
   * Splitting text written with bare "\n" terminators gives back the lines
   * written, as long as no line itself ends with a carriage return.
   */
  lemma {:induction false} LinesOfJoinLf(ls: seq<string>)
    requires forall i :: 0 <= i < |ls| ==> NoNewline(ls[i])
    requires forall i :: 0 <= i < |ls| ==> ls[i] == [] || ls[i][|ls[i]| - 1] != '\r'
    ensures Lines(JoinLf(ls)) == ls
  {
    if ls != [] {
      var tail := ls[1..];
      var joined := JoinLf(tail);
      assert JoinLf(ls) == ls[0] + ['\n'] + joined;
      assert NoNewline(ls[0]);
      LinesCons(ls[0], joined);
      assert StripCr(ls[0]) == ls[0];
      assert forall i :: 0 <= i < |tail| ==> tail[i] == ls[i + 1];
      LinesOfJoinLf(tail);
      assert ls == [ls[0]] + tail;
    }
  }

  /** Text without a line feed and without a final '\r' is one line, with or without a final "\n". */
  lemma FinalTerminatorOneLine(s: string)
    requires s != [] && NoNewline(s) && s[|s| - 1] != '\r'
    ensures Lines(s + "\n") == [s] == Lines(s)
  {
    assert NewlineIndex(s) == |s|;
    LinesCons(s, []);
    assert s + "\n" == s + ['\n'] + [];
  }

  /** A first line in front of two texts with the same lines gives again texts with the same lines. */
  lemma FinalTerminatorAfterFirstLine(pre: string, rest: string)
    requires NoNewline(pre)
    requires Lines(rest + "\n") == Lines(rest)
    ensures Lines(pre + ['\n'] + rest + "\n") == Lines(pre + ['\n'] + rest)
  {
    assert pre + ['\n'] + rest + "\n" == pre + ['\n'] + (rest + "\n");
    LinesCons(pre, rest + "\n");
    LinesCons(pre, rest);
  }

  /**
   * A final "\n" after non-empty text that does not already end in a line
   * terminator or a carriage return changes nothing.
   */
  lemma {:induction false} FinalTerminatorOptional(s: string)
    requires s != [] && s[|s| - 1] != '\n' && s[|s| - 1] != '\r'
    ensures Lines(s + "\n") == Lines(s)
    decreases |s|
  {
    var n := NewlineIndex(s);
    if n == |s| {
      FinalTerminatorOneLine(s);
    } else {
      var pre, rest := s[..n], s[n + 1..];
      assert NoNewline(pre);
      SplitAt(s, n);
      assert s == pre + ['\n'] + rest;
      assert rest[|rest| - 1] == s[|s| - 1];
      FinalTerminatorOptional(rest);
      FinalTerminatorAfterFirstLine(pre, rest);
    }
  }
}
