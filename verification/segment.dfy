/** appendSegment (bus.cpp:29-51): splice the stretch of one line between two stations onto a
    station sequence, never repeating the station the sequence already ends with; and the
    in-place reversal loops of solveMinTransfers (bus.cpp:124-129). */
module Segment {
  import opened Wrappers
  import opened SeqUtil

  /** The scan of bus.cpp:31-34 from position i on, `pos` holding the last match before i: a
      later match overwrites an earlier one, so the scan ends on the last occurrence. */
  function ScanLast(s: seq<int>, x: int, i: nat, pos: int): (r: int)
    requires i <= |s| && -1 <= pos < i
    requires pos != -1 ==> s[pos] == x
    requires forall j :: pos < j < i ==> s[j] != x
    ensures -1 <= r < |s|
    ensures r == -1 <==> x !in s
    ensures r != -1 ==> s[r] == x && forall j :: r < j < |s| ==> s[j] != x
    decreases |s| - i
  {
    if i == |s| then pos
    else ScanLast(s, x, i + 1, if s[i] == x then i else pos)
  }

  /** Index of the last occurrence of x in s, or -1 when x does not occur. */
  function LastIndex(s: seq<int>, x: int): (r: int)
    ensures -1 <= r < |s|
    ensures r == -1 <==> x !in s
    ensures r != -1 ==> s[r] == x && forall j :: r < j < |s| ==> s[j] != x
  {
    ScanLast(s, x, 0, -1)
  }

  /** No station follows itself. */
  predicate NoStutter(s: seq<int>) {
    forall k :: 0 < k < |s| ==> s[k - 1] != s[k]
  }

  /** Removing every element equal to its predecessor. */
  function Squash(s: seq<int>): (r: seq<int>)
  {
    if |s| <= 1 then s
    else if s[0] == s[1] then Squash(s[1..])
    else [s[0]] + Squash(s[1..])
  }

  /** The loop body of bus.cpp:39-41 and 45-47: push sid unless it equals the last element. */
  function Push(out: seq<int>, sid: int): (r: seq<int>)
    ensures |r| > 0 && r[|r| - 1] == sid
    ensures r == out || r == out + [sid]
    ensures r == out <==> (|out| > 0 && out[|out| - 1] == sid)
  {
    if |out| > 0 && out[|out| - 1] == sid then out else out + [sid]
  }

  /** Pushing the stations of xs one after another. */
  function AppendAll(out: seq<int>, xs: seq<int>): (r: seq<int>)
    ensures out <= r
    ensures |xs| > 0 ==> |r| > 0 && r[|r| - 1] == xs[|xs| - 1]
    ensures NoStutter(out) ==> NoStutter(r)
    decreases |xs|
  {
    if |xs| == 0 then out else AppendAll(Push(out, xs[0]), xs[1..])
  }

  /** Pushing xs and then x is pushing xs + [x]. */
  lemma {:induction false} AppendAllSnoc(out: seq<int>, xs: seq<int>, x: int)
    ensures AppendAll(out, xs + [x]) == Push(AppendAll(out, xs), x)
    decreases |xs|
  {
    if |xs| == 0 {
      assert xs + [x] == [x];
    } else {
      assert (xs + [x])[1..] == xs[1..] + [x];
      AppendAllSnoc(Push(out, xs[0]), xs[1..], x);
    }
  }

  /** Pushing xs and then ys is pushing xs + ys. */
  lemma {:induction false} AppendAllConcat(out: seq<int>, xs: seq<int>, ys: seq<int>)
    ensures AppendAll(AppendAll(out, xs), ys) == AppendAll(out, xs + ys)
    decreases |xs|
  {
    if |xs| == 0 {
      assert xs + ys == ys;
    } else {
      assert (xs + ys)[0] == xs[0] && (xs + ys)[1..] == xs[1..] + ys;
      AppendAllConcat(Push(out, xs[0]), xs[1..], ys);
    }
  }

  /** Pushing keeps the first element, or starts with the first pushed one. */
  lemma {:induction false} AppendAllHead(out: seq<int>, xs: seq<int>)
    requires |out| > 0 || |xs| > 0
    ensures |AppendAll(out, xs)| > 0
    ensures AppendAll(out, xs)[0] == if |out| > 0 then out[0] else xs[0]
    decreases |xs|
  {
    if |xs| > 0 {
      AppendAllHead(Push(out, xs[0]), xs[1..]);
    }
  }

  /** Positions from..to of the line, inclusive, read forwards when from <= to and backwards
      otherwise (bus.cpp:37-49). */
  function Stretch(line: seq<int>, from: nat, to: nat): (r: seq<int>)
    requires from < |line| && to < |line|
    ensures from <= to ==> |r| == to - from + 1 && forall k :: 0 <= k < |r| ==> r[k] == line[from + k]
    ensures to < from ==> |r| == from - to + 1 && forall k :: 0 <= k < |r| ==> r[k] == line[from - k]
  {
    if from <= to then line[from..to + 1] else Reverse(line[to..from + 1])
  }

  /** appendSegment: (false, out) when either station is missing from the line; otherwise
      true and out extended by the stretch between the last occurrences of the two stations,
      with a repeated station pushed only once. */
  function AppendSegment(line: seq<int>, from: int, to: int, out: seq<int>): (r: (bool, seq<int>))
    ensures r.0 <==> from in line && to in line
    ensures !r.0 ==> r.1 == out
    ensures r.0 ==> out <= r.1 && |r.1| > 0 && r.1[|r.1| - 1] == to
    ensures r.0 && NoStutter(out) ==> NoStutter(r.1)
  {
    var posFrom := LastIndex(line, from);
    var posTo := LastIndex(line, to);
    if posFrom == -1 || posTo == -1 then (false, out)
    else (true, AppendAll(out, Stretch(line, posFrom, posTo)))
  }

  /** On a sequence without repeats, appendSegment appends the stretch between the last
      occurrences of the two stations and squashes the joint. */
  lemma AppendSegmentSquashes(line: seq<int>, from: int, to: int, out: seq<int>)
    requires from in line && to in line && NoStutter(out)
    ensures AppendSegment(line, from, to, out).1
      == Squash(out + Stretch(line, LastIndex(line, from), LastIndex(line, to)))
  {
    AppendAllSquashes(out, Stretch(line, LastIndex(line, from), LastIndex(line, to)));
  }

  /** A doubled element squashes like a single one. */
  lemma {:induction false} SquashDouble(p: seq<int>, a: int, q: seq<int>)
    ensures Squash(p + [a, a] + q) == Squash(p + [a] + q)
  {
    if |p| == 0 {
      assert p + [a, a] + q == [a] + ([a] + q);
      assert ([a] + ([a] + q))[1..] == [a] + q;
      assert p + [a] + q == [a] + q;
    } else {
      var s1, s2 := p + [a, a] + q, p + [a] + q;
      assert s1[1..] == p[1..] + [a, a] + q;
      assert s2[1..] == p[1..] + [a] + q;
      SquashDouble(p[1..], a, q);
      assert s1[0] == s2[0] && |s1| >= 2 && |s2| >= 2;
      if |p| == 1 {
        assert s1[1] == a && s2[1] == a;
      } else {
        assert s1[1] == p[1] && s2[1] == p[1];
      }
    }
  }

  /** A sequence without repeats squashes to itself. */
  lemma {:induction false} SquashNoStutter(s: seq<int>)
    requires NoStutter(s)
    ensures Squash(s) == s
  {
    if |s| > 1 {
      assert NoStutter(s[1..]);
      SquashNoStutter(s[1..]);
      assert s == [s[0]] + s[1..];
    }
  }

  /** Pushing stations one by one onto a sequence without repeats yields the squashed
      concatenation. */
  lemma {:induction false} AppendAllSquashes(out: seq<int>, xs: seq<int>)
    ensures NoStutter(out) ==> AppendAll(out, xs) == Squash(out + xs)
    decreases |xs|
  {
    if !NoStutter(out) {
    } else if |xs| == 0 {
      assert out + xs == out;
      SquashNoStutter(out);
    } else {
      var x, rest := xs[0], xs[1..];
      assert xs == [x] + rest;
      AppendAllSquashes(Push(out, x), rest);
      PushSquash(out, x, rest);
    }
  }

  /** Squashing after a push is squashing the unpushed sequence. */
  lemma PushSquash(out: seq<int>, x: int, rest: seq<int>)
    ensures Squash(Push(out, x) + rest) == Squash(out + ([x] + rest))
  {
    if Push(out, x) == out + [x] {
      assert out + ([x] + rest) == Push(out, x) + rest;
    } else {
      var p := out[..|out| - 1];
      assert out == p + [x];
      assert out + ([x] + rest) == p + [x, x] + rest;
      assert Push(out, x) + rest == p + [x] + rest;
      SquashDouble(p, x, rest);
    }
  }

  /** The largest `size_t`, the value of `size() - 1` on an empty vector. */
  const SizeMax: int := 0xffff_ffff_ffff_ffff

  /** The swap loop of bus.cpp:124-129 from indices i and j: swap s[i] and s[j] while i < j.
      An index outside the vector is undefined behaviour, modelled as None. */
  function SwapLoop(s: seq<int>, i: int, j: int): (r: Option<seq<int>>)
    decreases j - i
  {
    if !(i < j) then Some(s)
    else if !(0 <= i < |s| && 0 <= j < |s|) then None
    else SwapLoop(s[i := s[j]][j := s[i]], i + 1, j - 1)
  }

  /** The reversal exactly as written: `j` starts at `size() - 1` in unsigned arithmetic. */
  function ReverseAsWritten(s: seq<int>): Option<seq<int>> {
    SwapLoop(s, 0, (|s| - 1) % (SizeMax + 1))
  }

  /** With no transfer station (a route on a single line), `size() - 1` wraps around and the
      first swap indexes the empty vector. */
  lemma ReverseAsWrittenEmpty()
    ensures ReverseAsWritten([]) == None
  {
    assert (0 - 1) % (SizeMax + 1) == SizeMax;
  }

  /** On a non-empty vector the loop does reverse it. */
  lemma ReverseAsWrittenNonEmpty(s: seq<int>)
    requires 0 < |s| <= SizeMax
    ensures ReverseAsWritten(s) == Some(Reverse(s))
  {
    assert (|s| - 1) % (SizeMax + 1) == |s| - 1;
    SwapLoopReverses(s, s, 0, |s| - 1);
  }

  /** The reversal with the guard evidently intended: an empty vector is left as it is, and
      the loop reverses any other. */
  function ReverseGuarded(s: seq<int>): (r: Option<seq<int>>)
    ensures r == Some(Reverse(s))
  {
    if |s| == 0 then Some(s)
    else
      SwapLoopReverses(s, s, 0, |s| - 1);
      SwapLoop(s, 0, |s| - 1)
  }

  /** Invariant of the swap loop: outside [i, j] the vector is already reversed, inside it is
      untouched. */
  lemma {:induction false} SwapLoopReverses(s0: seq<int>, s: seq<int>, i: int, j: int)
    requires |s| == |s0| && 0 <= i && i + j == |s0| - 1
    requires forall k :: 0 <= k < |s| && (k < i || j < k) ==> s[k] == s0[|s0| - 1 - k]
    requires forall k :: i <= k <= j && 0 <= k < |s| ==> s[k] == s0[k]
    ensures SwapLoop(s, i, j) == Some(Reverse(s0))
    decreases j - i
  {
    if i < j {
      var s' := s[i := s[j]][j := s[i]];
      SwapLoopReverses(s0, s', i + 1, j - 1);
    } else {
      assert s == Reverse(s0);
    }
  }
}
