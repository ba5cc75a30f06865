/**
 * How a loop of `exec` calls drives a JavaScript regular expression that
 * carries the `g` flag: each call finds the leftmost match at or after
 * `lastIndex`, and `lastIndex` moves to the end of that match; the loop stops
 * at the first call that finds nothing.
 *
 * The pattern is a parameter here: a matcher that, tried at one index of the
 * text, reports the match that starts exactly there, if any.
 */
module RegexScan {
  import opened Wrappers

  /** One match: where it starts, its capture groups, and the index just past it. */
  datatype Match<G> = Match(start: nat, groups: G, end: nat)

  /** A pattern tried at one index of a text. */
  type Matcher<G> = (string, nat) -> Option<Match<G>>

  /** Every match the matcher reports starts where it was tried, is not empty, and ends inside the text. */
  ghost predicate Anchored<G>(M: Matcher<G>) {
    forall text: string, p: nat :: M(text, p).Some? ==>
      M(text, p).value.start == p && p < M(text, p).value.end <= |text|
  }

  /** No index of `[a, b)` (up to the end of the text) starts a match. */
  ghost predicate NoMatchIn<G>(M: Matcher<G>, text: string, a: nat, b: nat) {
    forall q: nat :: a <= q < b && q <= |text| ==> M(text, q).None?
  }

  /**
   * One `exec` call from `lastIndex == from`: the match at the lowest index
   * at or after `from`, or none.
   */
  function Exec<G>(M: Matcher<G>, text: string, from: nat): Option<Match<G>>
    requires from <= |text|
    decreases |text| - from
  {
    var here := M(text, from);
    if here.Some? then here
    else if from == |text| then None
    else Exec(M, text, from + 1)
  }

  /** `exec` finds the leftmost match at or after `from`, and reports none only when there is none. */
  lemma {:induction false} ExecSpec<G>(M: Matcher<G>, text: string, from: nat)
    requires Anchored(M) && from <= |text|
    ensures var r := Exec(M, text, from);
            && (r.Some? ==> from <= r.value.start <= |text| && M(text, r.value.start) == r)
            && (r.Some? ==> NoMatchIn(M, text, from, r.value.start))
            && (r.None? ==> NoMatchIn(M, text, from, |text| + 1))
    decreases |text| - from
  {
    if M(text, from).None? && from < |text| {
      ExecSpec(M, text, from + 1);
    }
  }

  /** `exec` passes over a stretch where no match starts. */
  lemma {:induction false} ExecSkip<G>(M: Matcher<G>, text: string, from: nat, to: nat)
    requires from <= to <= |text| && NoMatchIn(M, text, from, to)
    ensures Exec(M, text, from) == Exec(M, text, to)
    decreases |text| - from
  {
    if from < to {
      ExecSkip(M, text, from + 1, to);
    }
  }

  /** Where the i-th stretch of text between matches begins. */
  function GapStart<G>(from: nat, ms: seq<Match<G>>, i: nat): nat
    requires i <= |ms|
  {
    if i == 0 then from else ms[i - 1].end
  }

  /** Where the i-th stretch of text between matches ends (exclusive). */
  function GapEnd<G>(text: string, ms: seq<Match<G>>, i: nat): nat
    requires i <= |ms|
  {
    if i == |ms| then |text| + 1 else ms[i].start
  }

  /** Every entry of `ms` is a match at its own start, at or after the end of the entry before. */
  ghost predicate AllMatch<G>(M: Matcher<G>, text: string, from: nat, ms: seq<Match<G>>) {
    forall i :: 0 <= i < |ms| ==>
      GapStart(from, ms, i) <= ms[i].start <= |text| && M(text, ms[i].start) == Some(ms[i])
  }

  /** No index between the entries of `ms`, nor before the first, nor after the last, starts a match. */
  ghost predicate GapsClear<G>(M: Matcher<G>, text: string, from: nat, ms: seq<Match<G>>) {
    forall i :: 0 <= i <= |ms| ==> NoMatchIn(M, text, GapStart(from, ms, i), GapEnd(text, ms, i))
  }

  /**
   * `ms` is what a left-to-right scan from `from` finds: the matches, in
   * order, none overlapping the one before, with nothing skipped between them.
   */
  ghost predicate IsScan<G>(M: Matcher<G>, text: string, from: nat, ms: seq<Match<G>>) {
    AllMatch(M, text, from, ms) && GapsClear(M, text, from, ms)
  }

  lemma AllMatchCons<G>(M: Matcher<G>, text: string, from: nat, m: Match<G>, rest: seq<Match<G>>)
    requires from <= m.start <= |text| && M(text, m.start) == Some(m)
    requires AllMatch(M, text, m.end, rest)
    ensures AllMatch(M, text, from, [m] + rest)
  {
    var ms := [m] + rest;
    forall i | 0 < i < |ms|
      ensures GapStart(from, ms, i) <= ms[i].start <= |text| && M(text, ms[i].start) == Some(ms[i])
    {
      assert ms[i] == rest[i - 1];
      assert GapStart(from, ms, i) == GapStart(m.end, rest, i - 1);
    }
  }

  lemma GapsClearCons<G>(M: Matcher<G>, text: string, from: nat, m: Match<G>, rest: seq<Match<G>>)
    requires NoMatchIn(M, text, from, m.start)
    requires GapsClear(M, text, m.end, rest)
    ensures GapsClear(M, text, from, [m] + rest)
  {
    var ms := [m] + rest;
    forall i | 0 <= i <= |ms|
      ensures NoMatchIn(M, text, GapStart(from, ms, i), GapEnd(text, ms, i))
    {
      if i > 0 {
        assert GapStart(from, ms, i) == GapStart(m.end, rest, i - 1);
        assert GapEnd(text, ms, i) == GapEnd(text, rest, i - 1);
        assert NoMatchIn(M, text, GapStart(m.end, rest, i - 1), GapEnd(text, rest, i - 1));
      }
    }
  }

  lemma AllMatchTail<G>(M: Matcher<G>, text: string, from: nat, ms: seq<Match<G>>)
    requires AllMatch(M, text, from, ms) && ms != []
    ensures AllMatch(M, text, ms[0].end, ms[1..])
  {
    var rest := ms[1..];
    forall i | 0 <= i < |rest|
      ensures GapStart(ms[0].end, rest, i) <= rest[i].start <= |text|
      ensures M(text, rest[i].start) == Some(rest[i])
    {
      assert rest[i] == ms[i + 1];
      assert GapStart(ms[0].end, rest, i) == GapStart(from, ms, i + 1);
    }
  }

  lemma GapsClearTail<G>(M: Matcher<G>, text: string, from: nat, ms: seq<Match<G>>)
    requires GapsClear(M, text, from, ms) && ms != []
    ensures GapsClear(M, text, ms[0].end, ms[1..])
  {
    var rest := ms[1..];
    forall i | 0 <= i <= |rest|
      ensures NoMatchIn(M, text, GapStart(ms[0].end, rest, i), GapEnd(text, rest, i))
    {
      assert GapStart(ms[0].end, rest, i) == GapStart(from, ms, i + 1);
      assert GapEnd(text, rest, i) == GapEnd(text, ms, i + 1);
      assert NoMatchIn(M, text, GapStart(from, ms, i + 1), GapEnd(text, ms, i + 1));
    }
  }

  /**
   * Every match the `exec` loop sees when it starts with `lastIndex == from`,
   * in the order it sees them.
   */
  function Scan<G>(M: Matcher<G>, text: string, from: nat): seq<Match<G>>
    requires Anchored(M) && from <= |text|
    decreases |text| - from
  {
    var r := Exec(M, text, from);
    if r.None? then []
    else
      ExecSpec(M, text, from);
      [r.value] + Scan(M, text, r.value.end)
  }

  /** `exec` from `from` returns the match at `p` when none starts before it. */
  lemma ExecFirst<G>(M: Matcher<G>, text: string, from: nat, p: nat, m: Match<G>)
    requires from <= p <= |text| && NoMatchIn(M, text, from, p) && M(text, p) == Some(m)
    ensures Exec(M, text, from) == Some(m)
  {
    ExecSkip(M, text, from, p);
  }

  /** When `exec` finds `m`, the loop records `m` and goes on from its end. */
  lemma ScanCons<G>(M: Matcher<G>, text: string, from: nat, m: Match<G>)
    requires Anchored(M) && from <= |text| && Exec(M, text, from) == Some(m)
    ensures m.end <= |text| && Scan(M, text, from) == [m] + Scan(M, text, m.end)
  {
    ExecSpec(M, text, from);
  }

  /**
   * `ms` is what successive `exec` calls return from `from` on: the call
   * from where the previous match ended (from `from`, for the first) returns
   * the next match, and the call after the last returns none.
   */
  ghost predicate ExecChain<G>(M: Matcher<G>, text: string, from: nat, ms: seq<Match<G>>) {
    && (forall i :: 0 <= i <= |ms| ==> GapStart(from, ms, i) <= |text|)
    && (forall i :: 0 <= i < |ms| ==> Exec(M, text, GapStart(from, ms, i)) == Some(ms[i]))
    && Exec(M, text, GapStart(from, ms, |ms|)).None?
  }

  /** The chain after its first match is the chain from that match's end. */
  lemma ExecChainTail<G>(M: Matcher<G>, text: string, from: nat, ms: seq<Match<G>>)
    requires ExecChain(M, text, from, ms) && ms != []
    ensures ExecChain(M, text, ms[0].end, ms[1..])
  {
    var rest := ms[1..];
    forall i | 0 <= i <= |rest|
      ensures GapStart(ms[0].end, rest, i) == GapStart(from, ms, i + 1)
    {
      if i > 0 {
        assert rest[i - 1] == ms[i];
      }
    }
    forall i | 0 <= i < |rest|
      ensures Exec(M, text, GapStart(ms[0].end, rest, i)) == Some(rest[i])
    {
      assert rest[i] == ms[i + 1];
    }
  }

  /** The loop records exactly the matches of a chain of `exec` calls. */
  lemma {:induction false} ScanChain<G>(M: Matcher<G>, text: string, from: nat, ms: seq<Match<G>>)
    requires Anchored(M) && ExecChain(M, text, from, ms)
    ensures from <= |text| && Scan(M, text, from) == ms
    decreases |ms|
  {
    assert GapStart(from, ms, 0) == from;
    if ms != [] {
      ScanCons(M, text, from, ms[0]);
      ExecChainTail(M, text, from, ms);
      ScanChain(M, text, ms[0].end, ms[1..]);
      assert ms == [ms[0]] + ms[1..];
    }
  }

  /** The `exec` loop finds the matches in order, none overlapping the one before, with none skipped. */
  lemma {:induction false} ScanSpec<G>(M: Matcher<G>, text: string, from: nat)
    requires Anchored(M) && from <= |text|
    ensures IsScan(M, text, from, Scan(M, text, from))
    decreases |text| - from
  {
    ExecSpec(M, text, from);
    var r := Exec(M, text, from);
    if r.Some? {
      var m := r.value;
      ScanSpec(M, text, m.end);
      var rest := Scan(M, text, m.end);
      AllMatchCons(M, text, from, m, rest);
      GapsClearCons(M, text, from, m, rest);
    }
  }

  /** Two scans from the same index that are not both empty find their first match at the same index. */
  lemma ScanHead<G>(M: Matcher<G>, text: string, from: nat, a: seq<Match<G>>, b: seq<Match<G>>)
    requires IsScan(M, text, from, a) && IsScan(M, text, from, b) && a != []
    ensures b != [] && b[0] == a[0]
  {
    assert GapStart(from, a, 0) <= a[0].start <= |text| && M(text, a[0].start) == Some(a[0]);
    assert NoMatchIn(M, text, GapStart(from, b, 0), GapEnd(text, b, 0));
    assert b != [];
    assert GapStart(from, b, 0) <= b[0].start && M(text, b[0].start) == Some(b[0]);
    assert NoMatchIn(M, text, GapStart(from, a, 0), GapEnd(text, a, 0));
  }

  /** IsScan pins the scan down: two sequences that both satisfy it are equal. */
  lemma {:induction false} ScanUnique<G>(M: Matcher<G>, text: string, from: nat, a: seq<Match<G>>, b: seq<Match<G>>)
    requires IsScan(M, text, from, a) && IsScan(M, text, from, b)
    ensures a == b
    decreases |a|
  {
    if a != [] {
      ScanHead(M, text, from, a, b);
      assert IsScan(M, text, a[0].end, a[1..]) by {
        AllMatchTail(M, text, from, a);
        GapsClearTail(M, text, from, a);
      }
      assert IsScan(M, text, b[0].end, b[1..]) by {
        AllMatchTail(M, text, from, b);
        GapsClearTail(M, text, from, b);
      }
      ScanUnique(M, text, a[0].end, a[1..], b[1..]);
      assert a == [a[0]] + a[1..] && b == [b[0]] + b[1..];
    } else if b != [] {
      ScanHead(M, text, from, b, a);
    }
  }

  /** The scan finds nothing exactly when no index from `from` on starts a match. */
  lemma ScanEmpty<G>(M: Matcher<G>, text: string, from: nat)
    requires Anchored(M) && from <= |text|
    ensures Scan(M, text, from) == [] <==> NoMatchIn(M, text, from, |text| + 1)
  {
    var ms := Scan(M, text, from);
    ScanSpec(M, text, from);
    if ms != [] {
      assert GapStart(from, ms, 0) <= ms[0].start <= |text| && M(text, ms[0].start).Some?;
    } else {
      assert NoMatchIn(M, text, GapStart(from, ms, 0), GapEnd(text, ms, 0));
    }
  }
}
