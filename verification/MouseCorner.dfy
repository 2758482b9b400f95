/** The mouse-corner monitor: a counter of consecutive polls at the corner, against maximal runs. */
module MouseCorner {

  const CORNER_THRESHOLD := 20

  /** Length of the unbroken run of at-corner polls that ends just before position n. */
  function RunLength(polls: seq<bool>, n: nat): nat
    requires n <= |polls|
  {
    if n == 0 || !polls[n - 1] then 0 else 1 + RunLength(polls, n - 1)
  }

  /** The callback is due at poll i: the run that ends there is a positive multiple of 20 long. */
  predicate FiresAt(polls: seq<bool>, i: nat)
    requires i < |polls|
  {
    RunLength(polls, i + 1) > 0 && RunLength(polls, i + 1) % 20 == 0
  }

  lemma {:induction false} RunIsMaximal(polls: seq<bool>, n: nat)
    requires n <= |polls|
    ensures var k := RunLength(polls, n);
            && k <= n
            && (forall j :: n - k <= j < n ==> polls[j])
            && (k < n ==> !polls[n - k - 1])
  {
    if n > 0 && polls[n - 1] {
      RunIsMaximal(polls, n - 1);
    }
  }

  /** Lengths of the maximal runs of at-corner polls among the first n, one still open included. */
  function Runs(polls: seq<bool>, n: nat): seq<nat>
    requires n <= |polls|
  {
    if n == 0 then []
    else if !polls[n - 1] then Runs(polls, n - 1)
    else OneMore(Runs(polls, n - 1), RunLength(polls, n - 1) > 0)
  }

  /** The runs after one more poll at the corner, which continues the last run or begins a new one. */
  function OneMore(xs: seq<nat>, continues: bool): seq<nat> {
    if continues && xs != [] then xs[..|xs| - 1] + [xs[|xs| - 1] + 1] else xs + [1]
  }

  function Sum(xs: seq<nat>): nat {
    if xs == [] then 0 else Sum(xs[..|xs| - 1]) + xs[|xs| - 1]
  }

  /** The firings that some maximal runs amount to: one for every full 20 polls of each. */
  function Owed(xs: seq<nat>): nat {
    if xs == [] then 0 else Owed(xs[..|xs| - 1]) + xs[|xs| - 1] / 20
  }

  function Count(polls: seq<bool>, n: nat): nat
    requires n <= |polls|
  {
    if n == 0 then 0 else Count(polls, n - 1) + if polls[n - 1] then 1 else 0
  }

  function Firings(polls: seq<bool>, n: nat): nat
    requires n <= |polls|
  {
    if n == 0 then 0 else Firings(polls, n - 1) + if FiresAt(polls, n - 1) then 1 else 0
  }

  predicate Positive(xs: seq<nat>) {
    forall i :: 0 <= i < |xs| ==> xs[i] > 0
  }

  function Latest(xs: seq<nat>): nat {
    if xs == [] then 0 else xs[|xs| - 1]
  }

  lemma SumOfOneMore(xs: seq<nat>, continues: bool)
    ensures var ys := OneMore(xs, continues);
            && Sum(ys) == Sum(xs) + 1
            && Latest(ys) == (if continues then Latest(xs) + 1 else 1)
            && Owed(ys) == Owed(xs) + if Latest(ys) % CORNER_THRESHOLD == 0 then 1 else 0
  {
  }

  lemma OneMoreIsPositive(xs: seq<nat>, continues: bool)
    requires Positive(xs)
    ensures Positive(OneMore(xs, continues))
  {
  }

  /** The runs are positive, cover every at-corner poll, and the last one is the run in progress. */
  lemma {:induction false} RunsAreRuns(polls: seq<bool>, n: nat)
    requires n <= |polls|
    ensures Positive(Runs(polls, n))
    ensures Sum(Runs(polls, n)) == Count(polls, n)
    ensures RunLength(polls, n) > 0 ==> Latest(Runs(polls, n)) == RunLength(polls, n)
  {
    if n > 0 {
      RunsAreRuns(polls, n - 1);
      SumOfOneMore(Runs(polls, n - 1), RunLength(polls, n - 1) > 0);
      OneMoreIsPositive(Runs(polls, n - 1), RunLength(polls, n - 1) > 0);
    }
  }

  /** The number of firings is the sum over all maximal runs of their length divided by 20. */
  lemma {:induction false} FiringsAreOwed(polls: seq<bool>, n: nat)
    requires n <= |polls|
    ensures Firings(polls, n) == Owed(Runs(polls, n))
  {
    if n > 0 {
      FiringsAreOwed(polls, n - 1);
      RunsAreRuns(polls, n);
      if polls[n - 1] {
        SumOfOneMore(Runs(polls, n - 1), RunLength(polls, n - 1) > 0);
        assert Runs(polls, n) == OneMore(Runs(polls, n - 1), RunLength(polls, n - 1) > 0);
      }
    }
  }

  /** The monitor's loop over a stream of polls: it fires exactly where it is due, and as often as the
      maximal runs amount to. */
  method Run(polls: seq<bool>) returns (fired: seq<bool>)
    ensures |fired| == |polls|
    ensures forall i :: 0 <= i < |polls| ==> (fired[i] <==> FiresAt(polls, i))
    ensures Count(fired, |fired|) == Owed(Runs(polls, |polls|))
  {
    var consecutive := 0;
    fired := [];
    for i := 0 to |polls|
      invariant |fired| == i
      invariant consecutive == RunLength(polls, i) % CORNER_THRESHOLD
      invariant forall j :: 0 <= j < i ==> (fired[j] <==> FiresAt(polls, j))
    {
      var fire := false;
      if polls[i] {
        consecutive := consecutive + 1;
        if consecutive >= CORNER_THRESHOLD {
          fire := true;
          consecutive := 0;
        }
      } else {
        consecutive := 0;
      }
      fired := fired + [fire];
    }
    CountIsFirings(polls, fired, |polls|);
    FiringsAreOwed(polls, |polls|);
  }

  lemma {:induction false} CountIsFirings(polls: seq<bool>, fired: seq<bool>, n: nat)
    requires n <= |polls| == |fired|
    requires forall i :: 0 <= i < n ==> (fired[i] <==> FiresAt(polls, i))
    ensures Count(fired, n) == Firings(polls, n)
  {
    if n > 0 {
      CountIsFirings(polls, fired, n - 1);
    }
  }
}
