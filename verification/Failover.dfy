/**
  The failover of a report: servers are tried one after the other, and what is left of the time
  budget is split over the servers still to try. The clock moves only inside an attempt, and an
  attempt ends by its deadline.
  */
module Failover {
  import opened Bytes

  /** One exchange: how long it would take, whether it is answered, whether the caller has given up by then. */
  datatype Attempt = Attempt(wants: nat, answered: bool, cancelled: bool)

  /** An attempt made: the slice it was given, and the time it took. */
  datatype Try = Try(slice: nat, used: nat)

  /** The attempts made with the time that remains. */
  function Tries(remaining: nat, attempts: seq<Attempt>): seq<Try> {
    if attempts == [] || remaining == 0 then []
    else
      var slice := remaining / |attempts|;
      var used := Min(attempts[0].wants, slice);
      SliceFits(remaining, |attempts|);
      [Try(slice, used)]
      + if attempts[0].answered || attempts[0].cancelled then [] else Tries(remaining - used, attempts[1..])
  }

  function Used(tries: seq<Try>): nat {
    if tries == [] then 0 else tries[0].used + Used(tries[1..])
  }

  function Slices(tries: seq<Try>): nat {
    if tries == [] then 0 else tries[0].slice + Slices(tries[1..])
  }

  /** The time the attempts but the last one left over. */
  function Unused(tries: seq<Try>): int {
    if |tries| <= 1 then 0 else tries[0].slice - tries[0].used + Unused(tries[1..])
  }

  lemma SliceFits(remaining: nat, n: nat)
    requires n > 0
    ensures n * (remaining / n) <= remaining && remaining / n <= remaining
    ensures n >= 2 && remaining > 0 ==> remaining / n < remaining
  {
    var q := remaining / n;
    assert remaining == n * q + remaining % n;
    Multiples(n, q);
  }

  lemma {:induction false} Multiples(n: nat, q: nat)
    requires n > 0
    ensures n * q >= q && (n >= 2 ==> n * q >= 2 * q)
  {
    if n > 1 {
      Multiples(n - 1, q);
      assert n * q == (n - 1) * q + q;
    }
  }

  /** What an attempt leaves is enough for every later server to get no smaller a slice. */
  lemma ShareGrows(remaining: nat, n: nat, used: nat)
    requires n >= 2 && used <= remaining / n
    ensures used <= remaining && (remaining - used) / (n - 1) >= remaining / n
  {
    var q := remaining / n;
    SliceFits(remaining, n);
    assert n * q == (n - 1) * q + q;
    AtLeast(remaining - used, n - 1, q);
  }

  lemma AtLeast(a: nat, d: nat, q: nat)
    requires d > 0 && a >= d * q
    ensures a / d >= q
  {
    var m := a / d;
    assert a == d * m + a % d;
    assert d * (m + 1) == d * m + d;
    Below(d, q, m + 1);
  }

  lemma {:induction false} Below(d: nat, x: nat, y: nat)
    requires d > 0
    ensures d * x < d * y ==> x < y
  {
    if x >= y {
      assert d * x == d * y + d * (x - y);
      Positive(d, x - y);
    }
  }

  lemma Positive(d: nat, k: nat)
    ensures d * k >= 0
  {
  }

  /** Every server tried gets at least its even share of the budget, and all attempts fit into it. */
  lemma {:induction false} EvenShare(remaining: nat, attempts: seq<Attempt>, k: nat)
    requires k < |Tries(remaining, attempts)|
    ensures |attempts| > 0 && Tries(remaining, attempts)[k].slice >= remaining / |attempts|
    decreases |attempts|
  {
    TriesUnfold(remaining, attempts);
    if k > 0 {
      var used := Min(attempts[0].wants, remaining / |attempts|);
      EvenShare(remaining - used, attempts[1..], k - 1);
      ShareGrows(remaining, |attempts|, used);
    }
  }

  /** The first attempt, and the rest of them with what it leaves. */
  lemma TriesUnfold(remaining: nat, attempts: seq<Attempt>)
    ensures remaining > 0 && attempts != [] ==> Tries(remaining, attempts) != []
    ensures var tries := Tries(remaining, attempts);
      tries != [] ==>
        && attempts != [] && remaining > 0
        && tries[0] == Try(remaining / |attempts|, Min(attempts[0].wants, remaining / |attempts|))
        && tries[0].used <= remaining && (|attempts| >= 2 ==> tries[0].used < remaining)
        && tries[1..] == if Ends(attempts[0]) then [] else Tries(remaining - tries[0].used, attempts[1..])
  {
    if attempts != [] {
      SliceFits(remaining, |attempts|);
    }
  }

  lemma {:induction false} FitsBudget(remaining: nat, attempts: seq<Attempt>)
    ensures Used(Tries(remaining, attempts)) <= remaining
    decreases |attempts|
  {
    TriesUnfold(remaining, attempts);
    if |Tries(remaining, attempts)| > 1 {
      FitsBudget(remaining - Tries(remaining, attempts)[0].used, attempts[1..]);
    }
  }

  predicate Ends(a: Attempt) { a.answered || a.cancelled }

  /**
    With any time at all no server is passed over: the tries end with an attempt that ends them,
    or with the last server.
    */
  lemma {:induction false} NoneSkipped(remaining: nat, attempts: seq<Attempt>)
    requires remaining > 0 && attempts != []
    ensures var tries := Tries(remaining, attempts);
      && 0 < |tries| <= |attempts|
      && (forall k :: 0 <= k < |tries| - 1 ==> !Ends(attempts[k]))
      && (|tries| == |attempts| || Ends(attempts[|tries| - 1]))
    decreases |attempts|
  {
    hide Ends;
    TriesUnfold(remaining, attempts);
    var tries := Tries(remaining, attempts);
    if !Ends(attempts[0]) && |attempts| > 1 {
      var more := Tries(remaining - tries[0].used, attempts[1..]);
      NoneSkipped(remaining - tries[0].used, attempts[1..]);
      assert tries == [tries[0]] + more;
      assert forall k :: 1 <= k < |tries| ==> attempts[k] == attempts[1..][k - 1];
    }
  }

  /** What the last slice left to later servers: the time that remained when its attempt began, less the slice. */
  function Spared(budget: nat, tries: seq<Try>): int {
    if tries == [] then budget
    else if |tries| == 1 then budget - tries[0].slice
    else if tries[0].used <= budget then Spared(budget - tries[0].used, tries[1..])
    else -1
  }

  /** No attempt but the last ended before its slice was used up. */
  predicate UsedUp(tries: seq<Try>) {
    forall k :: 0 <= k < |tries| - 1 ==> tries[k].used == tries[k].slice
  }

  lemma UsedUpTail(tries: seq<Try>)
    requires |tries| > 1
    ensures UsedUp(tries) <==> tries[0].used == tries[0].slice && UsedUp(tries[1..])
  {
    var more := tries[1..];
    if tries[0].used == tries[0].slice && UsedUp(more) {
      assert forall k :: 1 <= k < |tries| ==> tries[k] == more[k - 1];
    }
    if UsedUp(tries) {
      assert forall k :: 0 <= k < |more| - 1 ==> more[k] == tries[k + 1];
    }
  }

  /**
    However a call ends: all slices, and what the last one spared, are the budget and what the
    attempts before the last left over. So the slices fit exactly when no more was left over
    than was spared, and nothing is spared exactly when the last server is tried.
    */
  lemma {:induction false} SlicesAndSpared(budget: nat, attempts: seq<Attempt>)
    ensures var tries := Tries(budget, attempts);
      && Slices(tries) + Spared(budget, tries) == budget + Unused(tries)
      && (Slices(tries) <= budget <==> Unused(tries) <= Spared(budget, tries))
      && Unused(tries) >= 0 && (Unused(tries) == 0 <==> UsedUp(tries))
      && Spared(budget, tries) >= 0
      && (budget > 0 && attempts != [] ==> (Spared(budget, tries) == 0 <==> |tries| == |attempts|))
    decreases |attempts|
  {
    TriesUnfold(budget, attempts);
    var tries := Tries(budget, attempts);
    if |tries| == 1 {
      SliceFits(budget, |attempts|);
      assert tries[1..] == [];
    } else if |tries| > 1 {
      UsedUpTail(tries);
      SlicesAndSpared(budget - tries[0].used, attempts[1..]);
    }
  }

  /** With whole slices used up, the budget's share rounds up by one server after another. */
  lemma NextShare(budget: nat, n: nat, k: nat)
    requires n >= 2 && k <= n - 2
    ensures budget / n <= budget && (budget - budget / n + k) / (n - 1) == (budget + k + 1) / n
  {
    var q, r := budget / n, budget % n;
    SliceFits(budget, n);
    OneLess(n, q);
    assert budget == n * q + r;
    SameQuotient(budget - q + k, budget + k + 1, n - 1, q, r, k);
  }

  lemma OneLess(n: nat, q: nat)
    requires n >= 1
    ensures n * q == (n - 1) * q + q
  {
  }

  lemma SameQuotient(a: nat, b: nat, d: nat, q: nat, r: nat, k: nat)
    requires r <= d && k < d && a == d * q + r + k && b == (d + 1) * q + r + k + 1
    ensures a / d == b / (d + 1)
  {
    if r + k < d {
      Quotient(a, d, q, r + k);
      Quotient(b, d + 1, q, r + k + 1);
    } else {
      QuotientAndOne(a, d, q, r + k - d);
      QuotientAndOne(b, d + 1, q, r + k - d);
    }
  }

  lemma QuotientAndOne(a: nat, d: nat, q: nat, r: nat)
    requires r < d && a == d * q + (d + r)
    ensures a / d == q + 1
  {
    assert d * (q + 1) == d * q + d;
    Quotient(a, d, q + 1, r);
  }

  lemma Quotient(a: nat, d: nat, q: nat, r: nat)
    requires r < d && a == d * q + r
    ensures a / d == q
  {
    AtLeast(a, d, q);
    Below(d, a / d, q + 1);
    assert a == d * (a / d) + a % d;
    assert d * (q + 1) == d * q + d;
  }

  /** The answer to the first k attempts comes no earlier than their full slices. */
  predicate Wanting(budget: nat, attempts: seq<Attempt>, m: int)
    requires m <= |attempts|
  {
    forall k :: 0 <= k < m ==> attempts[k].wants >= (budget + k) / |attempts|
  }

  lemma WantingTail(budget: nat, attempts: seq<Attempt>, m: nat)
    requires 0 < m < |attempts| && |attempts| >= 2
    ensures budget / |attempts| <= budget
    ensures Wanting(budget, attempts, m)
      <==> attempts[0].wants >= budget / |attempts| && Wanting(budget - budget / |attempts|, attempts[1..], m - 1)
  {
    var n, rest := |attempts|, attempts[1..];
    SliceFits(budget, n);
    if attempts[0].wants >= budget / n && Wanting(budget - budget / n, rest, m - 1) {
      forall k | 0 <= k < m ensures attempts[k].wants >= (budget + k) / n {
        if k > 0 {
          NextShare(budget, n, k - 1);
          assert rest[k - 1].wants >= (budget - budget / n + (k - 1)) / (n - 1);
        }
      }
    }
    if Wanting(budget, attempts, m) {
      assert attempts[0].wants >= (budget + 0) / n;
      forall k | 0 <= k < m - 1 ensures rest[k].wants >= (budget - budget / n + k) / |rest| {
        NextShare(budget, n, k);
        assert attempts[k + 1].wants >= (budget + (k + 1)) / n;
      }
    }
  }

  /** Slice k is used up exactly when its attempt wants an n-th part of the budget and k, if the earlier ones are. */
  lemma {:induction false} FullSlices(budget: nat, attempts: seq<Attempt>)
    ensures var tries := Tries(budget, attempts);
      |tries| <= |attempts| && (UsedUp(tries) <==> Wanting(budget, attempts, |tries| - 1))
    decreases |attempts|
  {
    TriesUnfold(budget, attempts);
    var tries := Tries(budget, attempts);
    if |tries| > 1 {
      UsedUpTail(tries);
      FullSlices(budget - tries[0].used, attempts[1..]);
      WantingTail(budget, attempts, |tries| - 1);
    }
  }

  /** When no attempt ends the call, the slices fit into the budget exactly when the attempts want their shares. */
  lemma SlicesFitExactly(budget: nat, attempts: seq<Attempt>)
    requires forall k :: 0 <= k < |attempts| ==> !Ends(attempts[k])
    ensures Slices(Tries(budget, attempts)) <= budget
      <==> forall k :: 0 <= k < |attempts| - 1 ==> attempts[k].wants >= (budget + k) / |attempts|
  {
    SlicesAndSpared(budget, attempts);
    FullSlices(budget, attempts);
    if budget == 0 {
      forall k | 0 <= k < |attempts| - 1 ensures attempts[k].wants >= (budget + k) / |attempts| {
        Quotient(k, |attempts|, 0, k);
      }
    } else if attempts != [] {
      NoneSkipped(budget, attempts);
    }
  }

  /** In any call, attempts that want their shares leave slices that fit. */
  lemma SlicesFit(budget: nat, attempts: seq<Attempt>)
    requires forall k :: 0 <= k < |Tries(budget, attempts)| - 1 ==>
      k < |attempts| && attempts[k].wants >= (budget + k) / |attempts|
    ensures Slices(Tries(budget, attempts)) <= budget
  {
    SlicesAndSpared(budget, attempts);
    FullSlices(budget, attempts);
  }

  // ---- The attempts of a call that may end early ----------------------------------------

  /** The attempt that ends the call, or the last one. */
  function LastTried(attempts: seq<Attempt>): (m: nat)
    requires attempts != []
    ensures m < |attempts|
  {
    if |attempts| == 1 || Ends(attempts[0]) then 0 else 1 + LastTried(attempts[1..])
  }

  /** The time an attempt takes out of this budget, with so many servers to try. */
  function Takes(budget: nat, a: Attempt, n: nat): (used: nat)
    requires n > 0
    ensures used <= budget / n <= budget
  {
    SliceFits(budget, n);
    Min(a.wants, budget / n)
  }

  /** The time that remains when m attempts have been made. */
  function TimeAt(budget: nat, attempts: seq<Attempt>, m: nat): nat
    requires m <= |attempts|
  {
    if m == 0 then budget
    else TimeAt(budget - Takes(budget, attempts[0], |attempts|), attempts[1..], m - 1)
  }

  /** What the first m attempts leave of their shares. */
  function LeftOver(budget: nat, attempts: seq<Attempt>, m: nat): nat
    requires m <= |attempts|
  {
    if m == 0 then 0
    else
      var used := Takes(budget, attempts[0], |attempts|);
      budget / |attempts| - used + LeftOver(budget - used, attempts[1..], m - 1)
  }

  /** What attempt m's share leaves of the time before it. */
  function Beyond(budget: nat, attempts: seq<Attempt>, m: nat): int
    requires m < |attempts|
  {
    TimeAt(budget, attempts, m) - TimeAt(budget, attempts, m) / (|attempts| - m)
  }

  lemma {:induction false} NoTimeLeft(attempts: seq<Attempt>, m: nat)
    requires m < |attempts|
    ensures LeftOver(0, attempts, m) == 0 && Beyond(0, attempts, m) == 0
    decreases m
  {
    Quotient(0, |attempts|, 0, 0);
    if m > 0 {
      NoTimeLeft(attempts[1..], m - 1);
    }
  }

  /** The two sums of the tries, from the attempts. */
  lemma {:induction false} SumsOfTries(budget: nat, attempts: seq<Attempt>)
    requires budget > 0 && attempts != []
    ensures var tries, m := Tries(budget, attempts), LastTried(attempts);
      |tries| == m + 1 && Unused(tries) == LeftOver(budget, attempts, m) && Spared(budget, tries) == Beyond(budget, attempts, m)
    decreases |attempts|
  {
    hide Tries;
    TriesUnfold(budget, attempts);
    var tries := Tries(budget, attempts);
    if Ends(attempts[0]) {
      assert |tries[1..]| == 0;
    } else if |attempts| == 1 {
      NoServersLeft(budget - tries[0].used);
      assert attempts[1..] == [];
      assert |tries[1..]| == 0;
    } else {
      SumsOfTries(budget - tries[0].used, attempts[1..]);
    }
  }

  /**
    Any call, by its attempts: the slices fit exactly when what the attempts before the last leave
    of their shares is no more than what the last one's share leaves of the time before it.
    */
  lemma SlicesFitWhen(budget: nat, attempts: seq<Attempt>)
    requires attempts != []
    ensures var m := LastTried(attempts);
      Slices(Tries(budget, attempts)) <= budget <==> LeftOver(budget, attempts, m) <= Beyond(budget, attempts, m)
  {
    hide Tries, LeftOver, Beyond;
    SlicesAndSpared(budget, attempts);
    if budget == 0 {
      NoTime(attempts);
      NoTimeLeft(attempts, LastTried(attempts));
    } else {
      SumsOfTries(budget, attempts);
    }
  }

  /** An attempt that ends early, and an answer before the last server: the slices fit although time was left over. */
  lemma SparedCovers()
    ensures var attempts := [Attempt(0, false, false), Attempt(10, true, false), Attempt(0, false, false)];
      Slices(Tries(300, attempts)) == 250 && Unused(Tries(300, attempts)) == 100 && Spared(300, Tries(300, attempts)) == 150
  {
    var all := [Attempt(0, false, false), Attempt(10, true, false), Attempt(0, false, false)];
    assert all[1..] == [Attempt(10, true, false), Attempt(0, false, false)];
    assert Tries(300, all[1..]) == [Try(150, 10)];
    assert Tries(300, all) == [Try(100, 0), Try(150, 10)];
    assert [Try(100, 0), Try(150, 10)][1..] == [Try(150, 10)] && [Try(150, 10)][1..] == [];
    assert Slices([Try(150, 10)]) == 150;
  }

  /** Two servers and a first attempt that fails at once: the slices are more than the budget. */
  lemma SlicesExceed()
    ensures Slices(Tries(100, [Attempt(0, false, false), Attempt(100, false, false)])) == 150
  {
    var second := [Attempt(100, false, false)];
    var all := [Attempt(0, false, false)] + second;
    assert all[1..] == second && second[1..] == [];
    assert Tries(100, second) == [Try(100, 100)];
    assert Tries(100, all) == [Try(50, 0), Try(100, 100)];
    assert all == [Attempt(0, false, false), Attempt(100, false, false)];
    assert [Try(50, 0), Try(100, 100)][1..] == [Try(100, 100)] && [Try(100, 100)][1..] == [];
    assert Slices([Try(100, 100)]) == 100;
  }

  lemma {:induction false} UsedPush(tries: seq<Try>, x: Try)
    ensures Used(tries + [x]) == Used(tries) + x.used
  {
    if tries == [] {
      assert tries + [x] == [x];
    } else {
      assert (tries + [x])[1..] == tries[1..] + [x];
      UsedPush(tries[1..], x);
    }
  }

  /** One turn of the loop, seen from all the tries. */
  lemma TurnTries(done: seq<Try>, remaining: nat, attempts: seq<Attempt>, i: nat)
    requires i < |attempts| && remaining > 0
    ensures var slice := remaining / (|attempts| - i);
      var x := Try(slice, Min(attempts[i].wants, slice));
      && x.used <= remaining && Used(done + [x]) == Used(done) + x.used
      && done + Tries(remaining, attempts[i..])
         == done + [x] + if Ends(attempts[i]) then [] else Tries(remaining - x.used, attempts[i + 1..])
  {
    hide Tries, Used;
    TriesUnfold(remaining, attempts[i..]);
    var tries := Tries(remaining, attempts[i..]);
    assert attempts[i..][1..] == attempts[i + 1..] && |attempts[i..]| == |attempts| - i;
    assert tries == [tries[0]] + tries[1..];
    UsedPush(done, tries[0]);
  }

  datatype Outcome = Answered(server: nat) | Failed | NoServers

  /** The loop: every attempt ends by its own deadline, and no attempt's deadline is past the whole call's. */
  method Send(attempts: seq<Attempt>, start: int, deadline: int) returns (outcome: Outcome, tries: seq<Try>, now: int)
    ensures tries == Tries(if start < deadline then deadline - start else 0, attempts)
    ensures start <= now && now == start + Used(tries) && (start <= deadline ==> now <= deadline)
    ensures outcome.Answered? ==> outcome.server == |tries| - 1 && outcome.server < |attempts| && attempts[outcome.server].answered
    ensures forall k :: 0 <= k < |tries| - 1 ==> k < |attempts| && !attempts[k].answered
    ensures outcome == NoServers <==> tries == []
    ensures outcome == Failed <==> tries != [] && |tries| <= |attempts| && !attempts[|tries| - 1].answered
  {
    now, tries, outcome := start, [], NoServers;
    ghost var budget := if start < deadline then deadline - start else 0;
    hide Tries, Used;
    NoTries(budget, attempts);
    for i := 0 to |attempts|
      invariant |tries| == i && (i == 0 <==> outcome == NoServers) && (i > 0 ==> outcome == Failed)
      invariant start <= now && now == start + Used(tries) && (start <= deadline ==> now <= deadline)
      invariant Tries(budget, attempts) == tries + Tries(if now < deadline then deadline - now else 0, attempts[i..])
      invariant forall k :: 0 <= k < i ==> !attempts[k].answered
    {
      var remaining := deadline - now;
      if remaining <= 0 {
        NoTime(attempts[i..]);
        assert tries + [] == tries;
        return;
      }
      TurnTries(tries, remaining, attempts, i);
      var slice := remaining / (|attempts| - i);
      var used := Min(attempts[i].wants, slice);
      tries := tries + [Try(slice, used)];
      now := now + used;
      assert tries + [] == tries;
      if attempts[i].answered {
        return Answered(i), tries, now;
      }
      outcome := Failed;
      if attempts[i].cancelled {
        return;
      }
    }
    assert attempts[|attempts|..] == [] && tries + [] == tries;
    NoServersLeft(if now < deadline then deadline - now else 0);
  }

  lemma NoTries(remaining: nat, attempts: seq<Attempt>)
    ensures Used([]) == 0 && [] + Tries(remaining, attempts[0..]) == Tries(remaining, attempts)
  {
    assert attempts[0..] == attempts;
  }

  lemma NoTime(attempts: seq<Attempt>)
    ensures Tries(0, attempts) == []
  {
  }

  lemma NoServersLeft(remaining: nat)
    ensures Tries(remaining, []) == []
  {
  }
}
