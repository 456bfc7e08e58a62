/** Reads over a primary and its replicas: a shuffled copy of the replicas is tried in
    turn and the primary last. */
module MultiDb {
  import opened Storage

  // ----- The shuffle -----

  function Swap<D>(s: seq<D>, i: nat, j: nat): seq<D>
    requires i < |s| && j < |s|
  {
    s[i := s[j]][j := s[i]]
  }

  /** One index j in [0, i] for every position i. */
  ghost predicate IsChoice(choice: seq<nat>, n: nat) {
    |choice| == n && forall i :: 0 <= i < n ==> choice[i] <= i
  }

  /** The shuffle from position `i` down. */
  function ShuffleFrom<D>(s: seq<D>, choice: seq<nat>, i: int): (r: seq<D>)
    requires IsChoice(choice, |s|) && i < |s|
    ensures |r| == |s|
    decreases i
  {
    if i <= 0 then s else ShuffleFrom(Swap(s, i, choice[i]), choice, i - 1)
  }

  function Shuffled<D>(s: seq<D>, choice: seq<nat>): seq<D>
    requires IsChoice(choice, |s|)
  {
    ShuffleFrom(s, choice, |s| - 1)
  }

  /** What the random source returns for each position; a failure leaves the position as it is. */
  ghost predicate IsDraw(draws: seq<Option<nat>>, n: nat) {
    |draws| == n && forall i :: 0 <= i < n && draws[i].Some? ==> draws[i].value <= i
  }

  function ChoiceOf(draws: seq<Option<nat>>): (choice: seq<nat>)
    ensures IsDraw(draws, |draws|) ==> IsChoice(choice, |draws|)
  {
    seq(|draws|, i requires 0 <= i < |draws| => if draws[i].Some? then draws[i].value else i)
  }

  method ShuffleReplicas<D>(replicas: array<D>, draws: seq<Option<nat>>)
    requires IsDraw(draws, replicas.Length)
    modifies replicas
    ensures replicas[..] == Shuffled(old(replicas[..]), ChoiceOf(draws))
  {
    var n := replicas.Length;
    ghost var choice := ChoiceOf(draws);
    var i := n - 1;
    while i > 0
      invariant -1 <= i < n
      invariant ShuffleFrom(replicas[..], choice, i) == Shuffled(old(replicas[..]), choice)
    {
      ghost var before := replicas[..];
      if draws[i].None? {
        assert Swap(before, i, i) == before;
        i := i - 1;
        continue;
      }
      var j := draws[i].value;
      replicas[i], replicas[j] := replicas[j], replicas[i];
      assert replicas[..] == Swap(before, i, j);
      i := i - 1;
    }
  }

  // ----- It permutes -----

  lemma SwapMultiset<D>(s: seq<D>, i: nat, j: nat)
    requires j <= i < |s|
    ensures multiset(Swap(s, i, j)) == multiset(s)
  {
  }

  lemma {:induction false} ShufflePermutes<D>(s: seq<D>, choice: seq<nat>, i: int)
    requires IsChoice(choice, |s|) && i < |s|
    ensures multiset(ShuffleFrom(s, choice, i)) == multiset(s)
    decreases i
  {
    if i > 0 {
      SwapMultiset(s, i, choice[i]);
      ShufflePermutes(Swap(s, i, choice[i]), choice, i - 1);
    }
  }

  // ----- Every order comes from exactly one choice -----

  ghost predicate Distinct<D>(s: seq<D>) {
    forall i, j :: 0 <= i < j < |s| ==> s[i] != s[j]
  }

  /** Positions above `i` are settled. */
  lemma {:induction false} Settled<D>(s: seq<D>, choice: seq<nat>, i: int, j: int)
    requires IsChoice(choice, |s|) && i < j < |s| && 0 <= j
    ensures ShuffleFrom(s, choice, i)[j] == s[j]
    decreases i
  {
    if i > 0 {
      Settled(Swap(s, i, choice[i]), choice, i - 1, j);
    }
  }

  /** Each position gets what its draw points at among those not yet settled. */
  lemma PositionIsChosen<D>(s: seq<D>, choice: seq<nat>, i: nat)
    requires IsChoice(choice, |s|) && 0 < i < |s|
    ensures ShuffleFrom(s, choice, i)[i] == s[choice[i]]
  {
    var t := Swap(s, i, choice[i]);
    assert t[i] == s[choice[i]];
    Settled(t, choice, i - 1, i);
  }

  lemma SwapDistinct<D>(s: seq<D>, i: nat, j: nat)
    requires j <= i < |s| && Distinct(s)
    ensures Distinct(Swap(s, i, j))
  {
  }

  lemma {:induction false} ShuffleInjectiveFrom<D>(s: seq<D>, c: seq<nat>, d: seq<nat>, i: int)
    requires IsChoice(c, |s|) && IsChoice(d, |s|) && i < |s| && Distinct(s)
    requires ShuffleFrom(s, c, i) == ShuffleFrom(s, d, i)
    ensures forall k :: 0 <= k <= i ==> c[k] == d[k]
    decreases i
  {
    if i > 0 {
      Settled(Swap(s, i, c[i]), c, i - 1, i);
      Settled(Swap(s, i, d[i]), d, i - 1, i);
      assert s[c[i]] == s[d[i]];
      SwapDistinct(s, i, c[i]);
      ShuffleInjectiveFrom(Swap(s, i, c[i]), c, d, i - 1);
    }
  }

  /** Different choices give different orders. */
  lemma ShuffleInjective<D>(s: seq<D>, c: seq<nat>, d: seq<nat>)
    requires IsChoice(c, |s|) && IsChoice(d, |s|) && Distinct(s)
    ensures Shuffled(s, c) == Shuffled(s, d) <==> c == d
  {
    if Shuffled(s, c) == Shuffled(s, d) {
      ShuffleInjectiveFrom(s, c, d, |s| - 1);
    }
  }

  /** What belongs at `i` is still at or below `i`. */
  lemma FindBelow<D>(s: seq<D>, p: seq<D>, i: nat) returns (j: nat)
    requires |s| == |p| && i < |s| && multiset(s) == multiset(p) && forall k :: i < k < |s| ==> s[k] == p[k]
    ensures j <= i && s[j] == p[i]
  {
    var front, front', back := s[..i + 1], p[..i + 1], s[i + 1..];
    assert back == p[i + 1..];
    assert s == front + back && p == front' + back;
    assert multiset(front + back)[p[i]] == multiset(front' + back)[p[i]];
    assert front'[i] == p[i];
    assert p[i] in s[..i + 1];
    j :| 0 <= j < |s[..i + 1]| && s[..i + 1][j] == p[i];
  }

  lemma AllSettled<D>(s: seq<D>, p: seq<D>, i: int)
    requires |s| == |p| && i <= 0 && i < |s| && multiset(s) == multiset(p)
    requires forall k :: 0 <= k < |s| && i < k ==> s[k] == p[k]
    ensures s == p
  {
    if i == 0 {
      var j := FindBelow(s, p, 0);
    }
  }

  /** The choices, from position `i` down, that lead from `s` to `p`. */
  lemma {:induction false} ShuffleReaches<D>(s: seq<D>, p: seq<D>, i: int) returns (choice: seq<nat>)
    requires |s| == |p| && i < |s| && multiset(s) == multiset(p)
    requires forall k :: 0 <= k < |s| && i < k ==> s[k] == p[k]
    ensures IsChoice(choice, |s|) && ShuffleFrom(s, choice, i) == p
    decreases i
  {
    if i <= 0 {
      choice := seq(|s|, k => 0);
      AllSettled(s, p, i);
    } else {
      var j := FindBelow(s, p, i);
      var t := Swap(s, i, j);
      SwapMultiset(s, i, j);
      assert forall k :: i - 1 < k < |t| ==> t[k] == p[k];
      var below := ShuffleReaches(t, p, i - 1);
      choice := PutChoice(t, below, i, j);
    }
  }

  lemma PutChoice<D>(t: seq<D>, below: seq<nat>, i: nat, j: nat) returns (choice: seq<nat>)
    requires IsChoice(below, |t|) && 0 < i < |t| && j <= i
    ensures IsChoice(choice, |t|) && choice[i] == j
    ensures ShuffleFrom(t, choice, i - 1) == ShuffleFrom(t, below, i - 1)
  {
    choice := below[i := j];
    SameBelow(t, below, choice, i - 1);
  }

  /** Only the choices at `i` and below matter from `i` down. */
  lemma {:induction false} SameBelow<D>(s: seq<D>, c: seq<nat>, d: seq<nat>, i: int)
    requires IsChoice(c, |s|) && IsChoice(d, |s|) && i < |s| && forall k :: 0 <= k <= i ==> c[k] == d[k]
    ensures ShuffleFrom(s, c, i) == ShuffleFrom(s, d, i)
    decreases i
  {
    if i > 0 {
      SameBelow(Swap(s, i, c[i]), c, d, i - 1);
    }
  }

  /** The choices and the orders of distinct replicas match one to one: each order is
      reached by a choice, and by no other. */
  lemma ShuffleBijective<D>(s: seq<D>, p: seq<D>) returns (choice: seq<nat>)
    requires Distinct(s) && multiset(p) == multiset(s)
    ensures IsChoice(choice, |s|) && Shuffled(s, choice) == p
    ensures forall d :: IsChoice(d, |s|) && Shuffled(s, d) == p ==> d == choice
  {
    assert |p| == |multiset(p)| == |multiset(s)| == |s|;
    choice := ShuffleReaches(s, p, |s| - 1);
    forall d | IsChoice(d, |s|) && Shuffled(s, d) == p ensures d == choice {
      ShuffleInjective(s, d, choice);
    }
  }

  // ----- Failover -----

  class MultiDB<D(==)> {
    const primary: D
    const replicas: array<D>

    constructor (primary: D, replicas: array<D>)
      ensures this.primary == primary && this.replicas == replicas
    {
      this.primary, this.replicas := primary, replicas;
    }

    /** `ask` is what each database answers, None for an error. The databases asked are
        a prefix of the shuffled replicas followed by the primary; all but the last fail,
        the last one's answer is the result, and it is an error only if none is left. */
    method ReadQuery<R>(ask: D -> Option<R>, draws: seq<Option<nat>>) returns (answer: Option<R>, tried: seq<D>)
      requires IsDraw(draws, replicas.Length)
      ensures tried <= Shuffled(replicas[..], ChoiceOf(draws)) + [primary] && tried != []
      ensures forall i :: 0 <= i < |tried| - 1 ==> ask(tried[i]).None?
      ensures answer == ask(tried[|tried| - 1])
      ensures |tried| == replicas.Length + 1 <==> forall i :: 0 <= i < replicas.Length ==> ask(replicas[i]).None?
      ensures answer.None? <==> ask(primary).None? && forall i :: 0 <= i < replicas.Length ==> ask(replicas[i]).None?
    {
      var copied := new D[replicas.Length](i requires 0 <= i < replicas.Length reads replicas => replicas[i]);
      assert copied[..] == replicas[..];
      ShuffleReplicas(copied, draws);
      ghost var order := Shuffled(replicas[..], ChoiceOf(draws));
      ShufflePermutes(replicas[..], ChoiceOf(draws), replicas.Length - 1);
      SameFailures(replicas[..], order, ask);
      assert AllFail(replicas[..], ask) <==> forall i :: 0 <= i < replicas.Length ==> ask(replicas[i]).None?;
      tried := [];
      for k := 0 to copied.Length
        invariant tried == order[..k]
        invariant forall i :: 0 <= i < k ==> ask(order[i]).None?
      {
        assert copied[..][k] == order[k];
        tried := tried + [copied[k]];
        answer := ask(copied[k]);
        if answer.Some? {
          return;
        }
      }
      assert AllFail(order, ask);
      tried := tried + [primary];
      answer := ask(primary);
    }
  }

  ghost predicate AllFail<D, R>(s: seq<D>, ask: D -> Option<R>) {
    forall i :: 0 <= i < |s| ==> ask(s[i]).None?
  }

  lemma SameFailures<D, R>(s: seq<D>, p: seq<D>, ask: D -> Option<R>)
    requires multiset(s) == multiset(p)
    ensures AllFail(s, ask) <==> AllFail(p, ask)
  {
    SameMembers(s, p);
    assert AllFail(s, ask) <==> forall x :: x in s ==> ask(x).None?;
    assert AllFail(p, ask) <==> forall x :: x in p ==> ask(x).None?;
  }

  lemma SameMembers<D>(s: seq<D>, p: seq<D>)
    requires multiset(s) == multiset(p)
    ensures forall x :: x in s <==> x in p
  {
    forall x ensures x in s <==> x in p {
      assert x in s <==> x in multiset(s);
      assert x in p <==> x in multiset(p);
    }
  }
}
