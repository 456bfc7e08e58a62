/** The resource version counter: a uint64 behind a mutex, handed out as decimal text. */
module Versioning {
  import opened Storage
  import opened Decimal

  const MAX_VERSION := TWO_TO_THE_64 - 1

  /** The addition wraps at 64 bits. */
  function AfterUse(version: nat): nat {
    (version + 1) % TWO_TO_THE_64
  }

  function AfterSet(version: nat, val: string): nat {
    var number := ParseUint(val);
    if number.Some? && number.value > version then number.value else version
  }

  class ResourceVersion {
    var version: nat

    ghost predicate Valid()
      reads this
    {
      version < TWO_TO_THE_64
    }

    constructor ()
      ensures Valid() && version == 1
    {
      version := 1;
    }

    method SetResourceVersion(val: string) returns (err: bool)
      requires Valid()
      modifies this
      ensures Valid() && version == AfterSet(old(version), val)
      ensures err == ParseUint(val).None?
    {
      var number := ParseUint(val);
      if number.None? {
        return true;
      }
      if number.value > version {
        version := number.value;
      }
      return false;
    }

    method UseResourceVersion() returns (number: string)
      requires Valid()
      modifies this
      ensures Valid() && version == AfterUse(old(version))
      ensures number == Format(old(version))
    {
      number := Format(version);
      version := (version + 1) % TWO_TO_THE_64;
    }
  }

  // ----- Goroutines calling the counter at once -----

  datatype Call = Set(val: string) | Use

  datatype Pc = Idle | Waiting(call: Call) | Locked(call: Call) | Read(call: Call, seen: nat) | Finished(call: Call)

  /** `handed` lists the versions handed out, in the order of the writes. */
  datatype State = State(version: nat, holder: Option<nat>, pcs: map<nat, Pc>, handed: seq<nat>)

  function PcOf(s: State, t: nat): Pc {
    if t in s.pcs then s.pcs[t] else Idle
  }

  function Goto(s: State, t: nat, pc: Pc): State {
    s.(pcs := s.pcs[t := pc])
  }

  ghost predicate Init(s: State) {
    s == State(1, None, map[], [])
  }

  /** One move of goroutine `t`: call, lock, read the field, write it, unlock and return. */
  ghost predicate Moves(s: State, t: nat, s': State) {
    match PcOf(s, t)
    case Idle => exists call :: s' == Goto(s, t, Waiting(call))
    case Waiting(call) => s.holder == None && s' == Goto(s, t, Locked(call)).(holder := Some(t))
    case Locked(call) => s' == Goto(s, t, Read(call, s.version))
    case Read(Set(val), seen) => s' == Goto(s, t, Finished(Set(val))).(version := AfterSet(seen, val))
    case Read(Use, seen) =>
      s' == Goto(s, t, Finished(Use)).(version := AfterUse(seen), handed := s.handed + [seen])
    case Finished(_) => s' == Goto(s, t, Idle).(holder := None)
  }

  ghost predicate Run(states: seq<State>, threads: seq<nat>) {
    && |states| == |threads| + 1
    && Init(states[0])
    && forall i :: 0 <= i < |threads| ==> Moves(states[i], threads[i], states[i + 1])
  }

  /** The versions climb from each use to the next, except across the wrap. */
  ghost predicate Climbing(handed: seq<nat>, version: nat) {
    && version < TWO_TO_THE_64
    && (forall i :: 0 <= i < |handed| ==> handed[i] < TWO_TO_THE_64)
    && (forall i :: 0 <= i < |handed| - 1 && handed[i] != MAX_VERSION ==> handed[i] < handed[i + 1])
    && (|handed| > 0 && handed[|handed| - 1] != MAX_VERSION ==> handed[|handed| - 1] < version)
  }

  /** Who holds the mutex and what the holder has read. */
  ghost predicate Exclusive(s: State) {
    && (forall t: nat :: PcOf(s, t).Locked? || PcOf(s, t).Read? || PcOf(s, t).Finished? ==> s.holder == Some(t))
    && (forall t: nat :: PcOf(s, t).Read? ==> PcOf(s, t).seen == s.version)
  }

  ghost predicate Inv(s: State) {
    Climbing(s.handed, s.version) && Exclusive(s)
  }

  lemma ClimbsOn(handed: seq<nat>, version: nat)
    requires Climbing(handed, version)
    ensures Climbing(handed + [version], AfterUse(version))
  {
    var handed' := handed + [version];
    forall i | 0 <= i < |handed'| - 1 && handed'[i] != MAX_VERSION ensures handed'[i] < handed'[i + 1] {
      assert i < |handed| - 1 ==> handed[i] < handed[i + 1];
    }
  }

  lemma MoveKeepsExclusive(s: State, t: nat, s': State)
    requires Exclusive(s) && Moves(s, t, s')
    ensures Exclusive(s')
  {
    forall t' ensures t' != t ==> PcOf(s', t') == PcOf(s, t') {
    }
  }

  lemma MoveKeepsInv(s: State, t: nat, s': State)
    requires Inv(s) && Moves(s, t, s')
    ensures Inv(s')
  {
    MoveKeepsExclusive(s, t, s');
    if PcOf(s, t).Read? {
      ClimbsOn(s.handed, s.version);
    }
  }

  lemma {:induction false} RunKeepsInv(states: seq<State>, threads: seq<nat>, n: nat)
    requires Run(states, threads) && n < |states|
    ensures Inv(states[n])
  {
    if n > 0 {
      RunKeepsInv(states, threads, n - 1);
      MoveKeepsInv(states[n - 1], threads[n - 1], states[n]);
    }
  }

  lemma {:induction false} ClimbsBetween(handed: seq<nat>, version: nat, i: nat, j: nat)
    requires Climbing(handed, version) && i < j < |handed|
    requires forall m :: i <= m < j ==> handed[m] != MAX_VERSION
    ensures handed[i] < handed[j]
  {
    if i + 1 < j {
      ClimbsBetween(handed, version, i, j - 1);
    }
  }

  /** Two versions handed out in any run differ, as numbers and as text, unless the
      counter reached its largest value in between. */
  lemma HandedOutOnce(states: seq<State>, threads: seq<nat>, n: nat, i: nat, j: nat)
    requires Run(states, threads) && n < |states| && i < j < |states[n].handed|
    requires forall m :: i <= m < j ==> states[n].handed[m] != MAX_VERSION
    ensures states[n].handed[i] < states[n].handed[j]
    ensures Format(states[n].handed[i]) != Format(states[n].handed[j])
  {
    RunKeepsInv(states, threads, n);
    ClimbsBetween(states[n].handed, states[n].version, i, j);
    FormatInjective(states[n].handed[i], states[n].handed[j]);
  }

  ghost predicate StrictlyIncreasing(ns: seq<nat>) {
    forall i, j :: 0 <= i < j < |ns| ==> ns[i] < ns[j]
  }

  // ----- Exactly when versions increase -----

  /** A move leaves the versions handed out alone or adds the counter to them; only the
      second kind lowers the counter, at its largest value. */
  lemma MoveHandsOut(s: State, t: nat, s': State)
    requires Inv(s) && Moves(s, t, s')
    ensures s'.handed == s.handed || (s'.handed == s.handed + [s.version] && s'.version == AfterUse(s.version))
    ensures s'.version < s.version ==> s.version == MAX_VERSION && s'.handed == s.handed + [s.version]
  {
  }

  lemma {:induction false} HandedGrows(states: seq<State>, threads: seq<nat>, i: nat, n: nat)
    requires Run(states, threads) && i <= n < |states|
    ensures states[i].handed <= states[n].handed
  {
    if i < n {
      HandedGrows(states, threads, i, n - 1);
      RunKeepsInv(states, threads, n - 1);
      MoveHandsOut(states[n - 1], threads[n - 1], states[n]);
    }
  }

  /** The move that handed out the m-th version. */
  lemma {:induction false} HandOut(states: seq<State>, threads: seq<nat>, n: nat, m: nat) returns (i: nat)
    requires Run(states, threads) && n < |states| && m < |states[n].handed|
    ensures i < n && |states[i + 1].handed| == m + 1
    ensures states[i].version == states[n].handed[m] && states[i + 1].version == AfterUse(states[i].version)
  {
    RunKeepsInv(states, threads, n - 1);
    MoveHandsOut(states[n - 1], threads[n - 1], states[n]);
    if m < |states[n - 1].handed| {
      i := HandOut(states, threads, n - 1, m);
    } else {
      i := n - 1;
    }
  }

  /** The counter has not gone down before the last version was handed out. */
  ghost predicate NoWrap(states: seq<State>, n: nat)
    requires n < |states|
  {
    forall i :: 0 <= i < n && states[i + 1].version < states[i].version ==> |states[i + 1].handed| == |states[n].handed|
  }

  lemma NoWrapIff(states: seq<State>, threads: seq<nat>, n: nat)
    requires Run(states, threads) && n < |states|
    ensures var handed := states[n].handed;
      NoWrap(states, n) <==> forall m :: 0 <= m < |handed| - 1 ==> handed[m] != MAX_VERSION
  {
    var handed := states[n].handed;
    if m :| 0 <= m < |handed| - 1 && handed[m] == MAX_VERSION {
      var i := HandOut(states, threads, n, m);
      assert states[i + 1].version < states[i].version;
    } else {
      forall i | 0 <= i < n && states[i + 1].version < states[i].version ensures |states[i + 1].handed| == |handed| {
        RunKeepsInv(states, threads, i);
        MoveHandsOut(states[i], threads[i], states[i + 1]);
        HandedGrows(states, threads, i + 1, n);
        assert handed[|states[i].handed|] == MAX_VERSION;
      }
    }
  }

  /** Everything handed out so far is strictly increasing if and only if the counter has
      not wrapped, or nothing was handed out since: the largest 64-bit number was then
      handed out last or not at all. */
  lemma IncreasingIffNoWrap(states: seq<State>, threads: seq<nat>, n: nat)
    requires Run(states, threads) && n < |states|
    ensures var handed := states[n].handed;
      StrictlyIncreasing(handed) <==> forall m :: 0 <= m < |handed| - 1 ==> handed[m] != MAX_VERSION
    ensures StrictlyIncreasing(states[n].handed) <==> NoWrap(states, n)
  {
    RunKeepsInv(states, threads, n);
    NoWrapIff(states, threads, n);
    var handed := states[n].handed;
    if forall m :: 0 <= m < |handed| - 1 ==> handed[m] != MAX_VERSION {
      forall i, j | 0 <= i < j < |handed| ensures handed[i] < handed[j] {
        ClimbsBetween(handed, states[n].version, i, j);
      }
    } else {
      var m :| 0 <= m < |handed| - 1 && handed[m] == MAX_VERSION;
      assert handed[m + 1] < TWO_TO_THE_64;
    }
  }

  // ----- A run that wraps -----

  function Last(states: seq<State>): State
    requires states != []
  {
    states[|states| - 1]
  }

  lemma OneMove(states: seq<State>, threads: seq<nat>, s: State)
    requires Run(states, threads) && Moves(Last(states), 0, s)
    ensures Run(states + [s], threads + [0])
  {
  }

  /** One whole call by the first goroutine, while no other is in one. */
  lemma OneCall(states: seq<State>, threads: seq<nat>, call: Call) returns (states': seq<State>, threads': seq<nat>)
    requires Run(states, threads) && Last(states).holder == None && PcOf(Last(states), 0) == Idle
    ensures Run(states', threads') && Last(states').holder == None && PcOf(Last(states'), 0) == Idle
    ensures var version, handed := Last(states).version, Last(states).handed;
      && Last(states').version == (if call.Use? then AfterUse(version) else AfterSet(version, call.val))
      && Last(states').handed == (if call.Use? then handed + [version] else handed)
  {
    var s := Last(states);
    var s1 := Goto(s, 0, Waiting(call));
    var s2 := Goto(s1, 0, Locked(call)).(holder := Some(0));
    var s3 := Goto(s2, 0, Read(call, s.version));
    var s4 := if call.Use?
      then Goto(s3, 0, Finished(call)).(version := AfterUse(s.version), handed := s.handed + [s.version])
      else Goto(s3, 0, Finished(call)).(version := AfterSet(s.version, call.val));
    var s5 := Goto(s4, 0, Idle).(holder := None);
    OneMove(states, threads, s1);
    OneMove(states + [s1], threads + [0], s2);
    OneMove(states + [s1] + [s2], threads + [0] + [0], s3);
    OneMove(states + [s1] + [s2] + [s3], threads + [0] + [0] + [0], s4);
    OneMove(states + [s1] + [s2] + [s3] + [s4], threads + [0] + [0] + [0] + [0], s5);
    states' := states + [s1] + [s2] + [s3] + [s4] + [s5];
    threads' := threads + [0] + [0] + [0] + [0] + [0];
  }

  lemma AtLargest() returns (states: seq<State>, threads: seq<nat>)
    ensures Run(states, threads) && Last(states).holder == None && PcOf(Last(states), 0) == Idle
    ensures Last(states).handed == [1] && Last(states).version == MAX_VERSION
  {
    states, threads := [State(1, None, map[], [])], [];
    states, threads := OneCall(states, threads, Use);
    ParseFormat(MAX_VERSION);
    states, threads := OneCall(states, threads, Set(Format(MAX_VERSION)));
  }

  lemma TwoUses(states: seq<State>, threads: seq<nat>) returns (states': seq<State>, threads': seq<nat>)
    requires Run(states, threads) && Last(states).holder == None && PcOf(Last(states), 0) == Idle
    requires Last(states).version == 0
    ensures Run(states', threads') && Last(states').handed == Last(states).handed + [0, 1]
  {
    states', threads' := OneCall(states, threads, Use);
    states', threads' := OneCall(states', threads', Use);
  }

  lemma PastLargest() returns (states: seq<State>, threads: seq<nat>)
    ensures Run(states, threads) && Last(states).handed == [1, MAX_VERSION, 0, 1]
  {
    states, threads := AtLargest();
    states, threads := OneCall(states, threads, Use);
    assert Last(states).handed == [1, MAX_VERSION] && Last(states).version == 0;
    states, threads := TwoUses(states, threads);
  }

  /** Set to the largest version, the counter wraps and hands out 1 a second time. */
  lemma WrappingRun() returns (states: seq<State>, threads: seq<nat>)
    ensures Run(states, threads) && Last(states).handed == [1, MAX_VERSION, 0, 1]
    ensures !NoWrap(states, |states| - 1)
  {
    states, threads := PastLargest();
    IncreasingIffNoWrap(states, threads, |states| - 1);
    assert Last(states).handed[1] > Last(states).handed[2];
  }
}
