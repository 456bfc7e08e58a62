/** The whole server: four kinds, one counter, requests mixed with migration loops and
    live watchers in any order. */
module SystemRuns {
  import opened Storage
  import opened Decimal
  import Versioning
  import opened Rest
  import opened RestProperties
  import opened Migration

  /** `trace` holds the broadcast events of all four kinds in the order they went out. */
  datatype System = System(version: nat, stores: map<Kind, Reports>, trace: seq<WatchEvent>)

  function StoreOf(s: System, k: Kind): Reports {
    if k in s.stores then s.stores[k] else map[]
  }

  datatype Step =
    | Request(cx: Context, request: Rest.Request)
    | CopyLoop(kind: Kind, items: seq<Report>, io: Calls)
    | LiveEvent(kind: Kind, event: SourceEvent, up: Io)
    | SetVersion(val: string)

  /** The state one kind's handler sees, with its events logged from here on. */
  function StateOf(s: System, k: Kind): State {
    State(StoreOf(s, k), s.version, [])
  }

  function Take(s: System, step: Step): System {
    match step
    case Request(cx, q) =>
      var st := Handle(cx, StateOf(s, cx.kind), q).0;
      System(st.version, s.stores[cx.kind := st.reports], s.trace + st.log)
    case CopyLoop(k, items, io) => s.(stores := s.stores[k := Copy(StoreOf(s, k), items, io).0])
    case LiveEvent(k, e, io) =>
      if e.Other? || Ends(e) then s else s.(stores := s.stores[k := Next(StoreOf(s, k), SourceOp(e), io)])
    case SetVersion(val) => s.(version := Versioning.AfterSet(s.version, val))
  }

  function Run(s: System, steps: seq<Step>): System {
    if steps == [] then s else Take(Run(s, steps[..|steps| - 1]), steps[|steps| - 1])
  }

  const NEW_SERVER := System(1, map[], [])

  // ----- The steps are those of the handlers, the copy loop and the live watcher -----

  function Prepend(log: seq<WatchEvent>, result: (State, bool)): (State, bool) {
    (result.0.(log := log + result.0.log), result.1)
  }

  lemma {:induction false} DeleteEachAppends(cx: Context, st: State, items: seq<Report>, allows: Report -> bool, log: seq<WatchEvent>)
    ensures DeleteEach(cx, st.(log := log + st.log), items, allows) == Prepend(log, DeleteEach(cx, st, items, allows))
    decreases |items|
  {
    if items != [] {
      var q := DeleteRequest(items[0].name, allows, false);
      var (st1, answer) := HandleDelete(cx, st, q);
      var (st2, answer2) := HandleDelete(cx, st.(log := log + st.log), q);
      assert answer2 == answer && st2 == st1.(log := log + st1.log);
      if answer.Ok? {
        DeleteEachAppends(cx.(io := Later(cx.io, 2)), st1, items[1..], allows, log);
      }
    }
  }

  /** A handler neither reads its log nor changes what is in it. */
  lemma HandleAppends(cx: Context, st: State, q: Rest.Request, log: seq<WatchEvent>)
    ensures var (st', answer) := Handle(cx, st, q);
      Handle(cx, st.(log := log + st.log), q) == (st'.(log := log + st'.log), answer)
  {
    if q.DeleteCollectionReq? {
      var found := HandleList(cx, q.options);
      if found.OkList? && !q.dryRun {
        DeleteEachAppends(cx.(io := Later(cx.io, 1)), st, found.reports, q.allows, log);
      }
    } else {
      var st' := Handle(cx, st, q).0;
      if st'.log != st.log {
        var e := st'.log[|st.log|];
        assert st'.log == st.log + [e];
        assert log + (st.log + [e]) == log + st.log + [e];
      }
    }
  }

  /** A request of the whole server is a request to its kind's handler, whatever that has
      logged before: the store and the counter go with it, the events join the trace. */
  lemma RequestIsHandled(s: System, cx: Context, q: Rest.Request, log: seq<WatchEvent>)
    ensures var s' := Take(s, Request(cx, q));
      var st := Handle(cx, State(StoreOf(s, cx.kind), s.version, log), q).0;
      && StoreOf(s', cx.kind) == st.reports && s'.version == st.version
      && |log| <= |st.log| && st.log[..|log|] == log && s'.trace == s.trace + st.log[|log|..]
      && forall k :: k != cx.kind ==> StoreOf(s', k) == StoreOf(s, k)
  {
    HandleAppends(cx, StateOf(s, cx.kind), q, log);
    assert log + [] == log;
  }

  /** The other steps are the copy loop, the live watcher on one event that it does not
      end at, and a move of the counter; none of them broadcasts. */
  lemma OtherStepsExact(s: System, step: Step)
    requires !step.Request?
    ensures var s' := Take(s, step);
      && s'.trace == s.trace
      && (step.CopyLoop? ==> StoreOf(s', step.kind) == Copy(StoreOf(s, step.kind), step.items, step.io).0)
      && (step.LiveEvent? ==>
            StoreOf(s', step.kind) == Carried(StoreOf(s, step.kind), [step.event][..Cut([step.event])], (i: nat) => step.up))
      && (step.SetVersion? ==> s'.stores == s.stores && s'.version == Versioning.AfterSet(s.version, step.val))
      && (!step.SetVersion? ==> s'.version == s.version && forall k :: k != step.kind ==> StoreOf(s', k) == StoreOf(s, k))
  {
    if step.LiveEvent? {
      var e := step.event;
      assert [e][..1] == [e] && [e][..0] == [];
      assert Cut([e]) == if Ends(e) then 0 else 1;
      assert Carried(StoreOf(s, step.kind), [], (i: nat) => step.up) == StoreOf(s, step.kind);
    }
  }

  // ----- Every stored report carries the annotation -----

  ghost predicate Served(m: Reports) {
    forall c :: c in m ==> IsServed(m[c])
  }

  ghost predicate AllServed(s: System) {
    forall k :: Served(StoreOf(s, k))
  }

  /** A forced update that the store takes, of a report without the annotation. */
  predicate StoresUnserved(s: System, step: Step) {
    step.Request? &&
    var r := Forced(step.cx, StateOf(s, step.cx.kind), step.request);
    r.Some? && !IsServed(r.value) && Succeeds(StoreOf(s, step.cx.kind), Update(r.value), step.cx.io(1))
  }

  lemma {:induction false} DeleteEachKeepsServed(cx: Context, st: State, items: seq<Report>, allows: Report -> bool)
    requires Served(st.reports)
    ensures Served(DeleteEach(cx, st, items, allows).0.reports)
    decreases |items|
  {
    if items != [] {
      var (st1, answer) := HandleDelete(cx, st, DeleteRequest(items[0].name, allows, false));
      if answer.Ok? {
        DeleteEachKeepsServed(cx.(io := Later(cx.io, 2)), st1, items[1..], allows);
      }
    }
  }

  lemma {:induction false} CopyKeepsServed(m: Reports, items: seq<Report>, io: Calls)
    requires Served(m)
    ensures Served(Copy(m, items, io).0)
  {
    if items != [] {
      CopyKeepsServed(m, items[..|items| - 1], io);
    }
  }

  lemma RequestServedIff(s: System, cx: Context, q: Rest.Request)
    requires Served(StoreOf(s, cx.kind))
    ensures Served(Handle(cx, StateOf(s, cx.kind), q).0.reports) <==> !StoresUnserved(s, Request(cx, q))
  {
    var st := StateOf(s, cx.kind);
    if q.DeleteCollectionReq? {
      var found := HandleList(cx, q.options);
      if found.OkList? && !q.dryRun {
        DeleteEachKeepsServed(cx.(io := Later(cx.io, 1)), st, found.reports, q.allows);
      }
    } else if q.UpdateReq? && Forced(cx, st, q).Some? {
      var r := Forced(cx, st, q).value;
      assert Succeeds(st.reports, Update(r), cx.io(1)) ==> CoordOf(r) in Handle(cx, st, q).0.reports;
    }
  }

  /** Exactly when a step keeps every stored report annotated. */
  lemma StepServedIff(s: System, step: Step)
    requires AllServed(s)
    ensures AllServed(Take(s, step)) <==> !StoresUnserved(s, step)
  {
    match step
    case Request(cx, q) =>
      assert Served(StoreOf(s, cx.kind));
      RequestServedIff(s, cx, q);
      assert StoreOf(Take(s, step), cx.kind) == Handle(cx, StateOf(s, cx.kind), q).0.reports;
      assert forall k :: k != cx.kind ==> StoreOf(Take(s, step), k) == StoreOf(s, k);
    case CopyLoop(k, items, io) =>
      assert Served(StoreOf(s, k));
      CopyKeepsServed(StoreOf(s, k), items, io);
      assert forall k' :: k' != k ==> StoreOf(Take(s, step), k') == StoreOf(s, k');
    case LiveEvent(k, e, io) =>
      assert Served(StoreOf(s, k));
      assert forall k' :: k' != k ==> StoreOf(Take(s, step), k') == StoreOf(s, k');
    case SetVersion(val) =>
      assert forall k' :: StoreOf(Take(s, step), k') == StoreOf(s, k');
  }

  ghost predicate AlwaysServed(s: System, steps: seq<Step>) {
    forall n :: 0 <= n <= |steps| ==> AllServed(Run(s, steps[..n]))
  }

  /** No step of the run stores a report without the annotation. */
  ghost predicate Marking(s: System, steps: seq<Step>) {
    forall i :: 0 <= i < |steps| ==> !StoresUnserved(Run(s, steps[..i]), steps[i])
  }

  lemma AlwaysServedSnoc(s: System, init: seq<Step>, step: Step)
    ensures AlwaysServed(s, init + [step]) <==> AlwaysServed(s, init) && AllServed(Run(s, init + [step]))
    ensures AlwaysServed(s, init) ==> AllServed(Run(s, init))
  {
    var steps := init + [step];
    forall n | 0 <= n <= |init| ensures steps[..n] == init[..n] {
    }
    assert steps[..|steps|] == steps && init[..|init|] == init;
  }

  lemma MarkingSnoc(s: System, init: seq<Step>, step: Step)
    ensures Marking(s, init + [step]) <==> Marking(s, init) && !StoresUnserved(Run(s, init), step)
  {
    var steps := init + [step];
    forall i | 0 <= i < |steps| ensures steps[..i] == if i < |init| then init[..i] else init {
    }
    assert forall i :: 0 <= i < |init| ==> steps[i] == init[i];
    assert steps[|init|] == step;
  }

  /** All four stores hold annotated reports only, in every state of a run, if and only if
      no forced update of the run that the store takes leaves the annotation out. */
  lemma {:induction false} RunServed(s: System, steps: seq<Step>)
    requires AllServed(s)
    ensures AlwaysServed(s, steps) <==> Marking(s, steps)
  {
    if steps == [] {
      assert steps[..0] == [];
    } else {
      var init, step := steps[..|steps| - 1], steps[|steps| - 1];
      assert steps == init + [step];
      RunServed(s, init);
      AlwaysServedSnoc(s, init, step);
      MarkingSnoc(s, init, step);
      if AllServed(Run(s, init)) {
        StepServedIff(Run(s, init), step);
      }
    }
  }

  // ----- Versions grow along the trace -----

  predicate Stamps(e: WatchEvent) {
    e.kind != Deleted
  }

  function VersionIn(e: WatchEvent): nat {
    var n := ParseUint(e.report.resourceVersion);
    if n.Some? then n.value else 0
  }

  /** Either no version is taken and only deletions are logged, or one is taken and at
      most the one event that carries it is logged. */
  ghost predicate TakesAtMostOne(version: nat, version': nat, log: seq<WatchEvent>) {
    || (version' == version && OnlyDeletes(log))
    || (&& version' == Versioning.AfterUse(version) && |log| <= 1
        && (log != [] ==> log[0].report.resourceVersion == Format(version)))
  }

  lemma RequestStamps(cx: Context, s: System, q: Rest.Request)
    ensures var st := Handle(cx, StateOf(s, cx.kind), q).0; TakesAtMostOne(s.version, st.version, st.log)
  {
    var st := StateOf(s, cx.kind);
    if q.DeleteCollectionReq? {
      var found := HandleList(cx, q.options);
      if found.OkList? && !q.dryRun {
        DeleteEachOnlyDeletes(cx.(io := Later(cx.io, 1)), st, found.reports, q.allows);
        assert Fresh(st, Handle(cx, st, q).0) == Handle(cx, st, q).0.log;
      }
    }
  }

  ghost predicate Growing(version: nat, trace: seq<WatchEvent>) {
    && version < TWO_TO_THE_64
    && (forall i :: 0 <= i < |trace| && Stamps(trace[i]) ==> VersionIn(trace[i]) < version)
    && (forall i, j :: 0 <= i < j < |trace| && Stamps(trace[i]) && Stamps(trace[j]) ==>
          VersionIn(trace[i]) < VersionIn(trace[j]))
  }

  lemma DeletesGrow(version: nat, trace: seq<WatchEvent>, events: seq<WatchEvent>)
    requires Growing(version, trace) && OnlyDeletes(events)
    ensures Growing(version, trace + events)
  {
  }

  lemma StampGrows(version: nat, trace: seq<WatchEvent>, e: WatchEvent)
    requires Growing(version, trace) && version != Versioning.MAX_VERSION
    requires e.report.resourceVersion == Format(version)
    ensures Growing(version + 1, trace) && Growing(version + 1, trace + [e])
  {
    ParseFormat(version);
  }

  lemma LogGrows(version: nat, version': nat, trace: seq<WatchEvent>, log: seq<WatchEvent>)
    requires Growing(version, trace) && version != Versioning.MAX_VERSION && TakesAtMostOne(version, version', log)
    ensures Growing(version', trace + log)
  {
    if version' == version && OnlyDeletes(log) {
      DeletesGrow(version, trace, log);
    } else if log == [] {
      assert trace + log == trace;
    } else {
      assert log == [log[0]];
      StampGrows(version, trace, log[0]);
    }
  }

  /** A step keeps the order unless it takes the largest version there is. */
  lemma StepGrows(s: System, step: Step)
    requires Growing(s.version, s.trace) && s.version != Versioning.MAX_VERSION
    ensures Growing(Take(s, step).version, Take(s, step).trace)
  {
    if step.Request? {
      var st := Handle(step.cx, StateOf(s, step.cx.kind), step.request).0;
      RequestStamps(step.cx, s, step.request);
      LogGrows(s.version, st.version, s.trace, st.log);
    }
  }

  lemma {:induction false} RunGrows(s: System, steps: seq<Step>)
    requires Growing(s.version, s.trace)
    requires forall i :: 0 <= i < |steps| ==> Run(s, steps[..i]).version != Versioning.MAX_VERSION
    ensures Growing(Run(s, steps).version, Run(s, steps).trace)
  {
    if steps != [] {
      var init := steps[..|steps| - 1];
      forall i | 0 <= i < |init| ensures Run(s, init[..i]).version != Versioning.MAX_VERSION {
        assert init[..i] == steps[..i];
      }
      RunGrows(s, init);
      StepGrows(Run(s, init), steps[|steps| - 1]);
    }
  }

  /** From a fresh server, until the counter reaches its largest value, every Added or
      Modified event of any kind carries a larger version than every earlier one. */
  lemma EventVersionsIncrease(steps: seq<Step>, i: nat, j: nat)
    requires forall n :: 0 <= n < |steps| ==> Run(NEW_SERVER, steps[..n]).version != Versioning.MAX_VERSION
    requires i < j < |Run(NEW_SERVER, steps).trace|
    requires Stamps(Run(NEW_SERVER, steps).trace[i]) && Stamps(Run(NEW_SERVER, steps).trace[j])
    ensures VersionIn(Run(NEW_SERVER, steps).trace[i]) < VersionIn(Run(NEW_SERVER, steps).trace[j])
  {
    RunGrows(NEW_SERVER, steps);
  }
}
