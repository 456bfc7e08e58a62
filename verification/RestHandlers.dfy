/** The request handlers as objects: they change the store, advance the counter and
    append to the broadcaster. Each is proved to act as the function of the same name
    in Rest, on which the properties are proved. */
module RestHandlers {
  import opened Storage
  import opened EtcdKeys
  import opened EtcdStore
  import opened Decimal
  import Versioning
  import opened Rest
  import RestProperties

  class Broadcaster {
    var log: seq<WatchEvent>

    constructor ()
      ensures log == []
    {
      log := [];
    }

    method Action(kind: EventType, report: Report)
      modifies this
      ensures log == old(log) + [WatchEvent(kind, report)]
    {
      log := log + [WatchEvent(kind, report)];
    }
  }

  lemma SucceedsIffDone(m: Reports, op: Op, io: Io, a: Answer)
    requires Answers(m, op, io, a)
    ensures Succeeds(m, op, io) <==> !a.Failed?
  {
  }

  /** The outcome depends on the calls only through how each of them comes out. */
  lemma {:induction false} SameCallsSameDeletes(cx: Context, cx': Context, st: State, items: seq<Report>, allows: Report -> bool)
    requires cx'.namespace == cx.namespace && forall i: nat :: cx'.io(i) == cx.io(i)
    ensures DeleteEach(cx, st, items, allows) == DeleteEach(cx', st, items, allows)
    decreases |items|
  {
    if items != [] {
      var st1 := HandleDelete(cx, st, DeleteRequest(items[0].name, allows, false)).0;
      SameCallsSameDeletes(cx.(io := Later(cx.io, 2)), cx'.(io := Later(cx'.io, 2)), st1, items[1..], allows);
    }
  }

  lemma NextDelete(cx: Context, st: State, io: Calls, n: nat, items: seq<Report>, allows: Report -> bool)
    requires items != []
    ensures var (st1, answer) := HandleDelete(Context(cx.kind, cx.namespace, Later(io, n), []), st,
                                              DeleteRequest(items[0].name, allows, false));
      DeleteEach(cx.(io := Later(io, n)), st, items, allows) ==
      if answer.Ok? then DeleteEach(cx.(io := Later(io, n + 2)), st1, items[1..], allows) else (st1, false)
  {
    var st1 := HandleDelete(cx.(io := Later(io, n)), st, DeleteRequest(items[0].name, allows, false)).0;
    SameCallsSameDeletes(cx.(io := Later(Later(io, n), 2)), cx.(io := Later(io, n + 2)), st1, items[1..], allows);
  }

  /** What is left of the loop from item `i` on leads to `goal`. */
  ghost predicate Remaining(cx: Context, io: Calls, i: nat, st: State, items: seq<Report>, allows: Report -> bool, goal: (State, bool)) {
    i <= |items| && DeleteEach(cx.(io := Later(io, 2 * i)), st, items[i..], allows) == goal
  }

  lemma RemainingNext(cx: Context, io: Calls, i: nat, st: State, items: seq<Report>, allows: Report -> bool, goal: (State, bool),
                      st1: State, answer: Response)
    requires i < |items| && Remaining(cx, io, i, st, items, allows, goal)
    requires (st1, answer) == HandleDelete(Context(cx.kind, cx.namespace, Later(io, 2 * i), []), st,
                                           DeleteRequest(items[i].name, allows, false))
    ensures if answer.Ok? then Remaining(cx, io, i + 1, st1, items, allows, goal) else goal == (st1, false)
  {
    NextDelete(cx, st, io, 2 * i, items[i..], allows);
    assert items[i..][1..] == items[i + 1..];
  }

  lemma FoundNamesSlashFree(kv: KeyValues, g: GroupVersionKind, m: Reports, cx: Context, selector: Selector)
    requires IsView(kv, g, m) && Enumerates(cx.listing, ReportsIn(m, cx.namespace))
    ensures forall r :: r in Filtered(cx.listing, selector) ==> SlashFree(r.name)
  {
    RestProperties.FilteredSelects(cx.listing, selector);
    forall r | r in Filtered(cx.listing, selector) ensures SlashFree(r.name) {
      assert r in ReportsIn(m, cx.namespace);
      var c :| c in m && m[c] == r;
      assert Stored(kv, g, m, c);
    }
  }

  /** The stored reports of the namespace that the selector allows. */
  ghost function MatchesIn(m: Reports, namespace: string, selector: Selector): set<Report> {
    set r | r in ReportsIn(m, namespace) && Matches(selector, r)
  }

  lemma FilteredListsMatches(m: Reports, namespace: string, items: seq<Report>, selector: Selector)
    requires Enumerates(items, ReportsIn(m, namespace))
    ensures Enumerates(Filtered(items, selector), MatchesIn(m, namespace, selector))
  {
    RestProperties.FilteredSelects(items, selector);
  }

  class Handler {
    const kind: Kind
    const store: ObjectStore
    const versions: Versioning.ResourceVersion
    const broadcaster: Broadcaster
    ghost var contents: Reports

    ghost predicate Valid()
      reads this, store.client, versions, broadcaster
    {
      IsView(store.client.kv, store.gvk, contents) && versions.Valid()
    }

    ghost function Snapshot(): State
      reads this, versions, broadcaster
    {
      State(contents, versions.version, broadcaster.log)
    }

    constructor (kind: Kind, store: ObjectStore, versions: Versioning.ResourceVersion, broadcaster: Broadcaster, ghost contents: Reports)
      requires IsView(store.client.kv, store.gvk, contents) && versions.Valid()
      ensures Valid() && Snapshot() == State(contents, versions.version, broadcaster.log)
      ensures this.kind == kind && this.store == store && this.versions == versions && this.broadcaster == broadcaster
    {
      this.kind, this.store, this.versions, this.broadcaster := kind, store, versions, broadcaster;
      this.contents := contents;
    }

    // ----- The store calls -----

    method GetReport(name: string, namespace: string, io: Io) returns (r: Option<Report>)
      requires Valid() && SlashFree(name)
      ensures r == if Succeeds(contents, Op.Get(Coord(namespace, name)), io) then Some(contents[Coord(namespace, name)]) else None
    {
      var a := store.Get(Coord(namespace, name), io);
      AnswersRefine(store.client.kv, store.gvk, contents, Op.Get(Coord(namespace, name)), io, a);
      r := if a.Found? then Some(a.report) else None;
    }

    method CreateReport(report: Report, uid: string, now: int, io: Io) returns (r: Report, err: bool)
      requires Valid() && SlashFree(report.name) && SlashFree(report.namespace)
      modifies this, store.client, versions
      ensures Valid() && r == Stamped(report, old(versions.version)).(uid := uid, creationTimestamp := now)
      ensures versions.version == Versioning.AfterUse(old(versions.version))
      ensures contents == Next(old(contents), Op.Create(r), io)
      ensures err <==> !Succeeds(old(contents), Op.Create(r), io)
    {
      var number := versions.UseResourceVersion();
      r := report.(resourceVersion := number, uid := uid, creationTimestamp := now);
      OwnStep(store.client.kv, store.gvk, contents, Op.Create(r), io);
      ghost var before := store.client.kv;
      var a := store.Create(r, io);
      AnswersRefine(before, store.gvk, contents, Op.Create(r), io, a);
      SucceedsIffDone(contents, Op.Create(r), io, a);
      contents := Next(contents, Op.Create(r), io);
      err := a.Failed?;
    }

    method UpdateReport(report: Report, io: Io) returns (r: Report, err: bool)
      requires Valid() && SlashFree(report.name) && SlashFree(report.namespace)
      modifies this, store.client, versions
      ensures Valid() && r == Stamped(report, old(versions.version))
      ensures versions.version == Versioning.AfterUse(old(versions.version))
      ensures contents == Next(old(contents), Op.Update(r), io)
      ensures err <==> !Succeeds(old(contents), Op.Update(r), io)
    {
      var number := versions.UseResourceVersion();
      r := report.(resourceVersion := number);
      OwnStep(store.client.kv, store.gvk, contents, Op.Update(r), io);
      ghost var before := store.client.kv;
      var a := store.Update(r, io);
      AnswersRefine(before, store.gvk, contents, Op.Update(r), io, a);
      SucceedsIffDone(contents, Op.Update(r), io, a);
      contents := Next(contents, Op.Update(r), io);
      err := a.Failed?;
    }

    method DeleteReport(at: Coord, io: Io) returns (err: bool)
      requires Valid() && SlashFree(at.name)
      modifies this, store.client
      ensures Valid() && contents == Next(old(contents), Op.Delete(at), io)
      ensures err <==> !Succeeds(old(contents), Op.Delete(at), io)
    {
      OwnStep(store.client.kv, store.gvk, contents, Op.Delete(at), io);
      ghost var before := store.client.kv;
      var a := store.Delete(at, io);
      AnswersRefine(before, store.gvk, contents, Op.Delete(at), io, a);
      SucceedsIffDone(contents, Op.Delete(at), io, a);
      contents := Next(contents, Op.Delete(at), io);
      err := a.Failed?;
    }

    // ----- The handlers -----

    method Create(namespace: string, q: CreateRequest, io: Calls) returns (answer: Response)
      requires Valid() && SlashFree(namespace) && SlashFree(q.generated)
      requires q.obj.ReportObject? ==> SlashFree(q.obj.report.name) && SlashFree(q.obj.report.namespace)
      modifies this, store.client, versions, broadcaster
      ensures Valid()
      ensures (Snapshot(), answer) == HandleCreate(Context(kind, namespace, io, []), old(Snapshot()), q)
    {
      if q.invalid {
        match q.fieldValidation
        case "Strict" => return Error(Invalid);
        case _ =>
      }
      if q.obj.OtherObject? {
        return Error(BadRequest);
      }
      var polr := q.obj.report;
      if |polr.namespace| == 0 {
        polr := polr.(namespace := namespace);
      }
      if polr.name == "" {
        if polr.generateName == "" {
          return Error(if Namespaced(kind) then Conflict else AlreadyExistsStatus);
        }
        polr := polr.(name := q.generated);
      }
      polr := Labelled(polr);
      polr := polr.(generation := 1);
      if !q.dryRun {
        var r, err := CreateReport(polr, q.uid, q.now, io(0));
        if err {
          return Error(if Namespaced(kind) then AlreadyExistsStatus else BadRequest);
        }
        broadcaster.Action(Added, r);
        polr := r;
      }
      return Ok(polr);
    }

    method Update(namespace: string, q: UpdateRequest, io: Calls) returns (answer: Response)
      requires Valid() && SlashFree(namespace) && SlashFree(q.name)
      requires forall r :: q.updated(r).obj.Some? && q.updated(r).obj.value.ReportObject? ==>
        SlashFree(q.updated(r).obj.value.report.name) && SlashFree(q.updated(r).obj.value.report.namespace)
      modifies this, store.client, versions, broadcaster
      ensures Valid()
      ensures (Snapshot(), answer) == HandleUpdate(Context(kind, namespace, io, []), old(Snapshot()), q)
    {
      var oldObj := GetReport(q.name, namespace, io(0));
      if oldObj.None? && !q.force {
        return Error(StoreError);
      }
      var u := q.updated(oldObj);
      if u.err && !q.force {
        return Error(UpdateError);
      }
      if u.obj.None? || u.obj.value.OtherObject? {
        return Error(Panic);
      }
      var polr := u.obj.value.report;
      if q.force {
        var r, err := UpdateReport(polr, io(1));
        broadcaster.Action(Modified, r);
        return Ok(r);
      }
      if q.invalid {
        match q.fieldValidation
        case "Strict" => return Error(Invalid);
        case _ =>
      }
      if |polr.namespace| == 0 {
        polr := polr.(namespace := namespace);
      }
      polr := Labelled(polr);
      polr := polr.(generation := NextGeneration(polr.generation));
      if !q.dryRun {
        var r, err := UpdateReport(polr, io(1));
        if err {
          return Error(BadRequest);
        }
        broadcaster.Action(Modified, r);
        polr := r;
      }
      return Ok(polr);
    }

    method Delete(namespace: string, q: DeleteRequest, io: Calls) returns (answer: Response)
      requires Valid() && SlashFree(q.name)
      modifies this, store.client, versions, broadcaster
      ensures Valid()
      ensures (Snapshot(), answer) == HandleDelete(Context(kind, namespace, io, []), old(Snapshot()), q)
    {
      var polr := GetReport(q.name, namespace, io(0));
      if polr.None? {
        return Error(NotFoundStatus);
      }
      if !q.allows(polr.value) {
        return Error(BadRequest);
      }
      if !q.dryRun {
        assert Stored(store.client.kv, store.gvk, contents, Coord(namespace, q.name));
        var err := DeleteReport(CoordOf(polr.value), io(1));
        if err {
          return Error(BadRequest);
        }
        broadcaster.Action(Deleted, polr.value);
      }
      return Ok(polr.value);
    }

    method List(namespace: string, options: ListOptions, io: Calls) returns (answer: Response, ghost listing: seq<Report>)
      requires Valid()
      ensures answer.OkList? <==> io(0).read && GoodVersion(options.resourceVersion)
      ensures answer.OkList? ==> Enumerates(answer.reports, MatchesIn(contents, namespace, options.selector))
      ensures answer == HandleList(Context(kind, namespace, io, listing), options)
      ensures io(0).read ==> ListsStore(Context(kind, namespace, io, listing), Snapshot())
    {
      listing := [];
      var a := store.List(namespace, io(0));
      AnswersRefine(store.client.kv, store.gvk, contents, Op.List(namespace), io(0), a);
      if a.Failed? {
        return Error(BadRequest), listing;
      }
      listing := a.reports;
      if |options.resourceVersion| != 0 && ParseUint(options.resourceVersion).None? {
        return Error(Invalid), listing;
      }
      var items: seq<Report> := [];
      for i := 0 to |a.reports|
        invariant items == Filtered(a.reports[..i], options.selector)
      {
        var (allow, _) := AllowObjectListWatch(a.reports[i], options.selector);
        assert a.reports[..i + 1][..i] == a.reports[..i];
        if allow {
          items := items + [a.reports[i]];
        }
      }
      assert a.reports[..|a.reports|] == a.reports;
      FilteredListsMatches(contents, namespace, a.reports, options.selector);
      return OkList(items), listing;
    }

    /** The loop of DeleteCollection. */
    method DeleteItems(namespace: string, items: seq<Report>, allows: Report -> bool, io: Calls) returns (all: bool)
      requires Valid() && forall r :: r in items ==> SlashFree(r.name)
      modifies this, store.client, versions, broadcaster
      ensures Valid()
      ensures (Snapshot(), all) == DeleteEach(Context(kind, namespace, io, []), old(Snapshot()), items, allows)
    {
      ghost var cx := Context(kind, namespace, io, []);
      ghost var goal := DeleteEach(cx, Snapshot(), items, allows);
      SameCallsSameDeletes(cx, cx.(io := Later(io, 0)), Snapshot(), items, allows);
      for i := 0 to |items|
        invariant Valid()
        invariant Remaining(cx, io, i, Snapshot(), items, allows, goal)
      {
        ghost var st := Snapshot();
        assert items[i] in items;
        var deleted := Delete(namespace, DeleteRequest(items[i].name, allows, false), Later(io, 2 * i));
        RemainingNext(cx, io, i, st, items, allows, goal, Snapshot(), deleted);
        if !deleted.Ok? {
          return false;
        }
      }
      return true;
    }

    method DeleteCollection(namespace: string, allows: Report -> bool, dryRun: bool, options: ListOptions, io: Calls)
      returns (answer: Response, ghost listing: seq<Report>)
      requires Valid()
      modifies this, store.client, versions, broadcaster
      ensures Valid()
      ensures io(0).read ==> ListsStore(Context(kind, namespace, io, listing), old(Snapshot()))
      ensures (Snapshot(), answer)
           == HandleDeleteCollection(Context(kind, namespace, io, listing), old(Snapshot()), allows, dryRun, options)
    {
      var found;
      found, listing := List(namespace, options, io);
      if !found.OkList? {
        return Error(BadRequest), listing;
      }
      if !dryRun {
        ghost var cx := Context(kind, namespace, io, listing);
        FoundNamesSlashFree(store.client.kv, store.gvk, contents, cx, options.selector);
        SameCallsSameDeletes(cx.(io := Later(io, 1)), Context(kind, namespace, Later(io, 1), []), Snapshot(), found.reports, allows);
        var all := DeleteItems(namespace, found.reports, allows, Later(io, 1));
        if !all {
          return Error(BadRequest), listing;
        }
      }
      return found, listing;
    }

    method Watch(namespace: string, options: ListOptions, io: Calls) returns (watcher: Option<Watcher>, ghost listing: seq<Report>)
      requires Valid()
      ensures watcher == HandleWatch(Context(kind, namespace, io, listing), Snapshot(), options)
      ensures watcher.Some? ==> watcher.value.since == |broadcaster.log|
      ensures watcher.Some? && options.resourceVersion != "" && options.resourceVersion != "0" ==>
        && ListsStore(Context(kind, namespace, io, listing), Snapshot())
        && exists items :: watcher.value.prefix == AddedEvents(items) && Enumerates(items, MatchesIn(contents, namespace, options.selector))
    {
      listing := [];
      if options.resourceVersion == "" || options.resourceVersion == "0" {
        return Some(Watcher([], |broadcaster.log|)), listing;
      }
      var found;
      found, listing := List(namespace, options, io);
      if !found.OkList? {
        return None, listing;
      }
      var events: seq<WatchEvent> := [];
      for i := 0 to |found.reports|
        invariant events == AddedEvents(found.reports[..i])
      {
        events := events + [WatchEvent(Added, found.reports[i])];
      }
      assert found.reports[..|found.reports|] == found.reports;
      return Some(Watcher(events, |broadcaster.log|)), listing;
    }
  }
}
