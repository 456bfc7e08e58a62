/** What the request handlers keep, over every request and every run of requests. */
module RestProperties {
  import opened Storage
  import opened Rest

  // ----- The log only grows, and each request appends what it did -----

  ghost predicate Extends(log: seq<WatchEvent>, log': seq<WatchEvent>) {
    |log| <= |log'| && log'[..|log|] == log
  }

  function Fresh(st: State, st': State): seq<WatchEvent>
    requires |st.log| <= |st'.log|
  {
    st'.log[|st.log|..]
  }

  /** What a watcher makes of a stream: set on Added and Modified, remove on Deleted. */
  function Fold(view: Reports, events: seq<WatchEvent>): Reports {
    if events == [] then view
    else
      var v, e := Fold(view, events[..|events| - 1]), events[|events| - 1];
      if e.kind == Deleted then v - {CoordOf(e.report)} else v[CoordOf(e.report) := e.report]
  }

  lemma {:induction false} FoldAppend(view: Reports, a: seq<WatchEvent>, b: seq<WatchEvent>)
    ensures Fold(view, a + b) == Fold(Fold(view, a), b)
  {
    if b == [] {
      assert a + b == a;
    } else {
      var init := b[..|b| - 1];
      assert (a + b)[..|a + b| - 1] == a + init;
      FoldAppend(view, a, init);
    }
  }

  /** The log grew and every report it now carries tells what happened to the store. */
  ghost predicate Told(st: State, st': State) {
    Extends(st.log, st'.log) && st'.reports == Fold(st.reports, Fresh(st, st'))
  }

  lemma ToldNothing(st: State, st': State)
    requires st'.log == st.log && st'.reports == st.reports
    ensures Told(st, st')
  {
    assert Fresh(st, st') == [];
  }

  lemma FreshOne(st: State, st': State, e: WatchEvent)
    requires st'.log == st.log + [e]
    ensures Extends(st.log, st'.log) && Fresh(st, st') == [e]
    ensures Fold(st.reports, Fresh(st, st'))
         == if e.kind == Deleted then st.reports - {CoordOf(e.report)} else st.reports[CoordOf(e.report) := e.report]
  {
    assert Fresh(st, st')[..0] == [];
  }

  lemma FreshSplits(a: State, b: State, c: State)
    requires Extends(a.log, b.log) && Extends(b.log, c.log)
    ensures Extends(a.log, c.log) && Fresh(a, c) == Fresh(a, b) + Fresh(b, c)
  {
    assert c.log[..|a.log|] == c.log[..|b.log|][..|a.log|];
  }

  lemma ToldTrans(a: State, b: State, c: State)
    requires Told(a, b) && Told(b, c)
    ensures Told(a, c)
  {
    FoldAppend(a.reports, Fresh(a, b), Fresh(b, c));
    FreshSplits(a, b, c);
  }

  // ----- Create, delete and delete-collection always tell; a forced update may not -----

  lemma CreateTells(cx: Context, st: State, q: CreateRequest)
    ensures Told(st, HandleCreate(cx, st, q).0)
  {
    var st' := HandleCreate(cx, st, q).0;
    if st'.log == st.log {
      ToldNothing(st, st');
    } else {
      FreshOne(st, st', st'.log[|st.log|]);
    }
  }

  lemma DeleteTells(cx: Context, st: State, q: DeleteRequest)
    ensures Told(st, HandleDelete(cx, st, q).0)
  {
    var st' := HandleDelete(cx, st, q).0;
    if st'.log == st.log {
      ToldNothing(st, st');
    } else {
      FreshOne(st, st', st'.log[|st.log|]);
    }
  }

  lemma {:induction false} DeleteEachTells(cx: Context, st: State, items: seq<Report>, allows: Report -> bool)
    ensures Told(st, DeleteEach(cx, st, items, allows).0)
    decreases |items|
  {
    if items == [] {
      ToldNothing(st, st);
    } else {
      var q := DeleteRequest(items[0].name, allows, false);
      var (st1, answer) := HandleDelete(cx, st, q);
      DeleteTells(cx, st, q);
      if answer.Ok? {
        DeleteEachTells(cx.(io := Later(cx.io, 2)), st1, items[1..], allows);
        ToldTrans(st, st1, DeleteEach(cx, st, items, allows).0);
      }
    }
  }

  ghost predicate OnlyDeletes(events: seq<WatchEvent>) {
    forall i :: 0 <= i < |events| ==> events[i].kind == Deleted
  }

  lemma {:induction false} DeleteEachOnlyDeletes(cx: Context, st: State, items: seq<Report>, allows: Report -> bool)
    ensures var st' := DeleteEach(cx, st, items, allows).0;
      st'.version == st.version && Extends(st.log, st'.log) && OnlyDeletes(Fresh(st, st'))
    decreases |items|
  {
    if items != [] {
      var (st1, answer) := HandleDelete(cx, st, DeleteRequest(items[0].name, allows, false));
      if answer.Ok? {
        var st' := DeleteEach(cx, st, items, allows).0;
        FreshOne(st, st1, st1.log[|st.log|]);
        DeleteEachOnlyDeletes(cx.(io := Later(cx.io, 2)), st1, items[1..], allows);
        FreshSplits(st, st1, st');
      }
    }
  }

  /** The report a forced update broadcasts, if it gets that far. */
  function Forced(cx: Context, st: State, q: Request): Option<Report> {
    if q.UpdateReq? && q.update.force then
      var u := q.update.updated(OldReport(cx, st, q.update.name));
      if u.obj.Some? && u.obj.value.ReportObject? then Some(Stamped(u.obj.value.report, st.version)) else None
    else None
  }

  /** A forced update that the store refuses, of a report the store does not already hold as it is. */
  predicate Misleads(cx: Context, st: State, q: Request) {
    var r := Forced(cx, st, q);
    && r.Some?
    && !Succeeds(st.reports, Update(r.value), cx.io(1))
    && !(CoordOf(r.value) in st.reports && st.reports[CoordOf(r.value)] == r.value)
  }

  /** Exactly when a request's events tell what it did to the store. */
  lemma TellsIff(cx: Context, st: State, q: Request)
    ensures Extends(st.log, Handle(cx, st, q).0.log)
    ensures Told(st, Handle(cx, st, q).0) <==> !Misleads(cx, st, q)
  {
    var st' := Handle(cx, st, q).0;
    match q
    case CreateReq(c) => CreateTells(cx, st, c);
    case DeleteReq(d) => DeleteTells(cx, st, d);
    case DeleteCollectionReq(allows, dryRun, options) =>
      var found := HandleList(cx, options);
      if found.OkList? && !dryRun {
        DeleteEachTells(cx.(io := Later(cx.io, 1)), st, found.reports, allows);
      } else {
        ToldNothing(st, st');
      }
    case UpdateReq(u) =>
      if st'.log == st.log {
        ToldNothing(st, st');
      } else {
        FreshOne(st, st', st'.log[|st.log|]);
      }
  }

  // ----- Runs -----

  datatype Call = Call(cx: Context, request: Request)

  function After(st: State, calls: seq<Call>): State {
    if calls == [] then st
    else
      var c := calls[|calls| - 1];
      Handle(c.cx, After(st, calls[..|calls| - 1]), c.request).0
  }

  /** No call of the run is a misleading forced update. */
  ghost predicate Honest(st: State, calls: seq<Call>) {
    forall i :: 0 <= i < |calls| ==> !Misleads(calls[i].cx, After(st, calls[..i]), calls[i].request)
  }

  lemma HonestSnoc(st: State, init: seq<Call>, c: Call)
    ensures Honest(st, init + [c]) <==> Honest(st, init) && !Misleads(c.cx, After(st, init), c.request)
  {
    var calls := init + [c];
    forall i | 0 <= i < |calls| ensures calls[..i] == if i < |init| then init[..i] else init {
    }
    assert forall i :: 0 <= i < |init| ==> calls[i] == init[i];
    assert calls[|init|] == c;
  }

  lemma AfterSnoc(st: State, init: seq<Call>, c: Call)
    ensures After(st, init + [c]) == Handle(c.cx, After(st, init), c.request).0
  {
    assert (init + [c])[..|init|] == init;
  }

  lemma {:induction false} RunTells(st: State, calls: seq<Call>)
    requires Honest(st, calls)
    ensures Told(st, After(st, calls))
  {
    if calls == [] {
      ToldNothing(st, st);
    } else {
      var init, c := calls[..|calls| - 1], calls[|calls| - 1];
      assert calls == init + [c];
      HonestSnoc(st, init, c);
      RunTells(st, init);
      TellsIff(c.cx, After(st, init), c.request);
      ToldTrans(st, After(st, init), After(st, calls));
    }
  }

  // ----- Dry runs -----

  predicate DryRun(q: Request) {
    match q
    case CreateReq(c) => c.dryRun
    case UpdateReq(u) => u.dryRun && !u.force
    case DeleteReq(d) => d.dryRun
    case DeleteCollectionReq(_, dryRun, _) => dryRun
  }

  /** A dry run leaves the store, the counter and the log as they are, and a forced
      update does the same with and without the dry-run flag. */
  lemma DryRunChangesNothing(cx: Context, st: State, q: Request)
    ensures DryRun(q) ==> Handle(cx, st, q).0 == st
    ensures q.UpdateReq? && q.update.force ==>
      Handle(cx, st, q) == Handle(cx, st, UpdateReq(q.update.(dryRun := !q.update.dryRun)))
  {
  }

  function WetCalls(calls: seq<Call>): seq<Call> {
    if calls == [] then []
    else
      var c := calls[|calls| - 1];
      WetCalls(calls[..|calls| - 1]) + (if DryRun(c.request) then [] else [c])
  }

  /** Dropping every dry run from a run of requests ends in the same state. */
  lemma {:induction false} DryRunsCanBeDropped(st: State, calls: seq<Call>)
    ensures After(st, WetCalls(calls)) == After(st, calls)
  {
    if calls != [] {
      var init, c := calls[..|calls| - 1], calls[|calls| - 1];
      DryRunsCanBeDropped(st, init);
      DryRunChangesNothing(c.cx, After(st, init), c.request);
      if DryRun(c.request) {
        assert WetCalls(calls) == WetCalls(init);
      } else {
        assert (WetCalls(init) + [c])[..|WetCalls(init)|] == WetCalls(init);
      }
    }
  }

  // ----- Every request keeps reports at their own places -----

  lemma HandleKeepsValid(cx: Context, st: State, q: Request)
    requires Valid(st)
    ensures Valid(Handle(cx, st, q).0)
  {
    if q.DeleteCollectionReq? {
      var found := HandleList(cx, q.options);
      if found.OkList? && !q.dryRun {
        DeleteEachKeepsValid(cx.(io := Later(cx.io, 1)), st, found.reports, q.allows);
      }
    }
  }

  /** So do all requests of a run: every reachable state is valid. */
  lemma {:induction false} RunKeepsValid(st: State, calls: seq<Call>)
    requires Valid(st)
    ensures Valid(After(st, calls))
  {
    if calls != [] {
      var init, c := calls[..|calls| - 1], calls[|calls| - 1];
      RunKeepsValid(st, init);
      HandleKeepsValid(c.cx, After(st, init), c.request);
    }
  }

  lemma {:induction false} DeleteEachKeepsValid(cx: Context, st: State, items: seq<Report>, allows: Report -> bool)
    requires Valid(st)
    ensures Valid(DeleteEach(cx, st, items, allows).0)
    decreases |items|
  {
    if items != [] {
      var (st1, answer) := HandleDelete(cx, st, DeleteRequest(items[0].name, allows, false));
      if answer.Ok? {
        DeleteEachKeepsValid(cx.(io := Later(cx.io, 2)), st1, items[1..], allows);
      }
    }
  }

  // ----- DeleteCollection -----

  /** The delete of the i-th item goes through: both store calls come back and the validation allows it. */
  predicate GoesThrough(io: Calls, items: seq<Report>, allows: Report -> bool, i: nat)
    requires i < |items|
  {
    io(2 * i).read && allows(items[i]) && io(2 * i + 1).write
  }

  /** `k` items go through and the next, if there is one, does not. */
  ghost predicate StopsAfter(io: Calls, items: seq<Report>, allows: Report -> bool, k: nat) {
    && k <= |items|
    && (forall i :: 0 <= i < k ==> GoesThrough(io, items, allows, i))
    && (k < |items| ==> !GoesThrough(io, items, allows, k))
  }

  function DeletedEvents(items: seq<Report>): seq<WatchEvent> {
    seq(|items|, i requires 0 <= i < |items| => WatchEvent(Deleted, items[i]))
  }

  ghost function Places(items: seq<Report>): set<Coord> {
    set r | r in items :: CoordOf(r)
  }

  /** The items are stored reports of the request's namespace, no two at one place. */
  ghost predicate Deletable(cx: Context, m: Reports, items: seq<Report>) {
    && (forall r :: r in items ==> CoordOf(r) in m && m[CoordOf(r)] == r && r.namespace == cx.namespace)
    && (forall i, j :: 0 <= i < j < |items| ==> CoordOf(items[i]) != CoordOf(items[j]))
  }

  /** The delete of a stored report of the request's namespace. */
  lemma DeleteOne(cx: Context, st: State, r: Report, allows: Report -> bool)
    requires CoordOf(r) in st.reports && st.reports[CoordOf(r)] == r && r.namespace == cx.namespace
    ensures HandleDelete(cx, st, DeleteRequest(r.name, allows, false)) ==
      if cx.io(0).read && allows(r) && cx.io(1).write
      then (st.(reports := st.reports - {CoordOf(r)}, log := st.log + [WatchEvent(Deleted, r)]), Ok(r))
      else (st, Error(if cx.io(0).read then BadRequest else NotFoundStatus))
  {
  }

  lemma RestDeletable(cx: Context, m: Reports, items: seq<Report>, io: Calls)
    requires Deletable(cx, m, items) && items != []
    ensures Deletable(cx.(io := io), m - {CoordOf(items[0])}, items[1..])
  {
    forall r | r in items[1..] ensures CoordOf(r) != CoordOf(items[0]) && r in items {
      var i :| 0 <= i < |items[1..]| && items[1..][i] == r;
      assert items[i + 1] == r;
    }
  }

  /** `items` gone from the store, each with its event. */
  ghost function Without(st: State, items: seq<Report>): State {
    st.(reports := st.reports - Places(items), log := st.log + DeletedEvents(items))
  }

  lemma WithoutNone(st: State)
    ensures Without(st, []) == st
  {
    assert Places([]) == {} && st.log + DeletedEvents([]) == st.log;
  }

  lemma WithoutCons(st: State, r: Report, rest: seq<Report>)
    ensures Without(st, [r] + rest)
         == Without(st.(reports := st.reports - {CoordOf(r)}, log := st.log + [WatchEvent(Deleted, r)]), rest)
  {
    assert Places([r] + rest) == {CoordOf(r)} + Places(rest);
    assert st.reports - Places([r] + rest) == st.reports - {CoordOf(r)} - Places(rest);
    assert st.log + DeletedEvents([r] + rest) == st.log + [WatchEvent(Deleted, r)] + DeletedEvents(rest);
  }

  lemma {:induction false} DeleteEachExact(cx: Context, st: State, items: seq<Report>, allows: Report -> bool, k: nat)
    requires Deletable(cx, st.reports, items) && StopsAfter(cx.io, items, allows, k)
    ensures DeleteEach(cx, st, items, allows) == (Without(st, items[..k]), k == |items|)
    decreases |items|
  {
    if k == 0 {
      WithoutNone(st);
    }
    if items != [] {
      var head, rest := items[0], items[1..];
      assert head in items;
      DeleteOne(cx, st, head, allows);
      assert GoesThrough(cx.io, items, allows, 0) <==> k > 0;
      if k > 0 {
        var st1 := HandleDelete(cx, st, DeleteRequest(head.name, allows, false)).0;
        RestStops(cx.io, items, allows, k);
        RestDeletable(cx, st.reports, items, Later(cx.io, 2));
        DeleteEachExact(cx.(io := Later(cx.io, 2)), st1, rest, allows, k - 1);
        assert items[..k] == [head] + rest[..k - 1];
        WithoutCons(st, head, rest[..k - 1]);
      }
    }
  }

  lemma RestStops(io: Calls, items: seq<Report>, allows: Report -> bool, k: nat)
    requires StopsAfter(io, items, allows, k) && 0 < k
    ensures StopsAfter(Later(io, 2), items[1..], allows, k - 1)
  {
    forall i | 0 <= i < |items| - 1
      ensures GoesThrough(Later(io, 2), items[1..], allows, i) <==> GoesThrough(io, items, allows, i + 1)
    {
      assert 2 * (i + 1) == 2 * i + 2 && 2 * (i + 1) + 1 == 2 * i + 1 + 2;
    }
  }

  /** `fs` has exactly the items that match, each once. */
  ghost predicate MatchesOf(fs: seq<Report>, items: seq<Report>, selector: Selector) {
    && (forall i, j :: 0 <= i < j < |fs| ==> fs[i] != fs[j])
    && (forall x :: x in fs <==> x in items && Matches(selector, x))
  }

  lemma {:induction false} FilteredSelects(items: seq<Report>, selector: Selector)
    requires forall i, j :: 0 <= i < j < |items| ==> items[i] != items[j]
    ensures MatchesOf(Filtered(items, selector), items, selector)
  {
    if items != [] {
      var init, last := items[..|items| - 1], items[|items| - 1];
      assert items == init + [last];
      assert last !in init;
      FilteredSelects(init, selector);
    }
  }

  lemma DistinctPlaces(m: Reports, items: seq<Report>)
    requires forall i, j :: 0 <= i < j < |items| ==> items[i] != items[j]
    requires forall i :: 0 <= i < |items| ==> CoordOf(items[i]) in m && m[CoordOf(items[i])] == items[i]
    ensures forall i, j :: 0 <= i < j < |items| ==> CoordOf(items[i]) != CoordOf(items[j])
  {
    forall i, j | 0 <= i < j < |items| ensures CoordOf(items[i]) != CoordOf(items[j]) {
      assert m[CoordOf(items[i])] == items[i] && m[CoordOf(items[j])] == items[j];
    }
  }

  /** What a list finds is fit to be deleted, in a namespace or for a kind without namespaces. */
  lemma FoundIsDeletable(cx: Context, st: State, selector: Selector)
    requires Valid(st) && ListsStore(cx, st)
    requires cx.namespace != "" || forall c :: c in st.reports ==> c.namespace == ""
    ensures Deletable(cx, st.reports, Filtered(cx.listing, selector))
  {
    FilteredSelects(cx.listing, selector);
    var fs := Filtered(cx.listing, selector);
    forall r | r in fs ensures CoordOf(r) in st.reports && st.reports[CoordOf(r)] == r && r.namespace == cx.namespace {
      assert r in ReportsIn(st.reports, cx.namespace);
    }
    DistinctPlaces(st.reports, fs);
  }

  /** A delete-collection that is not a dry run removes the listed matches up to the
      first that does not go through, logs exactly those, and succeeds if and only if all do. */
  lemma DeleteCollectionExact(cx: Context, st: State, allows: Report -> bool, options: ListOptions, k: nat)
    requires Valid(st) && ListsStore(cx, st)
    requires cx.namespace != "" || forall c :: c in st.reports ==> c.namespace == ""
    requires HandleList(cx, options).OkList?
    requires StopsAfter(Later(cx.io, 1), Filtered(cx.listing, options.selector), allows, k)
    ensures var items := Filtered(cx.listing, options.selector);
      var (st', answer) := Handle(cx, st, DeleteCollectionReq(allows, false, options));
      && st' == Without(st, items[..k])
      && answer == (if k == |items| then OkList(items) else Error(BadRequest))
  {
    FoundIsDeletable(cx, st, options.selector);
    DeleteEachExact(cx.(io := Later(cx.io, 1)), st, Filtered(cx.listing, options.selector), allows, k);
  }

  lemma {:induction false} StopExists(io: Calls, items: seq<Report>, allows: Report -> bool, from: nat) returns (k: nat)
    requires from <= |items| && forall i :: 0 <= i < from ==> GoesThrough(io, items, allows, i)
    ensures StopsAfter(io, items, allows, k)
    decreases |items| - from
  {
    if from < |items| && GoesThrough(io, items, allows, from) {
      k := StopExists(io, items, allows, from + 1);
    } else {
      k := from;
    }
  }

  /** A successful one removes exactly the reports of the namespace that match the selector. */
  lemma DeleteCollectionRemovesMatches(cx: Context, st: State, allows: Report -> bool, options: ListOptions)
    requires Valid(st) && ListsStore(cx, st)
    requires cx.namespace != "" || forall c :: c in st.reports ==> c.namespace == ""
    requires Handle(cx, st, DeleteCollectionReq(allows, false, options)).1.OkList?
    ensures Handle(cx, st, DeleteCollectionReq(allows, false, options)).0.reports
         == map c | c in st.reports && !(InNamespace(c, cx.namespace) && Matches(options.selector, st.reports[c])) :: st.reports[c]
  {
    var items := Filtered(cx.listing, options.selector);
    var k := StopExists(Later(cx.io, 1), items, allows, 0);
    DeleteCollectionExact(cx, st, allows, options, k);
    FilteredSelects(cx.listing, options.selector);
    assert items[..k] == items;
    forall c | c in st.reports
      ensures c in Places(items) <==> InNamespace(c, cx.namespace) && Matches(options.selector, st.reports[c])
    {
      var r := st.reports[c];
      assert r in items ==> r in ReportsIn(st.reports, cx.namespace);
      assert InNamespace(c, cx.namespace) ==> r in cx.listing;
      if c in Places(items) {
        var r' :| r' in items && CoordOf(r') == c;
        assert r' in ReportsIn(st.reports, cx.namespace);
      }
    }
  }

  /** Asked for all namespaces at once, a namespaced kind's delete-collection looks for
      each listed name outside any namespace. With no report there it deletes nothing,
      and succeeds if and only if nothing matches. */
  lemma DeleteAllNamespacesFails(cx: Context, st: State, allows: Report -> bool, options: ListOptions)
    requires Valid(st) && ListsStore(cx, st) && cx.namespace == ""
    requires forall c :: c in st.reports ==> c.namespace != ""
    requires HandleList(cx, options).OkList?
    ensures var (st', answer) := Handle(cx, st, DeleteCollectionReq(allows, false, options));
      && st' == st
      && (answer.OkList? <==> forall c :: c in st.reports ==> !Matches(options.selector, st.reports[c]))
  {
    FilteredSelects(cx.listing, options.selector);
    var items := Filtered(cx.listing, options.selector);
    if items == [] {
      forall c | c in st.reports ensures !Matches(options.selector, st.reports[c]) {
        assert st.reports[c] in cx.listing;
      }
    } else {
      var r := items[0];
      assert r in items;
      assert r in ReportsIn(st.reports, "");
      assert Matches(options.selector, st.reports[CoordOf(r)]);
    }
  }
}
