/** What a watcher makes of its stream, over every run of requests. */
module Watchers {
  import opened Storage
  import opened Rest
  import opened RestProperties

  // ----- What the prefix spells -----

  /** The two views hold the same at every place of the namespace. */
  ghost predicate SameIn(namespace: string, a: Reports, b: Reports) {
    forall c :: InNamespace(c, namespace) ==> (c in a <==> c in b) && (c in a ==> a[c] == b[c])
  }

  lemma {:induction false} FoldIsLocal(namespace: string, a: Reports, b: Reports, events: seq<WatchEvent>)
    requires SameIn(namespace, a, b)
    ensures SameIn(namespace, Fold(a, events), Fold(b, events))
  {
    if events != [] {
      FoldIsLocal(namespace, a, b, events[..|events| - 1]);
    }
  }

  lemma {:induction false} FoldAdded(items: seq<Report>)
    requires forall i, j :: 0 <= i < j < |items| ==> CoordOf(items[i]) != CoordOf(items[j])
    ensures var v := Fold(map[], AddedEvents(items));
      && (forall r :: r in items ==> CoordOf(r) in v && v[CoordOf(r)] == r)
      && (forall c :: c in v ==> v[c] in items && CoordOf(v[c]) == c)
  {
    if items != [] {
      var init, last := items[..|items| - 1], items[|items| - 1];
      assert items == init + [last];
      FoldAdded(init);
      assert AddedEvents(items)[..|items| - 1] == AddedEvents(init);
      forall r | r in init ensures CoordOf(r) != CoordOf(last) {
        var i :| 0 <= i < |init| && init[i] == r;
        assert items[i] == r;
      }
    }
  }

  lemma {:induction false} NoSelectorKeepsAll(items: seq<Report>)
    ensures Filtered(items, None) == items
  {
    if items != [] {
      NoSelectorKeepsAll(items[..|items| - 1]);
    }
  }

  /** The prefix of a watcher without a selector spells what the store holds in the namespace. */
  lemma PrefixSpellsStore(cx: Context, st: State)
    requires Valid(st) && ListsStore(cx, st)
    ensures SameIn(cx.namespace, Fold(map[], AddedEvents(cx.listing)), st.reports)
  {
    var items := cx.listing;
    forall i | 0 <= i < |items|
      ensures CoordOf(items[i]) in st.reports && st.reports[CoordOf(items[i])] == items[i]
    {
      assert items[i] in ReportsIn(st.reports, cx.namespace);
    }
    FoldAdded(items);
    var v := Fold(map[], AddedEvents(items));
    forall c | InNamespace(c, cx.namespace) ensures (c in v <==> c in st.reports) && (c in v ==> v[c] == st.reports[c]) {
      if c in st.reports {
        assert st.reports[c] in items;
      }
    }
  }

  /** What a watcher holds once it has folded its stream so far. */
  function View(w: Watcher, st: State): Reports
    requires w.since <= |st.log|
  {
    Fold(map[], Stream(w, st.log))
  }

  lemma ViewGrows(w: Watcher, st: State, st': State)
    requires w.since <= |st.log| && Extends(st.log, st'.log)
    ensures View(w, st') == Fold(View(w, st), Fresh(st, st'))
  {
    FoldAppend(map[], Stream(w, st.log), Fresh(st, st'));
    assert st'.log == st.log + Fresh(st, st');
    assert Stream(w, st'.log) == Stream(w, st.log) + Fresh(st, st');
  }

  /** The events of one request: deletions, or a single event. */
  lemma OneOrDeletes(cx: Context, st: State, q: Request)
    ensures var st' := Handle(cx, st, q).0;
      && Extends(st.log, st'.log)
      && (OnlyDeletes(Fresh(st, st')) || |Fresh(st, st')| == 1)
  {
    var st' := Handle(cx, st, q).0;
    TellsIff(cx, st, q);
    if q.DeleteCollectionReq? {
      var found := HandleList(cx, q.options);
      if found.OkList? && !q.dryRun {
        DeleteEachOnlyDeletes(cx.(io := Later(cx.io, 1)), st, found.reports, q.allows);
      }
    }
  }

  /** A misleading request logs the one event, and the store stays as it was. */
  lemma MisleadingEvent(cx: Context, st: State, q: Request)
    requires Misleads(cx, st, q)
    ensures var st', r := Handle(cx, st, q).0, Forced(cx, st, q).value;
      st'.reports == st.reports && Extends(st.log, st'.log) && Fresh(st, st') == [WatchEvent(Modified, r)]
  {
    FreshOne(st, Handle(cx, st, q).0, WatchEvent(Modified, Forced(cx, st, q).value));
  }

  lemma FoldOne(view: Reports, e: WatchEvent)
    ensures Fold(view, [e]) == if e.kind == Deleted then view - {CoordOf(e.report)} else view[CoordOf(e.report) := e.report]
  {
    assert [e][..0] == [];
  }

  // ----- Without a selector: right in the namespace -----

  /** A misleading request whose report is in the namespace. */
  predicate MisleadsIn(namespace: string, cx: Context, st: State, q: Request) {
    Misleads(cx, st, q) && InNamespace(CoordOf(Forced(cx, st, q).value), namespace)
  }

  ghost predicate HonestIn(namespace: string, st: State, calls: seq<Call>) {
    forall i :: 0 <= i < |calls| ==> !MisleadsIn(namespace, calls[i].cx, After(st, calls[..i]), calls[i].request)
  }

  ghost predicate HoldsIn(w: Watcher, st: State, namespace: string) {
    w.since <= |st.log| && SameIn(namespace, View(w, st), st.reports)
  }

  /** The watcher holds what the store holds in the namespace, at the start and after every call. */
  ghost predicate AlwaysHoldsIn(w: Watcher, st: State, calls: seq<Call>, namespace: string) {
    forall n :: 0 <= n <= |calls| ==> HoldsIn(w, After(st, calls[..n]), namespace)
  }

  lemma StepHoldsInIff(w: Watcher, cx: Context, st: State, q: Request, namespace: string)
    requires HoldsIn(w, st, namespace)
    ensures HoldsIn(w, Handle(cx, st, q).0, namespace) <==> !MisleadsIn(namespace, cx, st, q)
  {
    var st' := Handle(cx, st, q).0;
    TellsIff(cx, st, q);
    ViewGrows(w, st, st');
    if Misleads(cx, st, q) {
      MisleadingEvent(cx, st, q);
      FoldOne(View(w, st), Fresh(st, st')[0]);
    } else {
      FoldIsLocal(namespace, View(w, st), st.reports, Fresh(st, st'));
    }
  }

  lemma AlwaysHoldsInSnoc(w: Watcher, st: State, init: seq<Call>, c: Call, namespace: string)
    ensures AlwaysHoldsIn(w, st, init + [c], namespace) <==>
      AlwaysHoldsIn(w, st, init, namespace) && HoldsIn(w, After(st, init + [c]), namespace)
    ensures AlwaysHoldsIn(w, st, init, namespace) ==> HoldsIn(w, After(st, init), namespace)
  {
    var calls := init + [c];
    forall n | 0 <= n <= |init| ensures calls[..n] == init[..n] {
    }
    assert calls[..|calls|] == calls && init[..|init|] == init;
  }

  lemma HonestInSnoc(namespace: string, st: State, init: seq<Call>, c: Call)
    ensures HonestIn(namespace, st, init + [c]) <==>
      HonestIn(namespace, st, init) && !MisleadsIn(namespace, c.cx, After(st, init), c.request)
  {
    var calls := init + [c];
    forall i | 0 <= i < |calls| ensures calls[..i] == if i < |init| then init[..i] else init {
    }
    assert forall i :: 0 <= i < |init| ==> calls[i] == init[i];
    assert calls[|init|] == c;
  }

  lemma {:induction false} RunHoldsInIff(w: Watcher, st: State, calls: seq<Call>, namespace: string)
    requires HoldsIn(w, st, namespace)
    ensures AlwaysHoldsIn(w, st, calls, namespace) <==> HonestIn(namespace, st, calls)
  {
    if calls == [] {
      assert calls[..0] == [];
    } else {
      var init, c := calls[..|calls| - 1], calls[|calls| - 1];
      assert calls == init + [c];
      RunHoldsInIff(w, st, init, namespace);
      AlwaysHoldsInSnoc(w, st, init, c, namespace);
      HonestInSnoc(namespace, st, init, c);
      AfterSnoc(st, init, c);
      if HoldsIn(w, After(st, init), namespace) {
        StepHoldsInIff(w, c.cx, After(st, init), c.request, namespace);
      }
    }
  }

  lemma SameEverywhere(a: Reports, b: Reports)
    requires SameIn("", a, b)
    ensures a == b
  {
    assert forall c :: InNamespace(c, "");
  }

  /** A watcher opened without a selector and with a version other than "" and "0", on
      any namespace, holds after every call exactly what the store holds there, if and
      only if no forced update of the run misleads about that namespace. */
  lemma WatcherHoldsStore(cx: Context, st: State, options: ListOptions, calls: seq<Call>)
    requires Valid(st) && ListsStore(cx, st)
    requires options.selector.None? && options.resourceVersion != "" && options.resourceVersion != "0"
    requires HandleWatch(cx, st, options).Some?
    ensures var w := HandleWatch(cx, st, options).value;
      && (AlwaysHoldsIn(w, st, calls, cx.namespace) <==> HonestIn(cx.namespace, st, calls))
      && (cx.namespace == "" && HonestIn("", st, calls) ==>
            w.since <= |After(st, calls).log| && View(w, After(st, calls)) == After(st, calls).reports)
  {
    var w := HandleWatch(cx, st, options).value;
    NoSelectorKeepsAll(cx.listing);
    PrefixSpellsStore(cx, st);
    assert Stream(w, st.log) == w.prefix;
    RunHoldsInIff(w, st, calls, cx.namespace);
    if cx.namespace == "" && HonestIn("", st, calls) {
      assert calls[..|calls|] == calls;
      assert HoldsIn(w, After(st, calls), "");
      SameEverywhere(View(w, After(st, calls)), After(st, calls).reports);
    }
  }

  /** The condition is needed: from any state, a forced update of a report that is not
      stored leaves such a watcher holding a report the store does not. */
  lemma ForcedUpdateOfMissingMisleads(cx: Context, st: State, u: UpdateRequest, r: Report)
    requires u.force && u.updated(OldReport(cx, st, u.name)) == Updated(Some(ReportObject(r)), false)
    requires CoordOf(r) !in st.reports
    ensures var st' := Handle(cx, st, UpdateReq(u)).0;
      CoordOf(r) !in st'.reports && CoordOf(r) in Fold(st.reports, Fresh(st, st'))
  {
    TellsIff(cx, st, UpdateReq(u));
    var st' := Handle(cx, st, UpdateReq(u)).0;
    FreshOne(st, st', WatchEvent(Modified, Stamped(r, st.version)));
  }

  // ----- With a selector, and outside the namespace -----

  /** `view` holds exactly the reports of `m` in the namespace that match the selector. */
  ghost predicate IsSelection(view: Reports, m: Reports, namespace: string, selector: Selector) {
    forall c :: SelectedAt(view, m, namespace, selector, c)
  }

  predicate SelectedAt(view: Reports, m: Reports, namespace: string, selector: Selector, c: Coord) {
    && (c in view <==> c in m && InNamespace(c, namespace) && Matches(selector, m[c]))
    && (c in view ==> view[c] == m[c])
  }

  /** A deletion, or a report the watcher asked for. */
  predicate Wanted(e: WatchEvent, namespace: string, selector: Selector) {
    e.kind == Deleted || (InNamespace(CoordOf(e.report), namespace) && Matches(selector, e.report))
  }

  ghost predicate AllWanted(events: seq<WatchEvent>, namespace: string, selector: Selector) {
    forall i :: 0 <= i < |events| ==> Wanted(events[i], namespace, selector)
  }

  /** One event keeps a selection right if and only if it is wanted. */
  lemma FoldOneSelection(view: Reports, m: Reports, e: WatchEvent, namespace: string, selector: Selector)
    requires IsSelection(view, m, namespace, selector)
    ensures IsSelection(Fold(view, [e]), Fold(m, [e]), namespace, selector) <==> Wanted(e, namespace, selector)
  {
    FoldOne(view, e);
    FoldOne(m, e);
    var view', m' := Fold(view, [e]), Fold(m, [e]);
    if Wanted(e, namespace, selector) {
      forall c ensures SelectedAt(view', m', namespace, selector, c) {
        assert SelectedAt(view, m, namespace, selector, c);
      }
    } else {
      assert !SelectedAt(view', m', namespace, selector, CoordOf(e.report));
    }
  }

  lemma {:induction false} FoldSelection(view: Reports, m: Reports, events: seq<WatchEvent>, namespace: string, selector: Selector)
    requires IsSelection(view, m, namespace, selector) && AllWanted(events, namespace, selector)
    ensures IsSelection(Fold(view, events), Fold(m, events), namespace, selector)
  {
    if events != [] {
      var init, e := events[..|events| - 1], events[|events| - 1];
      FoldSelection(view, m, init, namespace, selector);
      assert events == init + [e];
      FoldAppend(view, init, [e]);
      FoldAppend(m, init, [e]);
      FoldOneSelection(Fold(view, init), Fold(m, init), e, namespace, selector);
    }
  }

  /** An update the store refused shows, wanted or not. */
  lemma RefusedShows(view: Reports, m: Reports, r: Report, namespace: string, selector: Selector)
    requires !(CoordOf(r) in m && m[CoordOf(r)] == r)
    ensures !IsSelection(Fold(view, [WatchEvent(Modified, r)]), m, namespace, selector)
  {
    FoldOne(view, WatchEvent(Modified, r));
    assert !SelectedAt(Fold(view, [WatchEvent(Modified, r)]), m, namespace, selector, CoordOf(r));
  }

  ghost predicate HoldsSelection(w: Watcher, st: State, namespace: string, selector: Selector) {
    w.since <= |st.log| && IsSelection(View(w, st), st.reports, namespace, selector)
  }

  ghost predicate AlwaysHoldsSelection(w: Watcher, st: State, calls: seq<Call>, namespace: string, selector: Selector) {
    forall n :: 0 <= n <= |calls| ==> HoldsSelection(w, After(st, calls[..n]), namespace, selector)
  }

  /** What was told keeps the view right if and only if it is wanted. */
  lemma TellingStep(w: Watcher, st: State, st': State, namespace: string, selector: Selector)
    requires HoldsSelection(w, st, namespace, selector) && Told(st, st')
    requires OnlyDeletes(Fresh(st, st')) || |Fresh(st, st')| == 1
    ensures HoldsSelection(w, st', namespace, selector) <==> AllWanted(Fresh(st, st'), namespace, selector)
  {
    var events := Fresh(st, st');
    ViewGrows(w, st, st');
    if OnlyDeletes(events) {
      FoldSelection(View(w, st), st.reports, events, namespace, selector);
    } else {
      assert events == [events[0]];
      FoldOneSelection(View(w, st), st.reports, events[0], namespace, selector);
    }
  }

  /** One request keeps the view right if and only if it does not mislead and its events are wanted. */
  lemma StepHoldsSelectionIff(w: Watcher, cx: Context, st: State, q: Request, namespace: string, selector: Selector)
    requires HoldsSelection(w, st, namespace, selector)
    ensures var st' := Handle(cx, st, q).0;
      && Extends(st.log, st'.log)
      && (HoldsSelection(w, st', namespace, selector) <==>
            !Misleads(cx, st, q) && AllWanted(Fresh(st, st'), namespace, selector))
  {
    var st' := Handle(cx, st, q).0;
    TellsIff(cx, st, q);
    OneOrDeletes(cx, st, q);
    if Misleads(cx, st, q) {
      MisleadingEvent(cx, st, q);
      ViewGrows(w, st, st');
      RefusedShows(View(w, st), st.reports, Forced(cx, st, q).value, namespace, selector);
    } else {
      TellingStep(w, st, st', namespace, selector);
    }
  }

  lemma {:induction false} RunHoldsSelectionIff(w: Watcher, st: State, calls: seq<Call>, namespace: string, selector: Selector)
    requires HoldsSelection(w, st, namespace, selector)
    ensures Extends(st.log, After(st, calls).log)
    ensures AlwaysHoldsSelection(w, st, calls, namespace, selector) <==>
      Honest(st, calls) && AllWanted(Fresh(st, After(st, calls)), namespace, selector)
  {
    if calls == [] {
      assert calls[..0] == [];
    } else {
      var init, c := calls[..|calls| - 1], calls[|calls| - 1];
      assert calls == init + [c];
      RunHoldsSelectionIff(w, st, init, namespace, selector);
      HonestSnoc(st, init, c);
      AlwaysSnoc(w, st, init, c, namespace, selector);
      WantedSnoc(st, init, c, namespace, selector);
      if HoldsSelection(w, After(st, init), namespace, selector) {
        StepHoldsSelectionIff(w, c.cx, After(st, init), c.request, namespace, selector);
      }
    }
  }

  lemma WantedSnoc(st: State, init: seq<Call>, c: Call, namespace: string, selector: Selector)
    requires Extends(st.log, After(st, init).log)
    ensures var st1, st' := After(st, init), Handle(c.cx, After(st, init), c.request).0;
      && After(st, init + [c]) == st' && Extends(st.log, st'.log) && Extends(st1.log, st'.log)
      && (AllWanted(Fresh(st, st'), namespace, selector) <==>
            AllWanted(Fresh(st, st1), namespace, selector) && AllWanted(Fresh(st1, st'), namespace, selector))
  {
    var st1, st' := After(st, init), Handle(c.cx, After(st, init), c.request).0;
    AfterSnoc(st, init, c);
    TellsIff(c.cx, st1, c.request);
    FreshSplits(st, st1, st');
    WantedConcat(Fresh(st, st1), Fresh(st1, st'), namespace, selector);
  }

  lemma WantedConcat(a: seq<WatchEvent>, b: seq<WatchEvent>, namespace: string, selector: Selector)
    ensures AllWanted(a + b, namespace, selector) <==> AllWanted(a, namespace, selector) && AllWanted(b, namespace, selector)
  {
    assert forall i :: 0 <= i < |b| ==> (a + b)[|a| + i] == b[i];
    assert forall i :: 0 <= i < |a| ==> (a + b)[i] == a[i];
  }

  lemma AlwaysSnoc(w: Watcher, st: State, init: seq<Call>, c: Call, namespace: string, selector: Selector)
    ensures AlwaysHoldsSelection(w, st, init + [c], namespace, selector) <==>
      AlwaysHoldsSelection(w, st, init, namespace, selector) && HoldsSelection(w, After(st, init + [c]), namespace, selector)
    ensures AlwaysHoldsSelection(w, st, init, namespace, selector) ==> HoldsSelection(w, After(st, init), namespace, selector)
  {
    var calls := init + [c];
    assert calls[..|calls|] == calls && init[..|init|] == init;
    if AlwaysHoldsSelection(w, st, calls, namespace, selector) {
      forall n | 0 <= n <= |init| ensures HoldsSelection(w, After(st, init[..n]), namespace, selector) {
        assert calls[..n] == init[..n];
      }
    }
    if AlwaysHoldsSelection(w, st, init, namespace, selector) && HoldsSelection(w, After(st, calls), namespace, selector) {
      forall n | 0 <= n <= |calls| ensures HoldsSelection(w, After(st, calls[..n]), namespace, selector) {
        assert n <= |init| ==> calls[..n] == init[..n];
      }
    }
  }

  lemma AddedSpellsSelection(m: Reports, fs: seq<Report>, namespace: string, selector: Selector)
    requires forall i, j :: 0 <= i < j < |fs| ==> fs[i] != fs[j]
    requires forall r :: r in fs <==>
      CoordOf(r) in m && m[CoordOf(r)] == r && InNamespace(CoordOf(r), namespace) && Matches(selector, r)
    requires WellFormed(m)
    ensures IsSelection(Fold(map[], AddedEvents(fs)), m, namespace, selector)
  {
    DistinctPlaces(m, fs);
    FoldAdded(fs);
    forall c ensures SelectedAt(Fold(map[], AddedEvents(fs)), m, namespace, selector, c) {
      if c in m {
        assert CoordOf(m[c]) == c;
      }
    }
  }

  lemma PrefixSpellsSelection(cx: Context, st: State, selector: Selector)
    requires Valid(st) && ListsStore(cx, st)
    ensures IsSelection(Fold(map[], AddedEvents(Filtered(cx.listing, selector))), st.reports, cx.namespace, selector)
  {
    var m, fs := st.reports, Filtered(cx.listing, selector);
    FilteredSelects(cx.listing, selector);
    forall r ensures r in ReportsIn(m, cx.namespace) <==>
      CoordOf(r) in m && m[CoordOf(r)] == r && InNamespace(CoordOf(r), cx.namespace)
    {
    }
    AddedSpellsSelection(m, fs, cx.namespace, selector);
  }

  /** For every namespace and selector: a watcher opened with a version other than "" and
      "0" holds after every call exactly the reports it asked for, if and only if no
      forced update misleads and every event since, deletions aside, carries such a report. */
  lemma WatcherHoldsSelectionIff(cx: Context, st: State, options: ListOptions, calls: seq<Call>)
    requires Valid(st) && ListsStore(cx, st)
    requires options.resourceVersion != "" && options.resourceVersion != "0" && HandleWatch(cx, st, options).Some?
    ensures var w, st' := HandleWatch(cx, st, options).value, After(st, calls);
      && w.since <= |st'.log|
      && (AlwaysHoldsSelection(w, st, calls, cx.namespace, options.selector) <==>
            Honest(st, calls) && AllWanted(st'.log[w.since..], cx.namespace, options.selector))
  {
    var w := HandleWatch(cx, st, options).value;
    PrefixSpellsSelection(cx, st, options.selector);
    assert Stream(w, st.log) == w.prefix;
    RunHoldsSelectionIff(w, st, calls, cx.namespace, options.selector);
  }

  // ----- Where it goes wrong -----

  function Up(): Calls {
    (i: nat) => ALL_UP
  }

  /** A create of `r` as it stands, under its own namespace. */
  function CreateCall(r: Report): Call {
    Call(Context(PolicyReports, r.namespace, Up(), []),
         CreateReq(CreateRequest(ReportObject(r), false, "", false, "", "", 0)))
  }

  /** An update of `r` to `r'`, not forced. */
  function UpdateCall(r: Report, r': Report): Call {
    Call(Context(PolicyReports, r.namespace, Up(), []),
         UpdateReq(UpdateRequest(r.name, _ => Updated(Some(ReportObject(r')), false), false, "", false, false)))
  }

  /** The watcher holds the report of an unwanted event, and so not what it asked for. */
  lemma UnwantedShows(w: Watcher, c: Call, st: State, e: WatchEvent, namespace: string, selector: Selector)
    requires HoldsSelection(w, st, namespace, selector)
    requires Handle(c.cx, st, c.request).0.log == st.log + [e] && !Wanted(e, namespace, selector)
    ensures var st' := After(st, [c]);
      && w.since <= |st'.log| && CoordOf(e.report) in View(w, st') && !HoldsSelection(w, st', namespace, selector)
  {
    AfterSnoc(st, [], c);
    assert [] + [c] == [c];
    var st' := After(st, [c]);
    FreshOne(st, st', e);
    StepHoldsSelectionIff(w, c.cx, st, c.request, namespace, selector);
    ViewGrows(w, st, st');
    FoldOne(View(w, st), e);
  }

  /** Whatever a watcher of one namespace holds, a report created in another one is added to it. */
  lemma OtherNamespaceShows(w: Watcher, st: State, r: Report, namespace: string, selector: Selector)
    requires HoldsSelection(w, st, namespace, selector)
    requires namespace != "" && r.namespace != "" && r.namespace != namespace && r.name != "" && CoordOf(r) !in st.reports
    ensures var st' := After(st, [CreateCall(r)]);
      && w.since <= |st'.log| && CoordOf(r) in View(w, st') && !HoldsSelection(w, st', namespace, selector)
  {
    var c := CreateCall(r);
    var st' := HandleCreate(c.cx, st, c.request.create).0;
    assert st'.log == st.log + [st'.log[|st.log|]];
    UnwantedShows(w, c, st, st'.log[|st.log|], namespace, selector);
  }

  /** A report that an update takes out of the selection stays in the watcher's view. */
  lemma UnselectedReportStays(w: Watcher, st: State, r: Report, labels: map<string, string>, namespace: string, selector: Selector)
    requires HoldsSelection(w, st, namespace, selector)
    requires CoordOf(r) in View(w, st) && r.namespace != "" && !Matches(selector, r.(labels := labels))
    ensures var st' := After(st, [UpdateCall(r, r.(labels := labels))]);
      && w.since <= |st'.log| && CoordOf(r) in View(w, st') && !HoldsSelection(w, st', namespace, selector)
  {
    assert SelectedAt(View(w, st), st.reports, namespace, selector, CoordOf(r));
    var c := UpdateCall(r, r.(labels := labels));
    var st' := HandleUpdate(c.cx, st, c.request.update).0;
    assert st'.log == st.log + [st'.log[|st.log|]];
    UnwantedShows(w, c, st, st'.log[|st.log|], namespace, selector);
  }
}
