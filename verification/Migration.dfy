/** Start-up migration: reports served by the cluster before are copied into the stores,
    live watchers carry over what changes later, and the counter is moved past the
    versions of the lists. */
module Migration {
  import opened Storage
  import opened EtcdKeys
  import opened EtcdStore
  import opened Decimal
  import Versioning
  import opened Rest
  import opened RestHandlers

  // ----- The copy loop -----

  /** Copies the reports that are not yet served by this server, marked, and stops at
      the first the store refuses. `io` is indexed by the position in the list. */
  function Copy(m: Reports, items: seq<Report>, io: Calls): (Reports, bool) {
    if items == [] then (m, true)
    else
      var (m1, ok) := Copy(m, items[..|items| - 1], io);
      var r := items[|items| - 1];
      if !ok || IsServed(r) then (m1, ok)
      else (Next(m1, Create(Labelled(r)), io(|items| - 1)), Succeeds(m1, Create(Labelled(r)), io(|items| - 1)))
  }

  /** Position `i` holds a report to copy whose place is free, and the store is up. */
  ghost predicate Copyable(m: Reports, items: seq<Report>, io: Calls, i: nat)
    requires i < |items|
  {
    && CoordOf(items[i]) !in m && io(i).read && io(i).write
    && forall j :: 0 <= j < i && !IsServed(items[j]) ==> CoordOf(items[j]) != CoordOf(items[i])
  }

  ghost predicate AllCopyable(m: Reports, items: seq<Report>, io: Calls) {
    forall i :: 0 <= i < |items| && !IsServed(items[i]) ==> Copyable(m, items, io, i)
  }

  /** `m'` is `m` and marked copies of exactly the unserved items. */
  ghost predicate PlusCopies(m: Reports, items: seq<Report>, m': Reports) {
    && (forall c :: c in m ==> c in m' && m'[c] == m[c])
    && (forall i :: 0 <= i < |items| && !IsServed(items[i]) ==>
         CoordOf(items[i]) in m' && m'[CoordOf(items[i])] == Labelled(items[i]))
    && (forall c :: c in m' ==> c in m || exists i :: 0 <= i < |items| && !IsServed(items[i]) && CoordOf(items[i]) == c)
  }

  /** The loop succeeds if and only if the unserved items are at pairwise distinct free
      places and the store stays up; then it has added exactly their marked copies. */
  lemma {:induction false} CopyExact(m: Reports, items: seq<Report>, io: Calls)
    ensures Copy(m, items, io).1 <==> AllCopyable(m, items, io)
    ensures Copy(m, items, io).1 ==> PlusCopies(m, items, Copy(m, items, io).0)
  {
    if items != [] {
      var n := |items| - 1;
      var init, r := items[..n], items[n];
      CopyExact(m, init, io);
      assert items == init + [r];
      InitCopyable(m, init, r, io);
      var (m1, ok) := Copy(m, init, io);
      if ok && !IsServed(r) {
        PlaceTaken(m, init, m1, CoordOf(r));
        if Copy(m, items, io).1 {
          PlusOne(m, init, r, m1);
        }
      } else if ok {
        PlusNone(m, init, r, m1);
      }
    }
  }

  lemma InitCopyable(m: Reports, init: seq<Report>, r: Report, io: Calls)
    ensures AllCopyable(m, init + [r], io)
       <==> AllCopyable(m, init, io) && (!IsServed(r) ==> Copyable(m, init + [r], io, |init|))
  {
    assert forall i :: 0 <= i < |init| ==> (init + [r])[i] == init[i];
    assert forall i :: 0 <= i < |init| && Copyable(m, init + [r], io, i) ==> Copyable(m, init, io, i);
  }

  lemma PlaceTaken(m: Reports, init: seq<Report>, m1: Reports, c: Coord)
    requires PlusCopies(m, init, m1)
    ensures c in m1 <==> c in m || exists j :: 0 <= j < |init| && !IsServed(init[j]) && CoordOf(init[j]) == c
  {
  }

  lemma PlusOne(m: Reports, init: seq<Report>, r: Report, m1: Reports)
    requires PlusCopies(m, init, m1) && !IsServed(r) && CoordOf(r) !in m1
    ensures PlusCopies(m, init + [r], m1[CoordOf(r) := Labelled(r)])
  {
    var items, m' := init + [r], m1[CoordOf(r) := Labelled(r)];
    forall c | c in m' ensures c in m || exists i :: 0 <= i < |items| && !IsServed(items[i]) && CoordOf(items[i]) == c {
      if c == CoordOf(r) {
        assert items[|init|] == r;
      } else if c !in m {
        var i :| 0 <= i < |init| && !IsServed(init[i]) && CoordOf(init[i]) == c;
        assert items[i] == init[i];
      }
    }
  }

  lemma PlusNone(m: Reports, init: seq<Report>, r: Report, m1: Reports)
    requires PlusCopies(m, init, m1) && IsServed(r)
    ensures PlusCopies(m, init + [r], m1)
  {
    var items := init + [r];
    forall c | c in m1 ensures c in m || exists i :: 0 <= i < |items| && !IsServed(items[i]) && CoordOf(items[i]) == c {
      if c !in m {
        var i :| 0 <= i < |init| && !IsServed(init[i]) && CoordOf(init[i]) == c;
        assert items[i] == init[i];
      }
    }
  }

  /** On failure the loop stopped at an item it could not copy, and exactly the unserved
      items before it were added. */
  lemma {:induction false} CopyFailure(m: Reports, items: seq<Report>, io: Calls) returns (k: nat)
    requires !Copy(m, items, io).1
    ensures k < |items| && !IsServed(items[k]) && !Copyable(m, items, io, k)
    ensures AllCopyable(m, items[..k], io) && PlusCopies(m, items[..k], Copy(m, items, io).0)
  {
    var n := |items| - 1;
    var init := items[..n];
    var (m1, ok) := Copy(m, init, io);
    if !ok {
      k := CopyFailure(m, init, io);
      assert items[..k] == init[..k];
      assert Copyable(m, items, io, k) == Copyable(m, init, io, k);
    } else {
      k := n;
      CopyExact(m, init, io);
      CopyExact(m, items, io);
      assert items == init + [items[n]];
      InitCopyable(m, init, items[n], io);
    }
  }

  /** Whatever another store held, it still holds. */
  ghost predicate Undisturbed(w: Wiring, k: Kind, kv: KeyValues, kv': KeyValues) {
    forall k', m' :: k' != k && IsView(kv, w(k'), m') ==> IsView(kv', w(k'), m')
  }

  lemma StepUndisturbing(w: Wiring, k: Kind, kv: KeyValues, op: Op, io: Io)
    requires PrefixFree(w)
    ensures Undisturbed(w, k, kv, FlatNext(kv, w(k), op, io))
  {
    forall k', m' | k' != k && IsView(kv, w(k'), m') ensures IsView(FlatNext(kv, w(k), op, io), w(k'), m') {
      OtherStep(w, kv, k', m', k, op, io);
    }
  }

  /** One turn of the loop, on the keyspace, is one more item of Copy. */
  lemma CopyOne(w: Wiring, k: Kind, kv: KeyValues, m: Reports, items: seq<Report>, io: Calls, i: nat)
    requires PrefixFree(w) && i < |items| && SlashFree(items[i].name) && SlashFree(items[i].namespace)
    requires Copy(m, items[..i], io).1 && IsView(kv, w(k), Copy(m, items[..i], io).0) && !IsServed(items[i])
    ensures var kv' := FlatNext(kv, w(k), Create(Labelled(items[i])), io(i));
      IsView(kv', w(k), Copy(m, items[..i + 1], io).0) && Undisturbed(w, k, kv, kv')
  {
    assert items[..i + 1][..i] == items[..i];
    OwnStep(kv, w(k), Copy(m, items[..i], io).0, Create(Labelled(items[i])), io(i));
    StepUndisturbing(w, k, kv, Create(Labelled(items[i])), io(i));
  }

  lemma CopyOneAnswer(w: Wiring, k: Kind, kv: KeyValues, m: Reports, items: seq<Report>, io: Calls, i: nat, a: Answer)
    requires i < |items| && SlashFree(items[i].name) && SlashFree(items[i].namespace)
    requires Copy(m, items[..i], io).1 && IsView(kv, w(k), Copy(m, items[..i], io).0) && !IsServed(items[i])
    requires FlatAnswers(kv, w(k), Create(Labelled(items[i])), io(i), a)
    ensures a.Failed? <==> !Copy(m, items[..i + 1], io).1
  {
    var m1 := Copy(m, items[..i], io).0;
    assert items[..i + 1][..i] == items[..i];
    AnswersRefine(kv, w(k), m1, Create(Labelled(items[i])), io(i), a);
    SucceedsIffDone(m1, Create(Labelled(items[i])), io(i), a);
  }

  lemma UndisturbedTwice(w: Wiring, k: Kind, kv: KeyValues, kv1: KeyValues, kv2: KeyValues)
    requires Undisturbed(w, k, kv, kv1) && Undisturbed(w, k, kv1, kv2)
    ensures Undisturbed(w, k, kv, kv2)
  {
  }

  method CopyReports(store: ObjectStore, ghost w: Wiring, ghost k: Kind, ghost m: Reports, items: seq<Report>, io: Calls)
    returns (err: bool)
    requires PrefixFree(w) && store.gvk == w(k) && IsView(store.client.kv, store.gvk, m)
    requires forall r :: r in items ==> SlashFree(r.name) && SlashFree(r.namespace)
    modifies store.client
    ensures IsView(store.client.kv, store.gvk, Copy(m, items, io).0)
    ensures Undisturbed(w, k, old(store.client.kv), store.client.kv)
    ensures err <==> !Copy(m, items, io).1
  {
    for i := 0 to |items|
      invariant IsView(store.client.kv, store.gvk, Copy(m, items[..i], io).0)
      invariant Copy(m, items[..i], io).1
      invariant Undisturbed(w, k, old(store.client.kv), store.client.kv)
    {
      var c := items[i];
      assert c in items;
      if SERVED_BY in c.annotations {
        assert items[..i + 1][..i] == items[..i];
        continue;
      }
      c := c.(annotations := c.annotations[SERVED_BY := SERVED_BY_VALUE]);
      ghost var before := store.client.kv;
      CopyOne(w, k, before, m, items, io, i);
      var a := store.Create(c, io(i));
      CopyOneAnswer(w, k, before, m, items, io, i, a);
      UndisturbedTwice(w, k, old(store.client.kv), before, store.client.kv);
      if a.Failed? {
        StaysFailed(m, items, io, i + 1);
        return true;
      }
    }
    assert items[..|items|] == items;
    return false;
  }

  /** Nothing is copied after a failure. */
  lemma {:induction false} StaysFailed(m: Reports, items: seq<Report>, io: Calls, n: nat)
    requires n <= |items| && !Copy(m, items[..n], io).1
    ensures Copy(m, items, io) == Copy(m, items[..n], io)
    decreases |items|
  {
    if n < |items| {
      assert items[..|items| - 1][..n] == items[..n];
      StaysFailed(m, items[..|items| - 1], io, n);
    } else {
      assert items[..n] == items;
    }
  }

  // ----- The live watcher -----

  /** Events of the old API; deletions, bookmarks and errors are Other. */
  datatype SourceEvent = SourceAdded(report: Report) | SourceModified(report: Report) | Other

  predicate Ends(e: SourceEvent) {
    !e.Other? && IsServed(e.report)
  }

  function SourceOp(e: SourceEvent): Op
    requires !e.Other?
  {
    if e.SourceAdded? then Create(Labelled(e.report)) else Update(Labelled(e.report))
  }

  /** Create on Added, Update on Modified, over the events in order. */
  function Carried(m: Reports, events: seq<SourceEvent>, io: Calls): Reports {
    if events == [] then m
    else
      var m1, e := Carried(m, events[..|events| - 1], io), events[|events| - 1];
      if e.Other? then m1 else Next(m1, SourceOp(e), io(|events| - 1))
  }

  /** How many events come before the first that is already served. */
  function Cut(events: seq<SourceEvent>): (n: nat)
    ensures n <= |events|
    ensures forall i :: 0 <= i < n && !events[i].Other? ==>
      "kyverno.reports-server.io/served-by" !in events[i].report.annotations
    ensures n < |events| ==>
      !events[n].Other? && "kyverno.reports-server.io/served-by" in events[n].report.annotations
  {
    if events == [] then 0
    else
      var n := Cut(events[..|events| - 1]);
      if n < |events| - 1 then n
      else if Ends(events[|events| - 1]) then n else |events|
  }

  /** The watcher goroutine: it returns for good at the first event already served,
      and ignores the store's errors. */
  method Watch(store: ObjectStore, ghost w: Wiring, ghost k: Kind, ghost m: Reports, events: seq<SourceEvent>, io: Calls)
    requires PrefixFree(w) && store.gvk == w(k) && IsView(store.client.kv, store.gvk, m)
    requires forall e :: e in events && !e.Other? ==> SlashFree(e.report.name) && SlashFree(e.report.namespace)
    modifies store.client
    ensures IsView(store.client.kv, store.gvk, Carried(m, events[..Cut(events)], io))
    ensures Undisturbed(w, k, old(store.client.kv), store.client.kv)
  {
    for i := 0 to |events|
      invariant IsView(store.client.kv, store.gvk, Carried(m, events[..i], io))
      invariant i <= Cut(events)
      invariant Undisturbed(w, k, old(store.client.kv), store.client.kv)
    {
      var e := events[i];
      assert e in events;
      ghost var m1 := Carried(m, events[..i], io);
      assert events[..i + 1][..i] == events[..i];
      if !e.Other? {
        var r := e.report;
        if SERVED_BY in r.annotations {
          return;
        }
        r := r.(annotations := r.annotations[SERVED_BY := SERVED_BY_VALUE]);
        ghost var before := store.client.kv;
        OwnStep(before, store.gvk, m1, SourceOp(e), io(i));
        StepUndisturbing(w, k, before, SourceOp(e), io(i));
        if e.SourceAdded? {
          var a := store.Create(r, io(i));
        } else {
          var a := store.Update(r, io(i));
        }
        UndisturbedTwice(w, k, old(store.client.kv), before, store.client.kv);
      }
    }
  }

  /** The cut is the same whatever comes after it, so no later event has any effect. */
  lemma LaterEventsIgnored(m: Reports, before: seq<SourceEvent>, e: SourceEvent, later: seq<SourceEvent>, io: Calls)
    requires Ends(e) && Cut(before) == |before|
    ensures var events := before + [e] + later;
      Cut(events) == |before| && Carried(m, events[..Cut(events)], io) == Carried(m, before, io)
  {
    var events := before + [e] + later;
    assert events[|before|] == e;
    assert forall i :: 0 <= i < |before| ==> events[i] == before[i];
    assert events[..|before|] == before;
  }

  // ----- What the watcher leaves at each place -----

  /** Event `i` is about place `c`, and the store is up for it. */
  predicate Reaches(events: seq<SourceEvent>, io: Calls, c: Coord, i: nat)
    requires i < |events|
  {
    !events[i].Other? && CoordOf(events[i].report) == c && io(i).read && io(i).write
  }

  /** The place is taken when event `i` comes: it was at the start, or an Added event took it. */
  ghost predicate TakenBefore(m: Reports, events: seq<SourceEvent>, io: Calls, c: Coord, i: nat)
    requires i <= |events|
  {
    c in m || exists j :: 0 <= j < i && Reaches(events, io, c, j) && events[j].SourceAdded?
  }

  /** Event `i` writes at `c`: an Added one at a free place, a Modified one at a taken place. */
  ghost predicate WritesAt(m: Reports, events: seq<SourceEvent>, io: Calls, c: Coord, i: nat)
    requires i < |events|
  {
    Reaches(events, io, c, i) && (events[i].SourceAdded? <==> !TakenBefore(m, events, io, c, i))
  }

  function Marked(r: Report): Report {
    r.(annotations := r.annotations["kyverno.reports-server.io/served-by" := "reports-server"])
  }

  ghost predicate NoWrite(m: Reports, events: seq<SourceEvent>, io: Calls, c: Coord) {
    forall i :: 0 <= i < |events| ==> !WritesAt(m, events, io, c, i)
  }

  ghost predicate LastWrite(m: Reports, events: seq<SourceEvent>, io: Calls, c: Coord, i: nat) {
    i < |events| && WritesAt(m, events, io, c, i) && forall j :: i < j < |events| ==> !WritesAt(m, events, io, c, j)
  }

  /** At `c`, `m'` holds the marked report of the last event that wrote there, and what `m`
      held if none did. */
  ghost predicate LeavesAt(m: Reports, events: seq<SourceEvent>, io: Calls, c: Coord, m': Reports) {
    && (c in m' <==> TakenBefore(m, events, io, c, |events|))
    && (NoWrite(m, events, io, c) ==> (c in m' <==> c in m) && (c in m ==> m'[c] == m[c]))
    && (forall i: nat :: LastWrite(m, events, io, c, i) ==> c in m' && m'[c] == Marked(events[i].report))
  }

  lemma EarlierTheSame(m: Reports, init: seq<SourceEvent>, e: SourceEvent, io: Calls, c: Coord)
    ensures forall i :: 0 <= i < |init| ==> (Reaches(init + [e], io, c, i) <==> Reaches(init, io, c, i))
    ensures forall i :: 0 <= i <= |init| ==> (TakenBefore(m, init + [e], io, c, i) <==> TakenBefore(m, init, io, c, i))
    ensures forall i :: 0 <= i < |init| ==> (WritesAt(m, init + [e], io, c, i) <==> WritesAt(m, init, io, c, i))
  {
    var events := init + [e];
    assert forall i :: 0 <= i < |init| ==> events[i] == init[i];
    forall i | 0 <= i <= |init| ensures TakenBefore(m, events, io, c, i) <==> TakenBefore(m, init, io, c, i) {
      if c !in m && TakenBefore(m, events, io, c, i) {
        var j :| 0 <= j < i && Reaches(events, io, c, j) && events[j].SourceAdded?;
        assert Reaches(init, io, c, j) && init[j].SourceAdded?;
      }
      if c !in m && TakenBefore(m, init, io, c, i) {
        var j :| 0 <= j < i && Reaches(init, io, c, j) && init[j].SourceAdded?;
        assert Reaches(events, io, c, j) && events[j].SourceAdded?;
      }
    }
  }

  /** What one event does at one place. */
  lemma EventAt(m1: Reports, e: SourceEvent, io: Io, c: Coord)
    ensures var m2 := if e.Other? then m1 else Next(m1, SourceOp(e), io);
      var reaches := !e.Other? && CoordOf(e.report) == c && io.read && io.write;
      && (c in m2 <==> c in m1 || (reaches && e.SourceAdded?))
      && (reaches && (e.SourceAdded? <==> c !in m1) ==> m2[c] == Marked(e.report))
      && (!(reaches && (e.SourceAdded? <==> c !in m1)) && c in m1 ==> m2[c] == m1[c])
  {
  }

  lemma TakenNext(m: Reports, init: seq<SourceEvent>, e: SourceEvent, io: Calls, c: Coord)
    ensures var events := init + [e];
      TakenBefore(m, events, io, c, |events|) <==>
        TakenBefore(m, events, io, c, |init|) || (Reaches(events, io, c, |init|) && e.SourceAdded?)
  {
    var events := init + [e];
    assert events[|init|] == e;
    if c !in m && TakenBefore(m, events, io, c, |events|) {
      var j :| 0 <= j < |events| && Reaches(events, io, c, j) && events[j].SourceAdded?;
      assert j < |init| ==> TakenBefore(m, events, io, c, |init|);
    }
  }

  lemma LastWriteNext(m: Reports, init: seq<SourceEvent>, e: SourceEvent, io: Calls, c: Coord)
    ensures var events, n := init + [e], |init|;
      && (NoWrite(m, events, io, c) <==> NoWrite(m, init, io, c) && !WritesAt(m, events, io, c, n))
      && forall i: nat :: LastWrite(m, events, io, c, i) <==>
           if WritesAt(m, events, io, c, n) then i == n else LastWrite(m, init, io, c, i)
  {
    EarlierTheSame(m, init, e, io, c);
  }

  lemma CarriedOneMore(m: Reports, init: seq<SourceEvent>, e: SourceEvent, io: Calls, c: Coord, m1: Reports)
    requires LeavesAt(m, init, io, c, m1)
    ensures LeavesAt(m, init + [e], io, c, if e.Other? then m1 else Next(m1, SourceOp(e), io(|init|)))
  {
    var events, n := init + [e], |init|;
    assert events[n] == e;
    EarlierTheSame(m, init, e, io, c);
    TakenNext(m, init, e, io, c);
    LastWriteNext(m, init, e, io, c);
    EventAt(m1, e, io(n), c);
    assert WritesAt(m, events, io, c, n) <==> Reaches(events, io, c, n) && (e.SourceAdded? <==> c !in m1);
    assert forall i: nat :: LastWrite(m, init, io, c, i) ==> events[i] == init[i];
  }

  /** Over any events and any outcomes of the store's calls, place by place. */
  lemma {:induction false} CarriedAt(m: Reports, events: seq<SourceEvent>, io: Calls, c: Coord)
    ensures LeavesAt(m, events, io, c, Carried(m, events, io))
  {
    if events != [] {
      var n := |events| - 1;
      var init, e := events[..n], events[n];
      assert events == init + [e];
      CarriedAt(m, init, io, c);
      CarriedOneMore(m, init, e, io, c, Carried(m, init, io));
    }
  }

  // ----- The counter -----

  function Max(a: nat, b: nat): nat {
    if a >= b then a else b
  }

  /** The counter after the four versions and the final jump. */
  function Jump(v: nat): nat {
    Versioning.AfterSet(Versioning.AfterUse(v), Format((v + 9999) % TWO_TO_THE_64))
  }

  /** What the jump comes to: 9999 further, unless that does not fit in 64 bits. */
  lemma JumpExact(v: nat)
    requires v < TWO_TO_THE_64
    ensures Jump(v) ==
      if v + 9999 < TWO_TO_THE_64 then v + 9999
      else if v == Versioning.MAX_VERSION then 9998 else v + 1
  {
    var target := if v + 9999 < TWO_TO_THE_64 then v + 9999 else v + 9999 - TWO_TO_THE_64;
    assert (v + 9999) % TWO_TO_THE_64 == target;
    ParseFormat(target);
  }

  /** What the old API server lists for one kind. */
  datatype Listing = Listing(items: seq<Report>, resourceVersion: string)

  /** What one kind's part of the migration is given: its list, if listing works, and
      whether its watcher can be started. */
  datatype Source = Source(listing: Option<Listing>, watcherErr: bool, io: Calls)

  predicate Clean(source: Source) {
    source.listing.Some? ==> forall r :: r in source.listing.value.items ==> SlashFree(r.name) && SlashFree(r.namespace)
  }

  function VersionOf(source: Source): string {
    if source.listing.Some? then source.listing.value.resourceVersion else ""
  }

  /** The kind's part runs to its end when the counter is moved to `version`. */
  ghost predicate Passes(m: Reports, source: Source, version: string) {
    && source.listing.Some? && Copy(m, source.listing.value.items, source.io).1
    && ParseUint(version).Some? && !source.watcherErr
  }

  /** The part gets as far as moving the counter. */
  ghost predicate MovesCounter(m: Reports, source: Source, version: string) {
    source.listing.Some? && Copy(m, source.listing.value.items, source.io).1 && ParseUint(version).Some?
  }

  ghost function CopiedInto(m: Reports, source: Source): Reports {
    if source.listing.Some? then Copy(m, source.listing.value.items, source.io).0 else m
  }

  datatype End =
    | Complete
    | GaveUp   // a list failed: the migration returns without an error and does no more
    | Stopped  // it returned an error

  /** What the four stores hold. */
  datatype Holdings = Holdings(cpolr: Reports, polr: Reports, cephr: Reports, ephr: Reports)

  function Held(h: Holdings, k: Kind): Reports {
    match k
    case ClusterPolicyReports => h.cpolr
    case PolicyReports => h.polr
    case ClusterEphemeralReports => h.cephr
    case EphemeralReports => h.ephr
  }

  function With(h: Holdings, k: Kind, m: Reports): Holdings {
    match k
    case ClusterPolicyReports => h.(cpolr := m)
    case PolicyReports => h.(polr := m)
    case ClusterEphemeralReports => h.(cephr := m)
    case EphemeralReports => h.(ephr := m)
  }

  ghost predicate Holds(w: Wiring, kv: KeyValues, h: Holdings) {
    forall k :: IsView(kv, w(k), Held(h, k))
  }

  lemma HoldsWith(w: Wiring, k: Kind, kv: KeyValues, kv': KeyValues, h: Holdings, m: Reports)
    requires Holds(w, kv, h) && Undisturbed(w, k, kv, kv') && IsView(kv', w(k), m)
    ensures Holds(w, kv', With(h, k, m))
  {
    forall k' ensures IsView(kv', w(k'), Held(With(h, k, m), k')) {
      assert IsView(kv, w(k'), Held(h, k'));
    }
  }

  /** One kind: list, copy, move the counter to `version`, start the watcher. */
  method MigrateKind(versions: Versioning.ResourceVersion, client: Client, w: Wiring, k: Kind, ghost h: Holdings,
                     source: Source, version: string) returns (end: End)
    requires PrefixFree(w) && versions.Valid() && Holds(w, client.kv, h) && Clean(source)
    modifies versions, client
    ensures versions.Valid()
    ensures end.Complete? <==> Passes(Held(h, k), source, version)
    ensures end.Complete? <==>
      && source.listing.Some? && AllCopyable(Held(h, k), source.listing.value.items, source.io)
      && ParseUint(version).Some? && !source.watcherErr
    ensures end.GaveUp? <==> source.listing.None?
    ensures Holds(w, client.kv, With(h, k, CopiedInto(Held(h, k), source)))
    ensures versions.version ==
      if MovesCounter(Held(h, k), source, version) then Max(old(versions.version), Parsed(version)) else old(versions.version)
  {
    if source.listing.None? {
      assert With(h, k, Held(h, k)) == h;
      return GaveUp;
    }
    var store := new ObjectStore(client, w(k));
    var err := CopyReports(store, w, k, Held(h, k), source.listing.value.items, source.io);
    HoldsWith(w, k, old(client.kv), client.kv, h, CopiedInto(Held(h, k), source));
    CopyExact(Held(h, k), source.listing.value.items, source.io);
    if err {
      return Stopped;
    }
    err := versions.SetResourceVersion(version);
    if err || source.watcherErr {
      return Stopped;
    }
    return Complete;
  }

  /** The four sources, in the order the migration takes them. */
  datatype Sources = Sources(cpolr: Source, polr: Source, cephr: Source, ephr: Source)

  /** One part: its kind, its source and the version it moves the counter to. */
  datatype Part = Part(kind: Kind, source: Source, version: string)

  /** The policy report part moves the counter to the cluster policy reports' version once more. */
  function PartAt(s: Sources, i: nat): Part
    requires i < 4
  {
    if i == 0 then Part(ClusterPolicyReports, s.cpolr, VersionOf(s.cpolr))
    else if i == 1 then Part(PolicyReports, s.polr, VersionOf(s.cpolr))
    else if i == 2 then Part(ClusterEphemeralReports, s.cephr, VersionOf(s.cephr))
    else Part(EphemeralReports, s.ephr, VersionOf(s.ephr))
  }

  ghost predicate PartPasses(h: Holdings, s: Sources, i: nat)
    requires i < 4
  {
    var part := PartAt(s, i);
    Passes(Held(h, part.kind), part.source, part.version)
  }

  ghost predicate AllPass(h: Holdings, s: Sources) {
    forall i :: 0 <= i < 4 ==> PartPasses(h, s, i)
  }

  /** The first part that does not pass, 4 if all do. */
  ghost predicate StopsAt(h: Holdings, s: Sources, p: nat) {
    p <= 4 && (forall i :: 0 <= i < p ==> PartPasses(h, s, i)) && (p < 4 ==> !PartPasses(h, s, p))
  }

  function Parsed(version: string): nat {
    if ParseUint(version).Some? then ParseUint(version).value else 0
  }

  /** The largest of the counter and the versions of the first `n` parts. */
  function Raised(v: nat, s: Sources, n: nat): nat
    requires n <= 4
  {
    if n == 0 then v else Max(Raised(v, s, n - 1), Parsed(PartAt(s, n - 1).version))
  }

  /** The largest of the counter and the three versions the migration looks at. */
  function Highest(v: nat, s: Sources): nat {
    Max(Max(Max(v, Parsed(VersionOf(s.cpolr))), Parsed(VersionOf(s.cephr))), Parsed(VersionOf(s.ephr)))
  }

  lemma RaisedByAll(v: nat, s: Sources)
    ensures Raised(v, s, 4) == Highest(v, s)
  {
    assert Raised(v, s, 1) == Max(v, Parsed(VersionOf(s.cpolr)));
    assert Raised(v, s, 2) == Raised(v, s, 1);
    assert Raised(v, s, 3) == Max(Raised(v, s, 2), Parsed(VersionOf(s.cephr)));
  }

  /** What the stores hold once the first `n` parts have copied what they could. */
  ghost function CopiedThrough(h: Holdings, s: Sources, n: nat): Holdings
    requires n <= 4
  {
    if n == 0 then h
    else
      var part := PartAt(s, n - 1);
      With(CopiedThrough(h, s, n - 1), part.kind, CopiedInto(Held(h, part.kind), part.source))
  }

  ghost function AllCopied(h: Holdings, s: Sources): Holdings {
    Holdings(CopiedInto(h.cpolr, s.cpolr), CopiedInto(h.polr, s.polr), CopiedInto(h.cephr, s.cephr), CopiedInto(h.ephr, s.ephr))
  }

  lemma CopiedByAll(h: Holdings, s: Sources)
    ensures CopiedThrough(h, s, 4) == AllCopied(h, s)
  {
    assert CopiedThrough(h, s, 1) == h.(cpolr := CopiedInto(h.cpolr, s.cpolr));
    assert CopiedThrough(h, s, 2) == CopiedThrough(h, s, 1).(polr := CopiedInto(h.polr, s.polr));
    assert CopiedThrough(h, s, 3) == CopiedThrough(h, s, 2).(cephr := CopiedInto(h.cephr, s.cephr));
  }

  /** No part touches the store of a later one. */
  lemma LaterUntouched(h: Holdings, s: Sources, n: nat)
    requires n < 4
    ensures Held(CopiedThrough(h, s, n), PartAt(s, n).kind) == Held(h, PartAt(s, n).kind)
  {
    if n >= 1 { assert CopiedThrough(h, s, 1) == h.(cpolr := CopiedInto(h.cpolr, s.cpolr)); }
    if n >= 2 { assert CopiedThrough(h, s, 2) == CopiedThrough(h, s, 1).(polr := CopiedInto(h.polr, s.polr)); }
    if n >= 3 { assert CopiedThrough(h, s, 3) == CopiedThrough(h, s, 2).(cephr := CopiedInto(h.cephr, s.cephr)); }
  }

  /** The counter after a migration that stopped at part `p`: moved by the parts before, and
      by that one too if only its watcher failed. */
  ghost function Reached(h: Holdings, v: nat, s: Sources, p: nat): nat
    requires p < 4
  {
    var part := PartAt(s, p);
    if MovesCounter(Held(h, part.kind), part.source, part.version) then Raised(v, s, p + 1) else Raised(v, s, p)
  }

  /** A migration cut short at part `p` has copied all of the parts before, of that one
      what came before the failure, and nothing of the rest; the counter does not jump.
      It reports an error unless what failed is the list. */
  ghost predicate CutShort(w: Wiring, kv: KeyValues, h: Holdings, s: Sources, v: nat, p: nat, end: End, v': nat) {
    && p < 4 && StopsAt(h, s, p)
    && Holds(w, kv, CopiedThrough(h, s, p + 1))
    && v' == Reached(h, v, s, p)
    && end == (if PartAt(s, p).source.listing.None? then GaveUp else Stopped)
  }

  predicate AllClean(s: Sources) {
    Clean(s.cpolr) && Clean(s.polr) && Clean(s.cephr) && Clean(s.ephr)
  }

  /** The first `n` parts have completed. */
  ghost predicate Through(w: Wiring, kv: KeyValues, h: Holdings, s: Sources, v: nat, n: nat, v': nat) {
    && n <= 4 && (forall j :: 0 <= j < n ==> PartPasses(h, s, j))
    && Holds(w, kv, CopiedThrough(h, s, n)) && v' == Raised(v, s, n)
  }

  lemma CleanParts(s: Sources, i: nat)
    requires AllClean(s) && i < 4
    ensures Clean(PartAt(s, i).source)
  {
  }

  method MigratePart(versions: Versioning.ResourceVersion, client: Client, w: Wiring, ghost h: Holdings, s: Sources,
                     ghost v: nat, i: nat) returns (end: End)
    requires i < 4 && PrefixFree(w) && versions.Valid() && AllClean(s) && Through(w, client.kv, h, s, v, i, versions.version)
    modifies versions, client
    ensures versions.Valid()
    ensures end.Complete? ==> Through(w, client.kv, h, s, v, i + 1, versions.version)
    ensures !end.Complete? ==> CutShort(w, client.kv, h, s, v, i, end, versions.version)
  {
    LaterUntouched(h, s, i);
    CleanParts(s, i);
    var part := PartAt(s, i);
    end := MigrateKind(versions, client, w, part.kind, CopiedThrough(h, s, i), part.source, part.version);
  }

  /** The four parts in turn, up to the first that does not complete. */
  method MigrateKinds(versions: Versioning.ResourceVersion, client: Client, w: Wiring, ghost h: Holdings, s: Sources)
    returns (end: End, ghost p: nat)
    requires PrefixFree(w) && versions.Valid() && Holds(w, client.kv, h) && AllClean(s)
    modifies versions, client
    ensures versions.Valid() && StopsAt(h, s, p)
    ensures end.Complete? <==> p == 4
    ensures end.Complete? ==> Holds(w, client.kv, AllCopied(h, s)) && versions.version == Highest(old(versions.version), s)
    ensures !end.Complete? ==> CutShort(w, client.kv, h, s, old(versions.version), p, end, versions.version)
  {
    ghost var v := versions.version;
    p := 0;
    end := MigratePart(versions, client, w, h, s, v, 0);
    if !end.Complete? {
      return;
    }
    p := 1;
    end := MigratePart(versions, client, w, h, s, v, 1);
    if !end.Complete? {
      return;
    }
    p := 2;
    end := MigratePart(versions, client, w, h, s, v, 2);
    if !end.Complete? {
      return;
    }
    p := 3;
    end := MigratePart(versions, client, w, h, s, v, 3);
    if !end.Complete? {
      return;
    }
    p := 4;
    RaisedByAll(v, s);
    CopiedByAll(h, s);
  }

  /** The final jump; neither its parse nor its set ever fails. */
  method LeaveRoom(versions: Versioning.ResourceVersion) returns (err: bool)
    requires versions.Valid()
    modifies versions
    ensures versions.Valid() && !err && versions.version == Jump(old(versions.version))
  {
    ParseFormat(versions.version);
    ParseFormat((versions.version + 9999) % TWO_TO_THE_64);
    var number := versions.UseResourceVersion();
    var rv := ParseUint(number);
    if rv.None? {
      return true;
    }
    err := versions.SetResourceVersion(Format((rv.value + 9999) % TWO_TO_THE_64));
  }

  /** The migration completes if and only if every part passes: the final parse never
      fails. Then the stores hold the copies, and the next version is fixed by the
      cluster policy, cluster ephemeral and ephemeral lists. */
  method Migrate(versions: Versioning.ResourceVersion, client: Client, w: Wiring, ghost h: Holdings, s: Sources)
    returns (end: End, ghost p: nat)
    requires PrefixFree(w) && versions.Valid() && Holds(w, client.kv, h) && AllClean(s)
    modifies versions, client
    ensures versions.Valid()
    ensures end.Complete? <==> AllPass(h, s)
    ensures end.Complete? ==> Holds(w, client.kv, AllCopied(h, s))
    ensures end.Complete? ==> versions.version == Jump(Highest(old(versions.version), s))
    ensures end.Complete? ==> (PastLists(versions.version, s) <==> JumpClearsLists(old(versions.version), s))
    ensures !end.Complete? ==> CutShort(w, client.kv, h, s, old(versions.version), p, end, versions.version)
  {
    end, p := MigrateKinds(versions, client, w, h, s);
    if !end.Complete? {
      return;
    }
    PastListsIff(old(versions.version), s);
    var err := LeaveRoom(versions);
    if err {
      return Stopped, p;
    }
  }

  /** Started from a fresh counter, a completed migration hands out next exactly 9999
      more than the largest of 1 and the three list versions, as long as that fits. */
  lemma NextAfterMigration(s: Sources)
    ensures var m := Highest(1, s);
      m < TWO_TO_THE_64 && (m + 9999 < TWO_TO_THE_64 <==> Jump(m) == m + 9999)
  {
    JumpExact(Highest(1, s));
  }

  // ----- The policy report list's version is not looked at -----

  /** `next` lies past the versions of all four lists. */
  predicate PastLists(next: nat, s: Sources) {
    && Parsed(VersionOf(s.cpolr)) < next && Parsed(VersionOf(s.polr)) < next
    && Parsed(VersionOf(s.cephr)) < next && Parsed(VersionOf(s.ephr)) < next
  }

  /** The policy report list's version is below where the jump leads; when the jump does
      not fit, the counter moves by one, or wraps to 9998. */
  predicate JumpClearsLists(v: nat, s: Sources) {
    var m := Highest(v, s);
    if m + 9999 < TWO_TO_THE_64 then Parsed(VersionOf(s.polr)) < m + 9999
    else if m < Versioning.MAX_VERSION then Parsed(VersionOf(s.polr)) <= m
    else PastLists(9998, s)
  }

  /** Exactly when the next version lies past all four lists. */
  lemma PastListsIff(v: nat, s: Sources)
    requires v < TWO_TO_THE_64
    ensures PastLists(Jump(Highest(v, s)), s) <==> JumpClearsLists(v, s)
  {
    JumpExact(Highest(v, s));
  }

  /** Every report the four stores hold has a version below `next`. */
  ghost predicate AllBelow(h: Holdings, next: nat) {
    forall k, c :: c in Held(h, k) ==> Parsed(Held(h, k)[c].resourceVersion) < next
  }

  /** Every unserved report of the source has a version below `next`. */
  predicate ItemsBelow(source: Source, next: nat) {
    source.listing.Some? ==> forall r :: r in source.listing.value.items && !IsServed(r) ==> Parsed(r.resourceVersion) < next
  }

  /** The old API server's promise: no report is newer than the list it is in. */
  predicate NewestIsList(source: Source) {
    ItemsBelow(source, Parsed(VersionOf(source)) + 1)
  }

  ghost predicate MapBelow(m: Reports, next: nat) {
    forall c :: c in m ==> Parsed(m[c].resourceVersion) < next
  }

  lemma CopiesBelow(m: Reports, items: seq<Report>, m': Reports, next: nat)
    requires PlusCopies(m, items, m') && MapBelow(m', next)
    ensures MapBelow(m, next) && forall r :: r in items && !IsServed(r) ==> Parsed(r.resourceVersion) < next
  {
    forall r | r in items && !IsServed(r) ensures Parsed(r.resourceVersion) < next {
      var i :| 0 <= i < |items| && items[i] == r;
      assert m'[CoordOf(items[i])] == Labelled(items[i]);
    }
    forall c | c in m ensures Parsed(m[c].resourceVersion) < next {
      assert m'[c] == m[c];
    }
  }

  lemma BelowWithCopies(m: Reports, items: seq<Report>, m': Reports, next: nat)
    requires PlusCopies(m, items, m') && MapBelow(m, next)
    requires forall r :: r in items && !IsServed(r) ==> Parsed(r.resourceVersion) < next
    ensures MapBelow(m', next)
  {
    forall c | c in m' ensures Parsed(m'[c].resourceVersion) < next {
      if c in m {
        assert m'[c] == m[c];
      } else {
        var i :| 0 <= i < |items| && !IsServed(items[i]) && CoordOf(items[i]) == c;
        assert items[i] in items;
      }
    }
  }

  /** A store after its copy loop is below `next` if and only if it was and the copies are. */
  lemma CopiedBelowIff(m: Reports, source: Source, next: nat)
    requires source.listing.Some? && Copy(m, source.listing.value.items, source.io).1
    ensures MapBelow(CopiedInto(m, source), next) <==> MapBelow(m, next) && ItemsBelow(source, next)
  {
    var items, m' := source.listing.value.items, CopiedInto(m, source);
    CopyExact(m, items, source.io);
    if MapBelow(m', next) {
      CopiesBelow(m, items, m', next);
    }
    if MapBelow(m, next) && ItemsBelow(source, next) {
      BelowWithCopies(m, items, m', next);
    }
  }

  lemma AllBelowIff(h: Holdings, next: nat)
    ensures AllBelow(h, next) <==> MapBelow(h.cpolr, next) && MapBelow(h.polr, next) && MapBelow(h.cephr, next) && MapBelow(h.ephr, next)
  {
    if AllBelow(h, next) {
      forall k, c | c in Held(h, k) ensures Parsed(Held(h, k)[c].resourceVersion) < next {
      }
      assert h.cpolr == Held(h, ClusterPolicyReports) && h.polr == Held(h, PolicyReports);
      assert h.cephr == Held(h, ClusterEphemeralReports) && h.ephr == Held(h, EphemeralReports);
    }
  }

  /** After a completed migration the next version lies past every stored report if and only
      if it lies past those stored before and past every copied one. */
  lemma StoredBelowIff(h: Holdings, s: Sources, next: nat)
    requires AllPass(h, s)
    ensures AllBelow(AllCopied(h, s), next) <==>
      && AllBelow(h, next)
      && ItemsBelow(s.cpolr, next) && ItemsBelow(s.polr, next) && ItemsBelow(s.cephr, next) && ItemsBelow(s.ephr, next)
  {
    assert PartPasses(h, s, 0) && PartPasses(h, s, 1) && PartPasses(h, s, 2) && PartPasses(h, s, 3);
    CopiedBelowIff(h.cpolr, s.cpolr, next);
    CopiedBelowIff(h.polr, s.polr, next);
    CopiedBelowIff(h.cephr, s.cephr, next);
    CopiedBelowIff(h.ephr, s.ephr, next);
    AllBelowIff(h, next);
    AllBelowIff(AllCopied(h, s), next);
  }

  /** With lists at least as new as their reports, only the policy reports can outrun the
      jump, unless it starts at the largest version and wraps: the next version lies past
      every stored report if and only if it lies past those stored before and past every
      copied policy report. */
  lemma NextPastStoredIff(h: Holdings, s: Sources, v: nat)
    requires AllPass(h, s) && NewestIsList(s.cpolr) && NewestIsList(s.cephr) && NewestIsList(s.ephr)
    requires v < TWO_TO_THE_64
    ensures var next := Jump(Highest(v, s));
      AllBelow(AllCopied(h, s), next) <==>
        && AllBelow(h, next) && ItemsBelow(s.polr, next)
        && (Highest(v, s) == Versioning.MAX_VERSION ==>
              ItemsBelow(s.cpolr, 9998) && ItemsBelow(s.cephr, 9998) && ItemsBelow(s.ephr, 9998))
  {
    JumpExact(Highest(v, s));
    StoredBelowIff(h, s, Jump(Highest(v, s)));
  }

  const NOTHING := Holdings(map[], map[], map[], map[])

  /** The three other lists are empty and at version 1; the policy report list holds `r`. */
  function OneReport(r: Report, version: string): Sources {
    var other := Source(Some(Listing([], "1")), false, (i: nat) => ALL_UP);
    Sources(other, other.(listing := Some(Listing([r], version))), other, other)
  }

  lemma TextOf20000()
    ensures ParseUint("1") == Some(1) && ParseUint("20000") == Some(20000)
  {
    assert Format(2) == "2";
    assert Format(20) == "20";
    assert Format(200) == "200";
    assert Format(2000) == "2000";
    assert Format(20000) == "20000";
    ParseFormat(1);
    ParseFormat(20000);
  }

  /** A policy report at version 20000 with the other lists at 1: the migration completes,
      stores the report as it is, and hands out 10000 next. */
  lemma PolicyReportOutruns(r: Report)
    requires !IsServed(r) && r.resourceVersion == "20000"
    ensures var s := OneReport(r, "20000");
      && AllPass(NOTHING, s) && Jump(Highest(1, s)) == 10000
      && !PastLists(10000, s) && !AllBelow(AllCopied(NOTHING, s), 10000)
  {
    var s := OneReport(r, "20000");
    TextOf20000();
    JumpExact(1);
    OneReportPasses(r);
    StoredBelowIff(NOTHING, s, 10000);
    assert r in s.polr.listing.value.items;
  }

  lemma OneReportPasses(r: Report)
    ensures AllPass(NOTHING, OneReport(r, "20000"))
  {
    var s := OneReport(r, "20000");
    TextOf20000();
    CopyExact(map[], [r], s.polr.io);
    forall i | 0 <= i < 4 ensures PartPasses(NOTHING, s, i) {
    }
  }
}
