/** The request handlers of one report kind, as functions on the store, the version
    counter and the broadcaster's log. */
module Rest {
  import opened Storage
  import opened Decimal
  import Versioning

  // ----- Annotations -----

  const SERVED_BY := "kyverno.reports-server.io/served-by"
  const SERVED_BY_VALUE := "reports-server"

  function Labelled(r: Report): Report {
    r.(annotations := r.annotations[SERVED_BY := SERVED_BY_VALUE])
  }

  predicate IsServed(r: Report) {
    SERVED_BY in r.annotations
  }

  /** Generations are 64-bit signed and wrap. */
  function NextGeneration(g: int): int {
    if g == 0x7fff_ffff_ffff_ffff then -0x8000_0000_0000_0000 else g + 1
  }

  // ----- State -----

  datatype EventType = Added | Modified | Deleted

  datatype WatchEvent = WatchEvent(kind: EventType, report: Report)

  datatype State = State(reports: Reports, version: nat, log: seq<WatchEvent>)

  ghost predicate Valid(st: State) {
    WellFormed(st.reports) && st.version < TWO_TO_THE_64
  }

  // ----- Requests -----

  datatype Object = ReportObject(report: Report) | OtherObject

  datatype Status =
    | Invalid        // the validation's own error
    | Conflict
    | AlreadyExistsStatus
    | NotFoundStatus
    | BadRequest
    | StoreError     // the store's error, passed on
    | UpdateError    // the error of computing the updated object, passed on
    | Panic          // a failed type assertion

  datatype Response = Ok(report: Report) | OkList(reports: seq<Report>) | Error(status: Status)

  /** How the outcome of the i-th store call of a request comes out. */
  type Calls = nat -> Io

  function Later(io: Calls, n: nat): Calls {
    (i: nat) => io(i + n)
  }

  type Selector = Option<map<string, string> -> bool>

  datatype CreateRequest = CreateRequest(
    obj: Object, invalid: bool, fieldValidation: string, dryRun: bool,
    generated: string, uid: string, now: int)

  /** What the request makes of the old report: an object or none, with or without an error. */
  datatype Updated = Updated(obj: Option<Object>, err: bool)

  datatype UpdateRequest = UpdateRequest(
    name: string, updated: Option<Report> -> Updated, invalid: bool, fieldValidation: string,
    force: bool, dryRun: bool)

  datatype DeleteRequest = DeleteRequest(name: string, allows: Report -> bool, dryRun: bool)

  datatype ListOptions = ListOptions(selector: Selector, resourceVersion: string)

  datatype Request =
    | CreateReq(create: CreateRequest)
    | UpdateReq(update: UpdateRequest)
    | DeleteReq(delete: DeleteRequest)
    | DeleteCollectionReq(allows: Report -> bool, dryRun: bool, options: ListOptions)

  /** `namespace` is the request's own, empty for cluster-scoped kinds and for all
      namespaces. `listing` is the order in which the store answers a list. */
  datatype Context = Context(kind: Kind, namespace: string, io: Calls, listing: seq<Report>)

  predicate Namespaced(k: Kind) {
    k == PolicyReports || k == EphemeralReports
  }

  ghost predicate ListsStore(cx: Context, st: State) {
    Enumerates(cx.listing, ReportsIn(st.reports, cx.namespace))
  }

  // ----- Create -----

  predicate Rejects(invalid: bool, fieldValidation: string) {
    invalid && fieldValidation == "Strict"
  }

  function InNamespaceOf(r: Report, namespace: string): Report {
    if |r.namespace| == 0 then r.(namespace := namespace) else r
  }

  function Named(r: Report, generated: string): Report {
    if r.name == "" then r.(name := generated) else r
  }

  /** The report as it is to be created, before it gets a version. */
  function Prepared(cx: Context, r: Report, generated: string): Report {
    Labelled(Named(InNamespaceOf(r, cx.namespace), generated)).(generation := 1)
  }

  function Stamped(r: Report, version: nat): Report {
    r.(resourceVersion := Format(version))
  }

  function Succeeds(m: Reports, op: Op, io: Io): bool {
    match op
    case Get(c) => io.read && c in m
    case List(_) => io.read
    case Create(r) => io.read && CoordOf(r) !in m && io.write
    case Update(r) => io.read && CoordOf(r) in m && io.write
    case Delete(c) => io.write && c in m
  }

  function HandleCreate(cx: Context, st: State, q: CreateRequest): (State, Response) {
    if Rejects(q.invalid, q.fieldValidation) then (st, Error(Invalid))
    else if q.obj.OtherObject? then (st, Error(BadRequest))
    else if q.obj.report.name == "" && q.obj.report.generateName == "" then
      (st, Error(if Namespaced(cx.kind) then Conflict else AlreadyExistsStatus))
    else
      var r := Prepared(cx, q.obj.report, q.generated);
      if q.dryRun then (st, Ok(r))
      else
        var r' := Stamped(r, st.version).(uid := q.uid, creationTimestamp := q.now);
        var st' := st.(version := Versioning.AfterUse(st.version));
        if Succeeds(st.reports, Create(r'), cx.io(0)) then
          (st'.(reports := Next(st.reports, Create(r'), cx.io(0)), log := st.log + [WatchEvent(Added, r')]), Ok(r'))
        else (st', Error(if Namespaced(cx.kind) then AlreadyExistsStatus else BadRequest))
  }

  // ----- Update -----

  function OldReport(cx: Context, st: State, name: string): Option<Report> {
    var c := Coord(cx.namespace, name);
    if Succeeds(st.reports, Get(c), cx.io(0)) then Some(st.reports[c]) else None
  }

  /** The forced path: no validation, no annotation, no dry run, and the event goes
      out whether or not the store took the update. */
  function ForceUpdate(cx: Context, st: State, r: Report): (State, Response) {
    var r' := Stamped(r, st.version);
    (State(Next(st.reports, Update(r'), cx.io(1)), Versioning.AfterUse(st.version), st.log + [WatchEvent(Modified, r')]), Ok(r'))
  }

  function PreparedUpdate(cx: Context, r: Report): Report {
    var r1 := Labelled(InNamespaceOf(r, cx.namespace));
    r1.(generation := NextGeneration(r1.generation))
  }

  function HandleUpdate(cx: Context, st: State, q: UpdateRequest): (State, Response) {
    var was := OldReport(cx, st, q.name);
    if was.None? && !q.force then (st, Error(StoreError))
    else
      var u := q.updated(was);
      if u.err && !q.force then (st, Error(UpdateError))
      else if u.obj.None? || u.obj.value.OtherObject? then (st, Error(Panic))
      else if q.force then ForceUpdate(cx, st, u.obj.value.report)
      else if Rejects(q.invalid, q.fieldValidation) then (st, Error(Invalid))
      else
        var r := PreparedUpdate(cx, u.obj.value.report);
        if q.dryRun then (st, Ok(r))
        else
          var r' := Stamped(r, st.version);
          var st' := st.(version := Versioning.AfterUse(st.version));
          if Succeeds(st.reports, Update(r'), cx.io(1)) then
            (st'.(reports := Next(st.reports, Update(r'), cx.io(1)), log := st.log + [WatchEvent(Modified, r')]), Ok(r'))
          else (st', Error(BadRequest))
  }

  // ----- Delete -----

  function HandleDelete(cx: Context, st: State, q: DeleteRequest): (State, Response) {
    var was := OldReport(cx, st, q.name);
    if was.None? then (st, Error(NotFoundStatus))
    else if !q.allows(was.value) then (st, Error(BadRequest))
    else if q.dryRun then (st, Ok(was.value))
    else
      var op := Delete(CoordOf(was.value));
      if Succeeds(st.reports, op, cx.io(1)) then
        (st.(reports := Next(st.reports, op, cx.io(1)), log := st.log + [WatchEvent(Deleted, was.value)]), Ok(was.value))
      else (st, Error(BadRequest))
  }

  // ----- List -----

  /** The selector filter; the version it returns is 1 for an allowed report, 0 otherwise. */
  function AllowObjectListWatch(r: Report, selector: Selector): (bool, nat) {
    if selector.None? then (true, 1)
    else if selector.value(r.labels) then (true, 1)
    else (false, 0)
  }

  /** What a selector is meant to allow. */
  predicate Matches(selector: Selector, r: Report) {
    selector.None? || selector.value(r.labels)
  }

  function Filtered(items: seq<Report>, selector: Selector): seq<Report> {
    if items == [] then []
    else
      var last := items[|items| - 1];
      Filtered(items[..|items| - 1], selector) + (if AllowObjectListWatch(last, selector).0 then [last] else [])
  }

  predicate GoodVersion(resourceVersion: string) {
    |resourceVersion| == 0 || ParseUint(resourceVersion).Some?
  }

  function HandleList(cx: Context, options: ListOptions): Response {
    if !cx.io(0).read then Error(BadRequest)
    else if !GoodVersion(options.resourceVersion) then Error(Invalid)
    else OkList(Filtered(cx.listing, options.selector))
  }

  // ----- DeleteCollection -----

  /** Deletes the items one by one and stops at the first that is not deleted. */
  function DeleteEach(cx: Context, st: State, items: seq<Report>, allows: Report -> bool): (State, bool)
    decreases |items|
  {
    if items == [] then (st, true)
    else
      var (st1, answer) := HandleDelete(cx, st, DeleteRequest(items[0].name, allows, false));
      if answer.Ok? then DeleteEach(cx.(io := Later(cx.io, 2)), st1, items[1..], allows) else (st1, false)
  }

  function HandleDeleteCollection(cx: Context, st: State, allows: Report -> bool, dryRun: bool, options: ListOptions): (State, Response) {
    var found := HandleList(cx, options);
    if !found.OkList? then (st, Error(BadRequest))
    else if dryRun then (st, found)
    else
      var (st', all) := DeleteEach(cx.(io := Later(cx.io, 1)), st, found.reports, allows);
      (st', if all then found else Error(BadRequest))
  }

  // ----- Watch -----

  /** A watcher gets its prefix and then everything logged from `since` on. */
  datatype Watcher = Watcher(prefix: seq<WatchEvent>, since: nat)

  function AddedEvents(items: seq<Report>): seq<WatchEvent> {
    seq(|items|, i requires 0 <= i < |items| => WatchEvent(Added, items[i]))
  }

  function HandleWatch(cx: Context, st: State, options: ListOptions): Option<Watcher> {
    if options.resourceVersion == "" || options.resourceVersion == "0" then Some(Watcher([], |st.log|))
    else
      var found := HandleList(cx, options);
      if found.OkList? then Some(Watcher(AddedEvents(found.reports), |st.log|)) else None
  }

  function Stream(w: Watcher, log: seq<WatchEvent>): seq<WatchEvent>
    requires w.since <= |log|
  {
    w.prefix + log[w.since..]
  }

  // ----- One request -----

  function Handle(cx: Context, st: State, q: Request): (State, Response) {
    match q
    case CreateReq(c) => HandleCreate(cx, st, c)
    case UpdateReq(u) => HandleUpdate(cx, st, u)
    case DeleteReq(d) => HandleDelete(cx, st, d)
    case DeleteCollectionReq(allows, dryRun, options) => HandleDeleteCollection(cx, st, allows, dryRun, options)
  }
}
