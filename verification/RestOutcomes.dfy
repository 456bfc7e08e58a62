/** What each request does, field by field and case by case. */
module RestOutcomes {
  import opened Storage
  import opened Decimal
  import opened Rest
  import opened RestProperties

  // ----- Annotation and filter -----

  /** The annotation is set, and everything else is kept, other annotations included. */
  lemma LabelledExact(r: Report)
    ensures Labelled(r) == Report(r.name, r.namespace, r.generateName, r.labels,
                                  r.annotations["kyverno.reports-server.io/served-by" := "reports-server"],
                                  r.resourceVersion, r.uid, r.creationTimestamp, r.generation, r.body)
    ensures IsServed(r) <==> "kyverno.reports-server.io/served-by" in r.annotations
  {
  }

  /** A report is allowed if and only if there is no selector or it matches; the number
      that comes with it is 1 or 0 accordingly. */
  lemma FilterExact(r: Report, selector: Selector)
    ensures AllowObjectListWatch(r, selector).0 <==> selector.None? || selector.value(r.labels)
    ensures AllowObjectListWatch(r, selector).1 == if selector.None? || selector.value(r.labels) then 1 else 0
  {
  }

  // ----- Create -----

  /** The place a create goes to: the context's namespace if the report has none, the
      generated name if it has none. */
  function CreatedAt(cx: Context, r: Report, generated: string): Coord {
    Coord(if r.namespace == "" then cx.namespace else r.namespace, if r.name == "" then generated else r.name)
  }

  /** Why a create is turned down before it reaches the store. */
  function CreateRefusal(cx: Context, q: CreateRequest): Option<Status> {
    if q.invalid && q.fieldValidation == "Strict" then Some(Invalid)
    else if !q.obj.ReportObject? then Some(BadRequest)
    else if q.obj.report.name == "" && q.obj.report.generateName == "" then
      Some(if cx.kind == PolicyReports || cx.kind == EphemeralReports then Conflict else AlreadyExistsStatus)
    else None
  }

  /** A refused create changes nothing and says why. */
  lemma CreateRefused(cx: Context, st: State, q: CreateRequest)
    requires CreateRefusal(cx, q).Some?
    ensures HandleCreate(cx, st, q) == (st, Error(CreateRefusal(cx, q).value))
  {
  }

  /** A dry run answers with the report as it would be, but for version, UID and time. */
  lemma CreateDryRun(cx: Context, st: State, q: CreateRequest)
    requires CreateRefusal(cx, q).None? && q.dryRun
    ensures var r, c := q.obj.report, CreatedAt(cx, q.obj.report, q.generated);
      HandleCreate(cx, st, q) == (st, Ok(Report(
        c.name, c.namespace, r.generateName, r.labels,
        r.annotations["kyverno.reports-server.io/served-by" := "reports-server"],
        r.resourceVersion, r.uid, r.creationTimestamp, 1, r.body)))
  {
  }

  /** A create succeeds if and only if its place is free and the store is up; then the
      store, the answer and the one Added event all carry the report with every field as
      given, but for place, annotation, version, UID, time and generation. The version is
      used up either way. */
  lemma CreateExact(cx: Context, st: State, q: CreateRequest)
    requires CreateRefusal(cx, q).None? && !q.dryRun
    ensures var r, c := q.obj.report, CreatedAt(cx, q.obj.report, q.generated);
      var created := Report(
        c.name, c.namespace, r.generateName, r.labels,
        r.annotations["kyverno.reports-server.io/served-by" := "reports-server"],
        Format(st.version), q.uid, q.now, 1, r.body);
      var (st', answer) := HandleCreate(cx, st, q);
      && (answer.Ok? <==> c !in st.reports && cx.io(0).read && cx.io(0).write)
      && (answer.Ok? ==>
            && answer == Ok(created) && st'.reports == st.reports[c := created]
            && st'.log == st.log + [WatchEvent(Added, created)])
      && (!answer.Ok? ==>
            && st'.reports == st.reports && st'.log == st.log
            && answer == Error(if cx.kind == PolicyReports || cx.kind == EphemeralReports then AlreadyExistsStatus else BadRequest))
      && st'.version == (st.version + 1) % TWO_TO_THE_64
  {
  }

  // ----- Update -----

  /** What the request finds under its name. */
  function Current(cx: Context, st: State, name: string): Option<Report> {
    if cx.io(0).read && Coord(cx.namespace, name) in st.reports then Some(st.reports[Coord(cx.namespace, name)]) else None
  }

  /** Why an update that is not forced is turned down before it reaches the store. */
  function UpdateRefusal(cx: Context, st: State, q: UpdateRequest): Option<Status> {
    var u := q.updated(Current(cx, st, q.name));
    if Current(cx, st, q.name).None? then Some(StoreError)
    else if u.err then Some(UpdateError)
    else if u.obj.None? || !u.obj.value.ReportObject? then Some(Panic)
    else if q.invalid && q.fieldValidation == "Strict" then Some(Invalid)
    else None
  }

  lemma UpdateRefused(cx: Context, st: State, q: UpdateRequest)
    requires !q.force && UpdateRefusal(cx, st, q).Some?
    ensures HandleUpdate(cx, st, q) == (st, Error(UpdateRefusal(cx, st, q).value))
  {
  }

  /** One up, in 64-bit two's complement. */
  function GenerationAfter(g: int): int {
    if g + 1 == 0x8000_0000_0000_0000 then -0x8000_0000_0000_0000 else g + 1
  }

  /** The updated report as it is answered and stored under `version`. */
  function UpdatedReport(cx: Context, r: Report, version: string): Report {
    Report(r.name, if r.namespace == "" then cx.namespace else r.namespace, r.generateName, r.labels,
           r.annotations["kyverno.reports-server.io/served-by" := "reports-server"],
           version, r.uid, r.creationTimestamp, GenerationAfter(r.generation), r.body)
  }

  /** A dry run answers with the report as it would be, but for the version. */
  lemma UpdateDryRun(cx: Context, st: State, q: UpdateRequest)
    requires !q.force && UpdateRefusal(cx, st, q).None? && q.dryRun
    ensures var r := q.updated(Current(cx, st, q.name)).obj.value.report;
      HandleUpdate(cx, st, q) == (st, Ok(UpdatedReport(cx, r, r.resourceVersion)))
  {
  }

  /** An update that is not forced succeeds if and only if the place of what the request
      makes of the stored report is taken and the store is up; then the store, the answer
      and the one Modified event carry what the request made, every field of it but for
      namespace, annotation, version and generation. */
  lemma UpdateExact(cx: Context, st: State, q: UpdateRequest)
    requires !q.force && UpdateRefusal(cx, st, q).None? && !q.dryRun
    ensures var r := q.updated(Current(cx, st, q.name)).obj.value.report;
      var updated := UpdatedReport(cx, r, Format(st.version));
      var (st', answer) := HandleUpdate(cx, st, q);
      && (answer.Ok? <==> CoordOf(updated) in st.reports && cx.io(1).read && cx.io(1).write)
      && (answer.Ok? ==>
            && answer == Ok(updated) && st'.reports == st.reports[CoordOf(updated) := updated]
            && st'.log == st.log + [WatchEvent(Modified, updated)])
      && (!answer.Ok? ==> answer == Error(BadRequest) && st'.reports == st.reports && st'.log == st.log)
      && st'.version == (st.version + 1) % TWO_TO_THE_64
  {
  }

  /** A forced update answers with, and broadcasts, what the request made, with nothing but
      the version changed, whether or not the store took it. */
  lemma ForcedUpdateExact(cx: Context, st: State, q: UpdateRequest)
    requires q.force
    ensures var u := q.updated(Current(cx, st, q.name));
      var (st', answer) := HandleUpdate(cx, st, q);
      if u.obj.None? || !u.obj.value.ReportObject? then st' == st && answer == Error(Panic)
      else
        var r := u.obj.value.report;
        var updated := Report(r.name, r.namespace, r.generateName, r.labels, r.annotations, Format(st.version),
                              r.uid, r.creationTimestamp, r.generation, r.body);
        && answer == Ok(updated) && st'.log == st.log + [WatchEvent(Modified, updated)]
        && st'.version == (st.version + 1) % TWO_TO_THE_64
        && st'.reports == if CoordOf(r) in st.reports && cx.io(1).read && cx.io(1).write
                          then st.reports[CoordOf(r) := updated] else st.reports
  {
  }

  // ----- Delete -----

  /** A delete of a valid store: what is found under the name is validated, then removed,
      answered and broadcast as it was stored; the counter stays. */
  lemma DeleteExact(cx: Context, st: State, q: DeleteRequest)
    requires Valid(st)
    ensures var c, found := Coord(cx.namespace, q.name), Current(cx, st, q.name);
      var (st', answer) := HandleDelete(cx, st, q);
      if found.None? then st' == st && answer == Error(NotFoundStatus)
      else if !q.allows(found.value) then st' == st && answer == Error(BadRequest)
      else if q.dryRun then st' == st && answer == Ok(found.value)
      else if !cx.io(1).write then st' == st && answer == Error(BadRequest)
      else
        && answer == Ok(found.value) && st'.reports == st.reports - {c} && st'.version == st.version
        && st'.log == st.log + [WatchEvent(Deleted, found.value)]
  {
  }

  // ----- List, Watch and DeleteCollection -----

  /** A version is accepted if and only if it is empty or a decimal number of 64 bits. */
  lemma VersionsAccepted(s: string)
    ensures GoodVersion(s) <==> s == "" || (AllDigits(s) && Value(s) < TWO_TO_THE_64)
  {
  }

  lemma PrintedVersionsAccepted(n: nat)
    ensures GoodVersion(Format(n)) <==> n < TWO_TO_THE_64
  {
    ParseFormat(n);
    FormatValue(n);
  }

  /** A list has exactly the stored reports of the namespace that match, each once; it
      fails if the read does, or on a version that is no number. */
  lemma ListExact(cx: Context, st: State, options: ListOptions)
    requires ListsStore(cx, st)
    ensures var answer := HandleList(cx, options);
      if !cx.io(0).read then answer == Error(BadRequest)
      else if options.resourceVersion != "" && ParseUint(options.resourceVersion).None? then answer == Error(Invalid)
      else answer.OkList? && Enumerates(answer.reports,
        set r | r in ReportsIn(st.reports, cx.namespace) && (options.selector.None? || options.selector.value(r.labels)))
  {
    FilteredSelects(cx.listing, options.selector);
  }

  /** A watch with version "" or "0" always succeeds and sends nothing but later events.
      Any other succeeds if and only if the list does, and sends the listed reports first. */
  lemma WatchExact(cx: Context, st: State, options: ListOptions)
    ensures var w := HandleWatch(cx, st, options);
      if options.resourceVersion == "" || options.resourceVersion == "0" then w == Some(Watcher([], |st.log|))
      else
        && (w.Some? <==> cx.io(0).read && ParseUint(options.resourceVersion).Some?)
        && (w.Some? ==>
              var items := HandleList(cx, options).reports;
              && w.value.since == |st.log| && |w.value.prefix| == |items|
              && forall i :: 0 <= i < |items| ==> w.value.prefix[i] == WatchEvent(Added, items[i]))
  {
  }

  /** A delete-collection whose list fails is refused; as a dry run it answers with the list. */
  lemma DeleteCollectionLists(cx: Context, st: State, allows: Report -> bool, dryRun: bool, options: ListOptions)
    ensures var result := HandleDeleteCollection(cx, st, allows, dryRun, options);
      && (!HandleList(cx, options).OkList? ==> result == (st, Error(BadRequest)))
      && (HandleList(cx, options).OkList? && dryRun ==> result == (st, HandleList(cx, options)))
  {
  }
}
