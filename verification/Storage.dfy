/** The report storage interface: four kinds of reports, each a map from
    (namespace, name) to a report, with Get, List, Create, Update and Delete.
    The etcd and in-memory backends are proved against the step relation defined here, and
    the Postgres backend exactly where it follows it. */
module Storage {

  datatype Option<+T> = None | Some(value: T)

  /** The four report kinds, each with its own store. */
  datatype Kind = PolicyReports | ClusterPolicyReports | EphemeralReports | ClusterEphemeralReports

  /** Where a report lives. Cluster-scoped reports have an empty namespace. */
  datatype Coord = Coord(namespace: string, name: string)

  /** The part of a report's metadata the server reads or writes, and the rest as one body. */
  datatype Report = Report(
    name: string,
    namespace: string,
    generateName: string,
    labels: map<string, string>,
    annotations: map<string, string>,
    resourceVersion: string,
    uid: string,
    creationTimestamp: int,
    generation: int,
    body: string)

  function CoordOf(r: Report): Coord {
    Coord(r.namespace, r.name)
  }

  type Reports = map<Coord, Report>

  /** Every stored report sits at the place its own name and namespace spell. */
  ghost predicate WellFormed(m: Reports) {
    forall c :: c in m ==> CoordOf(m[c]) == c
  }

  /** The empty namespace stands for all namespaces. */
  predicate InNamespace(c: Coord, namespace: string) {
    namespace == "" || c.namespace == namespace
  }

  ghost function ReportsIn(m: Reports, namespace: string): set<Report> {
    set c | c in m && InNamespace(c, namespace) :: m[c]
  }

  /** `s` lists the elements of `elems`, each once, in some order. */
  ghost predicate Enumerates<T(!new)>(s: seq<T>, elems: set<T>) {
    && (forall i, j :: 0 <= i < j < |s| ==> s[i] != s[j])
    && (forall x :: x in s <==> x in elems)
  }

  lemma {:induction false} EnumerationIsMultiset<T(!new)>(s: seq<T>, elems: set<T>)
    requires Enumerates(s, elems)
    ensures multiset(s) == multiset(elems)
  {
    if s == [] {
      assert elems == {};
    } else {
      var last := |s| - 1;
      var init := s[..last];
      assert s == init + [s[last]];
      forall x ensures x in init <==> x in elems - {s[last]} {
        assert x in s <==> x in init || x == s[last];
      }
      EnumerationIsMultiset(init, elems - {s[last]});
      assert elems == (elems - {s[last]}) + {s[last]};
    }
  }

  lemma {:induction false} EnumerationExists<T(!new)>(elems: set<T>) returns (s: seq<T>)
    ensures Enumerates(s, elems)
  {
    if elems == {} {
      s := [];
    } else {
      var x :| x in elems;
      var init := EnumerationExists(elems - {x});
      assert x !in init;
      s := init + [x];
    }
  }

  /** The five operations of the interface. */
  datatype Op =
    | Get(at: Coord)
    | List(namespace: string)
    | Create(report: Report)
    | Update(report: Report)
    | Delete(at: Coord)

  datatype Error = NotFound | AlreadyExists | Unavailable

  datatype Answer =
    | Found(report: Report)
    | Listed(reports: seq<Report>)
    | Done
    | Failed(error: Error)

  /** Whether the backend's read call and its write call come back without an error. */
  datatype Io = Io(read: bool, write: bool)

  const ALL_UP := Io(true, true)

  /** The contents after an operation. */
  function Next(m: Reports, op: Op, io: Io): Reports {
    match op
    case Get(_) => m
    case List(_) => m
    case Create(r) => if io.read && CoordOf(r) !in m && io.write then m[CoordOf(r) := r] else m
    case Update(r) => if io.read && CoordOf(r) in m && io.write then m[CoordOf(r) := r] else m
    case Delete(c) => if io.write then m - {c} else m
  }

  /** The answers an operation may give; only the order of a list is left open. */
  ghost predicate Answers(m: Reports, op: Op, io: Io, a: Answer) {
    match op
    case Get(c) =>
      a == if !io.read then Failed(Unavailable) else if c in m then Found(m[c]) else Failed(NotFound)
    case List(ns) =>
      if !io.read then a == Failed(Unavailable)
      else a.Listed? && Enumerates(a.reports, ReportsIn(m, ns))
    case Create(r) =>
      a == if !io.read then Failed(Unavailable)
           else if CoordOf(r) in m then Failed(AlreadyExists)
           else if !io.write then Failed(Unavailable) else Done
    case Update(r) =>
      a == if !io.read then Failed(Unavailable)
           else if CoordOf(r) !in m then Failed(NotFound)
           else if !io.write then Failed(Unavailable) else Done
    case Delete(c) =>
      a == if !io.write then Failed(Unavailable) else if c in m then Done else Failed(NotFound)
  }

  /** Equal answers, except that a list may come in another order. */
  ghost predicate SameAnswer(a: Answer, b: Answer) {
    a == b || (a.Listed? && b.Listed? && multiset(a.reports) == multiset(b.reports))
  }

  /** The interface fixes every answer up to the order of a list. */
  lemma AnswersAgree(m: Reports, op: Op, io: Io, a: Answer, b: Answer)
    requires Answers(m, op, io, a) && Answers(m, op, io, b)
    ensures SameAnswer(a, b)
  {
    if op.List? && io.read {
      EnumerationIsMultiset(a.reports, ReportsIn(m, op.namespace));
      EnumerationIsMultiset(b.reports, ReportsIn(m, op.namespace));
    }
  }

  // ----- The interface told through its reads -----

  /** A write that is done is read back at its place; nothing else changes what is read anywhere. */
  lemma ReadAfter(m: Reports, op: Op, io: Io, a: Answer, c: Coord, before: Answer, after: Answer)
    requires Answers(m, op, io, a)
    requires Answers(m, Get(c), ALL_UP, before) && Answers(Next(m, op, io), Get(c), ALL_UP, after)
    ensures after ==
      if a == Done && (op.Create? || op.Update?) && CoordOf(op.report) == c then Found(op.report)
      else if a == Done && op == Delete(c) then Failed(NotFound)
      else before
  {
  }

  /** Each write's answer, by what is read at its place before: a create needs the place
      free, an update and a delete need it taken, and all need the calls they make. */
  lemma AnswersByRead(m: Reports, op: Op, io: Io, a: Answer, before: Answer)
    requires Answers(m, op, io, a) && (op.Create? || op.Update? || op.Delete?)
    requires Answers(m, Get(if op.Delete? then op.at else CoordOf(op.report)), ALL_UP, before)
    ensures before.Found? || before == Failed(NotFound)
    ensures a == Done || a.Failed?
    ensures op.Create? ==>
      && (a == Done <==> !before.Found? && io.read && io.write)
      && (a == Failed(AlreadyExists) <==> before.Found? && io.read) && a != Failed(NotFound)
    ensures op.Update? ==>
      && (a == Done <==> before.Found? && io.read && io.write)
      && (a == Failed(NotFound) <==> !before.Found? && io.read) && a != Failed(AlreadyExists)
    ensures op.Delete? ==>
      && (a == Done <==> before.Found? && io.write)
      && (a == Failed(NotFound) <==> !before.Found? && io.write) && a != Failed(AlreadyExists)
  {
  }

  /** A list has exactly what single reads find in the namespace, each report once. */
  lemma ListedIffRead(m: Reports, namespace: string, a: Answer, r: Report)
    requires WellFormed(m) && Answers(m, List(namespace), ALL_UP, a)
    ensures a.Listed? && forall i, j :: 0 <= i < j < |a.reports| ==> a.reports[i] != a.reports[j]
    ensures r in a.reports <==>
      Answers(m, Get(CoordOf(r)), ALL_UP, Found(r)) && (namespace == "" || r.namespace == namespace)
  {
    if CoordOf(r) in m && m[CoordOf(r)] == r && InNamespace(CoordOf(r), namespace) {
      assert r in ReportsIn(m, namespace);
    }
  }
}
