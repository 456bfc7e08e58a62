/** The Postgres backend: one table for all clusters, written on the primary and read
    through the replicas, each of which has applied some of the primary's writes. */
module Postgres {
  import opened Storage
  import opened MultiDb

  /** The table's primary key. */
  datatype RowKey = RowKey(cluster: string, at: Coord)

  type Table = map<RowKey, Report>

  /** What a statement does to the table; an update of a missing row does nothing. */
  datatype Write = Insert(key: RowKey, report: Report) | SetRow(key: RowKey, report: Report) | Remove(key: RowKey)

  function Apply(t: Table, w: Write): Table {
    match w
    case Insert(k, r) => t[k := r]
    case SetRow(k, r) => if k in t then t[k := r] else t
    case Remove(k) => t - {k}
  }

  function Replay(writes: seq<Write>): Table {
    if writes == [] then map[] else Apply(Replay(writes[..|writes| - 1]), writes[|writes| - 1])
  }

  lemma ReplaySnoc(writes: seq<Write>, w: Write)
    ensures Replay(writes + [w]) == Apply(Replay(writes), w)
  {
    assert (writes + [w])[..|writes|] == writes;
  }

  // ----- The SELECT statements -----

  function SelectOne(t: Table, cluster: string, at: Coord): Option<Report> {
    if RowKey(cluster, at) in t then Some(t[RowKey(cluster, at)]) else None
  }

  /** With the empty namespace the condition on the namespace is left out. */
  function SelectRows(t: Table, cluster: string, namespace: string): map<Coord, Report> {
    map k | k in t && k.cluster == cluster && InNamespace(k.at, namespace) :: k.at := t[k]
  }

  /** `reports` are the rows' values, in some order of the rows. */
  ghost predicate RowsInOrder(rows: map<Coord, Report>, reports: seq<Report>) {
    exists order: seq<Coord> :: RowsInThisOrder(rows, order, reports)
  }

  ghost predicate RowsInThisOrder(rows: map<Coord, Report>, order: seq<Coord>, reports: seq<Report>) {
    && Enumerates(order, rows.Keys) && |reports| == |order|
    && (forall i :: 0 <= i < |order| ==> order[i] in rows && reports[i] == rows[order[i]])
  }

  // ----- The nodes -----

  datatype Node = Primary | Replica(id: nat)

  /** Which nodes answer, and how many of the primary's writes each replica has applied. */
  datatype Network = Network(up: Node -> bool, applied: nat -> nat)

  function Seen(writes: seq<Write>, net: Network, node: Node): (n: nat)
    ensures n <= |writes|
  {
    if node.Replica? && net.applied(node.id) <= |writes| then net.applied(node.id) else |writes|
  }

  function TableAt(writes: seq<Write>, net: Network, node: Node): Table {
    Replay(writes[..Seen(writes, net, node)])
  }

  // ----- One store call -----

  /** The primary's table after a call. The call's SELECT, if it has one, is answered from
      `seen`; `io` says whether that read and the statement on the primary come back. */
  function CallNext(t: Table, seen: Table, cluster: string, op: Op, io: Io): Table {
    match op
    case Get(_) => t
    case List(_) => t
    case Create(r) =>
      var key := RowKey(cluster, CoordOf(r));
      if io.write && key !in t then Apply(t, Insert(key, r)) else t
    case Update(r) => if io.write then Apply(t, SetRow(RowKey(cluster, CoordOf(r)), r)) else t
    case Delete(c) =>
      if io.read && RowKey(cluster, c) in seen && io.write then Apply(t, Remove(RowKey(cluster, c))) else t
  }

  /** What a call answers. A delete whose read finds no row ends there, with an error. */
  ghost predicate CallAnswers(t: Table, seen: Table, cluster: string, op: Op, io: Io, a: Answer) {
    match op
    case Get(c) =>
      a == if !io.read then Failed(Unavailable)
           else if RowKey(cluster, c) in seen then Found(seen[RowKey(cluster, c)]) else Failed(NotFound)
    case List(ns) =>
      if !io.read then a == Failed(Unavailable)
      else a.Listed? && RowsInOrder(SelectRows(seen, cluster, ns), a.reports)
    case Create(r) =>
      a == if !io.write then Failed(Unavailable)
           else if RowKey(cluster, CoordOf(r)) in t then Failed(AlreadyExists) else Done
    case Update(_) => a == if io.write then Done else Failed(Unavailable)
    case Delete(c) =>
      a == if !io.read then Failed(Unavailable)
           else if RowKey(cluster, c) !in seen then Failed(NotFound)
           else if !io.write then Failed(Unavailable) else Done
  }

  /** Some state the primary's table was in, now or before, satisfies `holds`. */
  ghost predicate AtSomeTime(writes: seq<Write>, holds: Table -> bool) {
    exists n :: 0 <= n <= |writes| && holds(Replay(writes[..n]))
  }

  method Collect(rows: map<Coord, Report>) returns (reports: seq<Report>)
    ensures RowsInOrder(rows, reports)
  {
    reports := [];
    ghost var order: seq<Coord> := [];
    var todo := rows.Keys;
    while todo != {}
      invariant todo <= rows.Keys && Enumerates(order, rows.Keys - todo) && |reports| == |order|
      invariant forall i :: 0 <= i < |order| ==> order[i] in rows && reports[i] == rows[order[i]]
      decreases todo
    {
      var c :| c in todo;
      assert c !in order;
      reports, order, todo := reports + [rows[c]], order + [c], todo - {c};
    }
    assert RowsInThisOrder(rows, order, reports);
  }

  /** The primary's log of writes, shared by all servers. */
  class PrimaryDb {
    var writes: seq<Write>

    constructor ()
      ensures writes == []
    {
      writes := [];
    }

    ghost function Rows(): Table
      reads this
    {
      Replay(writes)
    }
  }

  /** One server's policy report store. */
  class PolicyReportStore {
    const db: PrimaryDb
    const nodes: MultiDB<Node>
    const clusterId: string

    constructor (db: PrimaryDb, nodes: MultiDB<Node>, clusterId: string)
      ensures this.db == db && this.nodes == nodes && this.clusterId == clusterId
    {
      this.db, this.nodes, this.clusterId := db, nodes, clusterId;
    }

    /** A successful list is the answer at some past or present state of the primary;
        it fails if and only if every node fails. */
    method List(namespace: string, net: Network, draws: seq<Option<nat>>) returns (a: Answer, ghost node: Node)
      requires IsDraw(draws, nodes.replicas.Length)
      ensures CallAnswers(db.Rows(), TableAt(db.writes, net, node), clusterId, Op.List(namespace), Io(net.up(node), true), a)
      ensures a.Listed? || a == Failed(Unavailable)
      ensures a.Listed? ==> AtSomeTime(db.writes, t => RowsInOrder(SelectRows(t, clusterId, namespace), a.reports))
      ensures a.Failed? <==> !net.up(nodes.primary) && forall i :: 0 <= i < nodes.replicas.Length ==> !net.up(nodes.replicas[i])
    {
      node := nodes.primary;
      var writes := db.writes;
      var cluster := clusterId;
      var ask := (node: Node) =>
        if net.up(node) then Some(SelectRows(TableAt(writes, net, node), cluster, namespace)) else None;
      var rows, tried := nodes.ReadQuery(ask, draws);
      if rows.None? {
        return Failed(Unavailable), node;
      }
      var res := Collect(rows.value);
      node := tried[|tried| - 1];
      ghost var n := Seen(writes, net, node);
      assert RowsInOrder(SelectRows(Replay(db.writes[..n]), clusterId, namespace), res);
      return Listed(res), node;
    }

    method Get(at: Coord, net: Network, draws: seq<Option<nat>>) returns (a: Answer, ghost node: Node)
      requires IsDraw(draws, nodes.replicas.Length)
      ensures a == Failed(Unavailable) <==> !net.up(nodes.primary) && forall i :: 0 <= i < nodes.replicas.Length ==> !net.up(nodes.replicas[i])
      ensures a != Failed(Unavailable) ==>
        net.up(node) && (node == nodes.primary || node in nodes.replicas[..])
      ensures node !in nodes.replicas[..] ==> forall i :: 0 <= i < nodes.replicas.Length ==> !net.up(nodes.replicas[i])
      ensures a == Failed(Unavailable) ==> node == nodes.primary
      ensures CallAnswers(db.Rows(), TableAt(db.writes, net, node), clusterId, Op.Get(at), Io(net.up(node), true), a)
      ensures a != Failed(Unavailable) ==> AtSomeTime(db.writes, t =>
        a == match SelectOne(t, clusterId, at) case Some(r) => Found(r) case None => Failed(NotFound))
    {
      node := nodes.primary;
      var writes := db.writes;
      var cluster := clusterId;
      var ask := (node: Node) =>
        if net.up(node) then Some(SelectOne(TableAt(writes, net, node), cluster, at)) else None;
      var row, tried := nodes.ReadQuery(ask, draws);
      if row.None? {
        return Failed(Unavailable), node;
      }
      node := tried[|tried| - 1];
      TriedIsConfigured(nodes.replicas[..], nodes.primary, ChoiceOf(draws), tried);
      ghost var n := Seen(writes, net, node);
      assert Replay(db.writes[..n]) == TableAt(db.writes, net, node);
      if row.value.None? {
        return Failed(NotFound), node;
      }
      return Found(row.value.value), node;
    }

    method Create(polr: Report, up: bool) returns (a: Answer)
      modifies db
      ensures a == if !up then Failed(Unavailable)
                   else if RowKey(clusterId, CoordOf(polr)) in old(db.Rows()) then Failed(AlreadyExists) else Done
      ensures db.Rows() == if a == Done then old(db.Rows())[RowKey(clusterId, CoordOf(polr)) := polr] else old(db.Rows())
      ensures db.Rows() == CallNext(old(db.Rows()), old(db.Rows()), clusterId, Op.Create(polr), Io(true, up))
      ensures CallAnswers(old(db.Rows()), old(db.Rows()), clusterId, Op.Create(polr), Io(true, up), a)
      ensures old(db.writes) <= db.writes && (WellPlaced(old(db.writes)) ==> WellPlaced(db.writes))
    {
      var key := RowKey(clusterId, CoordOf(polr));
      if !up {
        return Failed(Unavailable);
      }
      if key in Replay(db.writes) {
        return Failed(AlreadyExists);
      }
      ReplaySnoc(db.writes, Insert(key, polr));
      db.writes := db.writes + [Insert(key, polr)];
      return Done;
    }

    /** An update of a row that is not there reports success and changes nothing. */
    method Update(polr: Report, up: bool) returns (a: Answer)
      modifies db
      ensures a == if up then Done else Failed(Unavailable)
      ensures var key := RowKey(clusterId, CoordOf(polr));
        db.Rows() == if up && key in old(db.Rows()) then old(db.Rows())[key := polr] else old(db.Rows())
      ensures db.Rows() == CallNext(old(db.Rows()), old(db.Rows()), clusterId, Op.Update(polr), Io(true, up))
      ensures CallAnswers(old(db.Rows()), old(db.Rows()), clusterId, Op.Update(polr), Io(true, up), a)
      ensures old(db.writes) <= db.writes && (WellPlaced(old(db.writes)) ==> WellPlaced(db.writes))
    {
      if !up {
        return Failed(Unavailable);
      }
      var w := SetRow(RowKey(clusterId, CoordOf(polr)), polr);
      ReplaySnoc(db.writes, w);
      db.writes := db.writes + [w];
      return Done;
    }

    /** The read goes to any node, the delete to the primary. It succeeds if and only if the
        node that answers has the row and the primary takes the delete; then the row is
        absent on the primary. A read that fails or finds no row ends the call with an error
        and the primary as it was, for the error no longer says there was no row. */
    method Delete(at: Coord, net: Network, draws: seq<Option<nat>>, up: bool) returns (a: Answer, ghost node: Node)
      requires IsDraw(draws, nodes.replicas.Length)
      modifies db
      ensures a == Done || a == Failed(NotFound) || a == Failed(Unavailable)
      ensures a == Done <==> up && net.up(node) && SelectOne(TableAt(old(db.writes), net, node), clusterId, at).Some?
      ensures a == Failed(NotFound) <==> net.up(node) && SelectOne(TableAt(old(db.writes), net, node), clusterId, at).None?
      ensures a == Done ==> RowKey(clusterId, at) !in db.Rows() && db.Rows() == old(db.Rows()) - {RowKey(clusterId, at)}
      ensures a != Done ==> db.writes == old(db.writes)
      ensures !net.up(node) ==>
        node == nodes.primary && forall i :: 0 <= i < nodes.replicas.Length ==> !net.up(nodes.replicas[i])
      ensures node !in nodes.replicas[..] ==>
        node == nodes.primary && forall i :: 0 <= i < nodes.replicas.Length ==> !net.up(nodes.replicas[i])
      ensures var seen, io := TableAt(old(db.writes), net, node), Io(net.up(node), up);
        && db.Rows() == CallNext(old(db.Rows()), seen, clusterId, Op.Delete(at), io)
        && CallAnswers(old(db.Rows()), seen, clusterId, Op.Delete(at), io, a)
      ensures old(db.writes) <= db.writes && (WellPlaced(old(db.writes)) ==> WellPlaced(db.writes))
    {
      var report;
      report, node := Get(at, net, draws);
      if report.Failed? {
        return report, node;
      }
      if !up {
        return Failed(Unavailable), node;
      }
      var w := Remove(RowKey(clusterId, at));
      ReplaySnoc(db.writes, w);
      db.writes := db.writes + [w];
      return Done, node;
    }
  }

  lemma TriedIsConfigured(replicas: seq<Node>, primary: Node, choice: seq<nat>, tried: seq<Node>)
    requires IsChoice(choice, |replicas|) && tried <= Shuffled(replicas, choice) + [primary] && tried != []
    ensures tried[|tried| - 1] == primary || tried[|tried| - 1] in replicas
    ensures |tried| <= |replicas| ==> tried[|tried| - 1] in replicas
  {
    ShufflePermutes(replicas, choice, |replicas| - 1);
    SameMembers(replicas, Shuffled(replicas, choice));
    var all := Shuffled(replicas, choice) + [primary];
    assert tried[|tried| - 1] == all[|tried| - 1];
  }

  /** A row created on the primary while the only replica has applied nothing yet: the
      delete that follows fails, though all nodes are up, and the row stays. */
  method LaggingReplicaHidesRow(cluster: string, polr: Report) returns (a: Answer, db: PrimaryDb)
    ensures a == Failed(NotFound) && RowKey(cluster, CoordOf(polr)) in db.Rows()
  {
    db := new PrimaryDb();
    var replicas := new Node[1](_ => Replica(0));
    var nodes := new MultiDB<Node>(Primary, replicas);
    var store := new PolicyReportStore(db, nodes, cluster);
    var created := store.Create(polr, true);
    assert replicas[0] == Replica(0);
    ghost var node: Node;
    a, node := store.Delete(CoordOf(polr), Network(_ => true, _ => 0), [None], true);
  }

  // ----- Every row holds a report of its own place -----

  predicate Placed(w: Write) {
    !w.Remove? ==> CoordOf(w.report) == w.key.at
  }

  ghost predicate WellPlaced(writes: seq<Write>) {
    forall i :: 0 <= i < |writes| ==> Placed(writes[i])
  }

  ghost predicate OwnPlaces(t: Table) {
    forall k :: k in t ==> CoordOf(t[k]) == k.at
  }

  /** So it is at every time, and on every replica. */
  lemma {:induction false} ReplayOwnPlaces(writes: seq<Write>)
    requires WellPlaced(writes)
    ensures OwnPlaces(Replay(writes))
  {
    if writes != [] {
      ReplayOwnPlaces(writes[..|writes| - 1]);
      assert Placed(writes[|writes| - 1]);
    }
  }

  // ----- Where this backend departs from the storage interface -----

  /** The reports of one cluster, as the storage interface sees them. */
  function Own(t: Table, cluster: string): Reports {
    SelectRows(t, cluster, "")
  }

  /** An update follows the interface if and only if the row is there. */
  lemma UpdateFollowsInterfaceIff(t: Table, cluster: string, r: Report)
    ensures Answers(Own(t, cluster), Update(r), ALL_UP, Done) <==> RowKey(cluster, CoordOf(r)) in t
    ensures Own(Apply(t, SetRow(RowKey(cluster, CoordOf(r)), r)), cluster) == Next(Own(t, cluster), Update(r), ALL_UP)
  {
    var key := RowKey(cluster, CoordOf(r));
    OwnHas(t, cluster, CoordOf(r));
    forall c ensures c in Own(t, cluster) <==> RowKey(cluster, c) in t {
      OwnHas(t, cluster, c);
    }
    var t' := Apply(t, SetRow(key, r));
    forall c ensures c in Own(t', cluster) <==> RowKey(cluster, c) in t' {
      OwnHas(t', cluster, c);
    }
  }

  lemma OwnHas(t: Table, cluster: string, c: Coord)
    ensures c in Own(t, cluster) <==> RowKey(cluster, c) in t
    ensures c in Own(t, cluster) ==> Own(t, cluster)[c] == t[RowKey(cluster, c)]
  {
    if RowKey(cluster, c) in t {
      assert RowKey(cluster, c).cluster == cluster;
    }
  }

  /** Whatever the call answers, the interface allows, and the cluster's reports move as it says. */
  ghost predicate FollowsInterface(t: Table, seen: Table, cluster: string, op: Op, io: Io) {
    && Own(CallNext(t, seen, cluster, op, io), cluster) == Next(Own(t, cluster), op, io)
    && forall a :: CallAnswers(t, seen, cluster, op, io, a) ==> Answers(Own(t, cluster), op, io, a)
  }

  /** When it does: a read needs a node that has caught up on what it asks for, an update
      needs the row, a delete needs the node and the primary to agree on it. With a call
      down, the errors agree only where the same call decides. */
  predicate Follows(t: Table, seen: Table, cluster: string, op: Op, io: Io) {
    match op
    case Get(c) => io.read ==> SelectOne(seen, cluster, c) == SelectOne(t, cluster, c)
    case List(ns) => io.read ==> SelectRows(seen, cluster, ns) == SelectRows(t, cluster, ns)
    case Create(r) => if io.read then io.write || RowKey(cluster, CoordOf(r)) !in t else !io.write
    case Update(r) => if io.read then RowKey(cluster, CoordOf(r)) in t else !io.write
    case Delete(c) =>
      if !io.read then !io.write
      else if RowKey(cluster, c) in seen then io.write ==> RowKey(cluster, c) in t
      else io.write && RowKey(cluster, c) !in t
  }

  lemma SelectRowsHas(t: Table, cluster: string, namespace: string, c: Coord)
    ensures var rows := SelectRows(t, cluster, namespace);
      && (c in rows <==> RowKey(cluster, c) in t && InNamespace(c, namespace))
      && (c in rows ==> rows[c] == t[RowKey(cluster, c)])
  {
    var k := RowKey(cluster, c);
    assert k.cluster == cluster && k.at == c;
  }

  /** The answer of any call but a list is the interface's if and only if the condition holds. */
  lemma AnswerFollowsIff(t: Table, seen: Table, cluster: string, op: Op, io: Io, a: Answer)
    requires !op.List? && CallAnswers(t, seen, cluster, op, io, a)
    ensures Answers(Own(t, cluster), op, io, a) <==> Follows(t, seen, cluster, op, io)
  {
    OwnHas(t, cluster, match op case Get(c) => c case Create(r) => CoordOf(r) case Update(r) => CoordOf(r) case Delete(c) => c);
  }

  lemma OwnChange(t: Table, cluster: string, c: Coord, r: Report)
    ensures Own(t[RowKey(cluster, c) := r], cluster) == Own(t, cluster)[c := r]
    ensures Own(t - {RowKey(cluster, c)}, cluster) == Own(t, cluster) - {c}
  {
    var put, removed := t[RowKey(cluster, c) := r], t - {RowKey(cluster, c)};
    forall c' ensures c' in Own(put, cluster) <==> c' in Own(t, cluster)[c := r]
              ensures c' in Own(removed, cluster) <==> c' in Own(t, cluster) - {c}
    {
      OwnHas(t, cluster, c');
      OwnHas(put, cluster, c');
      OwnHas(removed, cluster, c');
    }
  }

  /** Then the cluster's reports move as the interface says. */
  lemma FollowsMoves(t: Table, seen: Table, cluster: string, op: Op, io: Io)
    requires Follows(t, seen, cluster, op, io)
    ensures Own(CallNext(t, seen, cluster, op, io), cluster) == Next(Own(t, cluster), op, io)
  {
    match op
    case Get(_) =>
    case List(_) =>
    case Create(r) => OwnHas(t, cluster, CoordOf(r)); OwnChange(t, cluster, CoordOf(r), r);
    case Update(r) => OwnHas(t, cluster, CoordOf(r)); OwnChange(t, cluster, CoordOf(r), r);
    case Delete(c) =>
      OwnHas(t, cluster, c);
      if c in Own(t, cluster) {
        OwnChange(t, cluster, c, Own(t, cluster)[c]);
      } else {
        assert Own(t, cluster) - {c} == Own(t, cluster);
        assert t - {RowKey(cluster, c)} == t;
      }
  }

  // ----- Lists -----

  lemma RowsAreDistinct(rows: map<Coord, Report>, order: seq<Coord>, reports: seq<Report>)
    requires RowsInThisOrder(rows, order, reports) && forall c :: c in rows ==> CoordOf(rows[c]) == c
    ensures forall i, j :: 0 <= i < j < |reports| ==> reports[i] != reports[j]
    ensures forall x :: x in reports <==> CoordOf(x) in rows && rows[CoordOf(x)] == x
  {
    forall x | CoordOf(x) in rows && rows[CoordOf(x)] == x ensures x in reports {
      assert CoordOf(x) in order;
      var i :| 0 <= i < |order| && order[i] == CoordOf(x);
      assert reports[i] == x;
    }
    forall i, j | 0 <= i < j < |reports| ensures reports[i] != reports[j] {
      assert order[i] != order[j];
    }
  }

  lemma OwnReportsIn(t: Table, cluster: string, namespace: string, x: Report)
    requires OwnPlaces(t)
    ensures var rows := SelectRows(t, cluster, namespace);
      x in ReportsIn(Own(t, cluster), namespace) <==> CoordOf(x) in rows && rows[CoordOf(x)] == x
  {
    var m, rows := Own(t, cluster), SelectRows(t, cluster, namespace);
    SelectRowsHas(t, cluster, namespace, CoordOf(x));
    OwnHas(t, cluster, CoordOf(x));
    if x in ReportsIn(m, namespace) {
      var c :| c in m && InNamespace(c, namespace) && m[c] == x;
      OwnHas(t, cluster, c);
    }
    if CoordOf(x) in rows && rows[CoordOf(x)] == x {
      assert m[CoordOf(x)] == x;
    }
  }

  lemma RowPlaces(t: Table, cluster: string, namespace: string)
    requires OwnPlaces(t)
    ensures forall c :: c in SelectRows(t, cluster, namespace) ==> CoordOf(SelectRows(t, cluster, namespace)[c]) == c
  {
    forall c | c in SelectRows(t, cluster, namespace) ensures CoordOf(SelectRows(t, cluster, namespace)[c]) == c {
      SelectRowsHas(t, cluster, namespace, c);
    }
  }

  /** A list read from `seen` is a list of the primary's reports if and only if the two
      have the same rows to list. */
  lemma ListFollowsIff(t: Table, seen: Table, cluster: string, namespace: string, reports: seq<Report>)
    requires OwnPlaces(t) && OwnPlaces(seen) && RowsInOrder(SelectRows(seen, cluster, namespace), reports)
    ensures Enumerates(reports, ReportsIn(Own(t, cluster), namespace))
       <==> SelectRows(seen, cluster, namespace) == SelectRows(t, cluster, namespace)
  {
    var a, b := SelectRows(seen, cluster, namespace), SelectRows(t, cluster, namespace);
    RowPlaces(t, cluster, namespace);
    RowPlaces(seen, cluster, namespace);
    var order :| RowsInThisOrder(a, order, reports);
    RowsAreDistinct(a, order, reports);
    forall x ensures x in ReportsIn(Own(t, cluster), namespace) <==> CoordOf(x) in b && b[CoordOf(x)] == x {
      OwnReportsIn(t, cluster, namespace, x);
    }
    if Enumerates(reports, ReportsIn(Own(t, cluster), namespace)) {
      SameRows(a, b, reports);
    }
  }

  lemma SameRows(a: map<Coord, Report>, b: map<Coord, Report>, reports: seq<Report>)
    requires (forall c :: c in a ==> CoordOf(a[c]) == c) && (forall c :: c in b ==> CoordOf(b[c]) == c)
    requires forall x :: x in reports <==> CoordOf(x) in a && a[CoordOf(x)] == x
    requires forall x :: x in reports <==> CoordOf(x) in b && b[CoordOf(x)] == x
    ensures a == b
  {
    forall c | c in a ensures c in b && b[c] == a[c] {
      assert a[c] in reports;
    }
    forall c | c in b ensures c in a {
      assert b[c] in reports;
    }
  }

  lemma SomeOrder(rows: map<Coord, Report>) returns (reports: seq<Report>)
    ensures RowsInOrder(rows, reports)
  {
    var order := EnumerationExists(rows.Keys);
    reports := seq(|order|, i requires 0 <= i < |order| => assert order[i] in order; rows[order[i]]);
    assert RowsInThisOrder(rows, order, reports);
  }

  /** For every operation: exactly when this backend answers and moves as the storage interface says. */
  lemma FollowsInterfaceIff(t: Table, seen: Table, cluster: string, op: Op, io: Io)
    requires OwnPlaces(t) && OwnPlaces(seen)
    ensures FollowsInterface(t, seen, cluster, op, io) <==> Follows(t, seen, cluster, op, io)
  {
    var m := Own(t, cluster);
    if Follows(t, seen, cluster, op, io) {
      FollowsMoves(t, seen, cluster, op, io);
    }
    forall a | CallAnswers(t, seen, cluster, op, io, a)
      ensures Answers(m, op, io, a) <==> Follows(t, seen, cluster, op, io)
    {
      if !op.List? {
        AnswerFollowsIff(t, seen, cluster, op, io, a);
      } else if io.read {
        ListFollowsIff(t, seen, cluster, op.namespace, a.reports);
      }
    }
    var a := SomeAnswer(t, seen, cluster, op, io);
  }

  lemma SomeAnswer(t: Table, seen: Table, cluster: string, op: Op, io: Io) returns (a: Answer)
    ensures CallAnswers(t, seen, cluster, op, io, a)
  {
    match op
    case List(ns) =>
      var reports := SomeOrder(SelectRows(seen, cluster, ns));
      a := if io.read then Listed(reports) else Failed(Unavailable);
    case Get(c) =>
      a := if !io.read then Failed(Unavailable)
           else if RowKey(cluster, c) in seen then Found(seen[RowKey(cluster, c)]) else Failed(NotFound);
    case Create(r) =>
      a := if !io.write then Failed(Unavailable)
           else if RowKey(cluster, CoordOf(r)) in t then Failed(AlreadyExists) else Done;
    case Update(_) => a := if io.write then Done else Failed(Unavailable);
    case Delete(c) =>
      a := if !io.read then Failed(Unavailable)
           else if RowKey(cluster, c) !in seen then Failed(NotFound)
           else if !io.write then Failed(Unavailable) else Done;
  }
}
