/** Servers of different clusters sharing one table, their SQL statements interleaved in
    any order. Each behaves as if the others were not there. */
module PostgresIsolation {
  import opened Storage
  import opened Postgres

  type Thread = nat

  /** What a store call returns; rows come without an order. */
  datatype Reply = Row(report: Report) | Rows(rows: map<Coord, Report>) | Ok | Err(error: Error)

  /** Where a goroutine is inside a store call. */
  datatype Pc =
    | Idle
    | Waiting(op: Op)      // a write, not yet holding the server's mutex
    | Running(op: Op)      // its next statement is the first
    | Selected(at: Coord)  // a delete whose SELECT found the row

  /** Calls and returns; `io` says which of the call's statements came back. */
  datatype Event =
    | Called(thread: Thread, op: Op)
    | Returned(thread: Thread, op: Op, io: Io, reply: Reply)

  datatype Server = Server(mutex: Option<Thread>, pcs: map<Thread, Pc>, history: seq<Event>)

  datatype World = World(table: Table, servers: map<string, Server>)

  function PcOf(sv: Server, t: Thread): Pc {
    if t in sv.pcs then sv.pcs[t] else Idle
  }

  const NEW_SERVER := Server(None, map[], [])

  function ServerOf(w: World, cluster: string): Server {
    if cluster in w.servers then w.servers[cluster] else NEW_SERVER
  }

  datatype Step = Call(op: Op) | Lock | Statement(up: bool)

  datatype Action = Action(cluster: string, thread: Thread, step: Step)

  predicate IsWrite(op: Op) {
    op.Create? || op.Update? || op.Delete?
  }

  function Goto(sv: Server, t: Thread, pc: Pc): Server {
    sv.(pcs := sv.pcs[t := pc])
  }

  /** Return `reply`; a write also releases the mutex. */
  function Return(sv: Server, t: Thread, op: Op, io: Io, reply: Reply): Server {
    Server(if IsWrite(op) then None else sv.mutex, sv.pcs[t := Idle], sv.history + [Returned(t, op, io, reply)])
  }

  /** The first or only statement of a call: SELECT, INSERT or UPDATE. */
  function FirstStatement(cluster: string, table: Table, sv: Server, t: Thread, op: Op, up: bool): (Table, Server) {
    match op
    case Get(at) =>
      var row := SelectOne(table, cluster, at);
      (table, Return(sv, t, op, Io(up, true),
                     if !up then Err(Unavailable) else if row.Some? then Row(row.value) else Err(NotFound)))
    case List(ns) =>
      (table, Return(sv, t, op, Io(up, true), if up then Rows(SelectRows(table, cluster, ns)) else Err(Unavailable)))
    case Create(r) =>
      if !up then (table, Return(sv, t, op, Io(true, false), Err(Unavailable)))
      else if RowKey(cluster, CoordOf(r)) in table then (table, Return(sv, t, op, ALL_UP, Err(AlreadyExists)))
      else (Apply(table, Insert(RowKey(cluster, CoordOf(r)), r)), Return(sv, t, op, ALL_UP, Ok))
    case Update(r) =>
      if !up then (table, Return(sv, t, op, Io(true, false), Err(Unavailable)))
      else (Apply(table, SetRow(RowKey(cluster, CoordOf(r)), r)), Return(sv, t, op, ALL_UP, Ok))
    case Delete(at) =>
      if !up then (table, Return(sv, t, op, Io(false, true), Err(Unavailable)))
      else if SelectOne(table, cluster, at).None? then (table, Return(sv, t, op, ALL_UP, Err(NotFound)))
      else (table, Goto(sv, t, Selected(at)))
  }

  /** One statement of a call; the DELETE comes after its SELECT. */
  function RunStatement(cluster: string, table: Table, sv: Server, t: Thread, up: bool): (Table, Server) {
    match PcOf(sv, t)
    case Idle => (table, sv)
    case Waiting(_) => (table, sv)
    case Running(op) => FirstStatement(cluster, table, sv, t, op, up)
    case Selected(at) =>
      if !up then (table, Return(sv, t, Delete(at), Io(true, false), Err(Unavailable)))
      else (Apply(table, Remove(RowKey(cluster, at))), Return(sv, t, Delete(at), ALL_UP, Ok))
  }

  /** One move of one goroutine; a move that cannot be made changes nothing. */
  function Move(cluster: string, table: Table, sv: Server, t: Thread, step: Step): (Table, Server) {
    match step
    case Call(op) =>
      (table, if PcOf(sv, t).Idle?
              then Goto(sv, t, if IsWrite(op) then Waiting(op) else Running(op)).(history := sv.history + [Called(t, op)])
              else sv)
    case Lock =>
      (table, if PcOf(sv, t).Waiting? && sv.mutex.None?
              then Goto(sv, t, Running(PcOf(sv, t).op)).(mutex := Some(t)) else sv)
    case Statement(up) => RunStatement(cluster, table, sv, t, up)
  }

  function Take(w: World, a: Action): World {
    var (table, sv) := Move(a.cluster, w.table, ServerOf(w, a.cluster), a.thread, a.step);
    World(table, w.servers[a.cluster := sv])
  }

  function Run(w: World, actions: seq<Action>): World {
    if actions == [] then w else Take(Run(w, actions[..|actions| - 1]), actions[|actions| - 1])
  }

  /** The actions of one server. */
  function Only(actions: seq<Action>, cluster: string): seq<Action> {
    if actions == [] then []
    else
      var a := actions[|actions| - 1];
      Only(actions[..|actions| - 1], cluster) + (if a.cluster == cluster then [a] else [])
  }

  /** The rows of one cluster. */
  function RowsOf(t: Table, cluster: string): Table {
    map k | k in t && k.cluster == cluster :: t[k]
  }

  /** The server's rows and its whole state, replies included, are the same. */
  ghost predicate SameServer(w: World, v: World, cluster: string) {
    RowsOf(w.table, cluster) == RowsOf(v.table, cluster) && ServerOf(w, cluster) == ServerOf(v, cluster)
  }

  // ----- A statement reads and writes its own cluster's rows only -----

  lemma SelectsAreLocal(t: Table, u: Table, cluster: string, at: Coord, namespace: string)
    requires RowsOf(t, cluster) == RowsOf(u, cluster)
    ensures SelectOne(t, cluster, at) == SelectOne(u, cluster, at)
    ensures SelectRows(t, cluster, namespace) == SelectRows(u, cluster, namespace)
  {
    forall k: RowKey | k.cluster == cluster ensures k in t <==> k in u
                                    ensures k in t ==> t[k] == u[k] {
      assert k in t <==> k in RowsOf(t, cluster);
      assert k in u <==> k in RowsOf(u, cluster);
    }
    var a, b := SelectRows(t, cluster, namespace), SelectRows(u, cluster, namespace);
    forall c ensures (c in a <==> c in b) && (c in a ==> a[c] == b[c]) {
      SelectRowsHas(t, cluster, namespace, c);
      SelectRowsHas(u, cluster, namespace, c);
    }
  }

  lemma OwnWrite(t: Table, u: Table, cluster: string, w: Write)
    requires RowsOf(t, cluster) == RowsOf(u, cluster) && w.key.cluster == cluster
    ensures RowsOf(Apply(t, w), cluster) == RowsOf(Apply(u, w), cluster)
  {
    assert w.key in t <==> w.key in RowsOf(t, cluster);
    assert w.key in u <==> w.key in RowsOf(u, cluster);
    var a, b := RowsOf(Apply(t, w), cluster), RowsOf(Apply(u, w), cluster);
    forall k ensures (k in a <==> k in b) && (k in a ==> a[k] == b[k]) {
      assert k in RowsOf(t, cluster) <==> k in RowsOf(u, cluster);
      assert k in RowsOf(t, cluster) ==> RowsOf(t, cluster)[k] == RowsOf(u, cluster)[k];
    }
  }

  lemma ForeignWrite(t: Table, cluster: string, w: Write)
    requires w.key.cluster != cluster
    ensures RowsOf(Apply(t, w), cluster) == RowsOf(t, cluster)
  {
  }

  /** A server's move does the same on any two tables with the same rows of its own. */
  lemma OwnMove(t: Table, u: Table, cluster: string, sv: Server, thread: Thread, step: Step)
    requires RowsOf(t, cluster) == RowsOf(u, cluster)
    ensures var (t', sv') := Move(cluster, t, sv, thread, step);
      var (u', sv'') := Move(cluster, u, sv, thread, step);
      sv' == sv'' && RowsOf(t', cluster) == RowsOf(u', cluster)
  {
    match PcOf(sv, thread)
    case Idle =>
    case Waiting(_) =>
    case Selected(at) => OwnWrite(t, u, cluster, Remove(RowKey(cluster, at)));
    case Running(op) =>
      match op {
        case Get(at) => SelectsAreLocal(t, u, cluster, at, "");
        case List(ns) => SelectsAreLocal(t, u, cluster, Coord("", ""), ns);
        case Create(r) =>
          SelectsAreLocal(t, u, cluster, CoordOf(r), "");
          OwnWrite(t, u, cluster, Insert(RowKey(cluster, CoordOf(r)), r));
        case Update(r) => OwnWrite(t, u, cluster, SetRow(RowKey(cluster, CoordOf(r)), r));
        case Delete(at) => SelectsAreLocal(t, u, cluster, at, "");
      }
  }

  /** Another server's move leaves the rows alone. */
  lemma ForeignMove(t: Table, cluster: string, other: string, sv: Server, thread: Thread, step: Step)
    requires other != cluster
    ensures RowsOf(Move(other, t, sv, thread, step).0, cluster) == RowsOf(t, cluster)
  {
    match PcOf(sv, thread)
    case Idle =>
    case Waiting(_) =>
    case Selected(at) => ForeignWrite(t, cluster, Remove(RowKey(other, at)));
    case Running(op) =>
      match op {
        case Get(_) =>
        case List(_) =>
        case Create(r) => ForeignWrite(t, cluster, Insert(RowKey(other, CoordOf(r)), r));
        case Update(r) => ForeignWrite(t, cluster, SetRow(RowKey(other, CoordOf(r)), r));
        case Delete(_) =>
      }
  }

  // ----- Whole runs -----

  /** In every interleaving, a server's rows and all its replies are those of the run
      in which every other server's actions are erased. */
  lemma {:induction false} ServersAreIsolated(w: World, actions: seq<Action>, cluster: string)
    ensures SameServer(Run(w, actions), Run(w, Only(actions, cluster)), cluster)
  {
    if actions != [] {
      var init, a := actions[..|actions| - 1], actions[|actions| - 1];
      ServersAreIsolated(w, init, cluster);
      var before, alone := Run(w, init), Run(w, Only(init, cluster));
      if a.cluster == cluster {
        OwnMove(before.table, alone.table, cluster, ServerOf(before, cluster), a.thread, a.step);
        assert (Only(init, cluster) + [a])[..|Only(init, cluster)|] == Only(init, cluster);
      } else {
        ForeignMove(before.table, cluster, a.cluster, ServerOf(before, a.cluster), a.thread, a.step);
        assert Only(actions, cluster) == Only(init, cluster);
      }
    }
  }
}
