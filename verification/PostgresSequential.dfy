/** Servers sharing one table, each used by any number of goroutines at once. In every
    interleaving of their statements, the calls of one server are those of a sequential
    run on its own rows, each taking effect at its last statement. */
module PostgresSequential {
  import opened Storage
  import opened Postgres
  import opened PostgresIsolation

  // ----- The specification -----

  /** The answers a reply stands for: a list may come in any order. */
  ghost predicate Shows(reply: Reply, a: Answer) {
    match reply
    case Row(r) => a == Found(r)
    case Rows(rows) => a.Listed? && RowsInOrder(rows, a.reports)
    case Ok => a == Done
    case Err(e) => a == Failed(e)
  }

  /** The reply stands for exactly the answers of the call on `rows`. */
  ghost predicate Exact(rows: Table, cluster: string, op: Op, io: Io, reply: Reply) {
    forall a :: Shows(reply, a) <==> CallAnswers(rows, rows, cluster, op, io, a)
  }

  /** The rows after the calls that returned in `h`, one after the other. */
  ghost function RowsAfter(start: Table, cluster: string, h: seq<Event>): Table {
    if h == [] then start
    else
      var rows, e := RowsAfter(start, cluster, h[..|h| - 1]), h[|h| - 1];
      if e.Returned? then CallNext(rows, rows, cluster, e.op, e.io) else rows
  }

  ghost predicate Legal(start: Table, cluster: string, h: seq<Event>) {
    forall i :: 0 <= i < |h| && h[i].Returned? ==>
      Exact(RowsAfter(start, cluster, h[..i]), cluster, h[i].op, h[i].io, h[i].reply)
  }

  /** The call goroutine `t` is in, if any. */
  function InCall(h: seq<Event>, t: Thread): Option<Op> {
    if h == [] then None
    else
      var e := h[|h| - 1];
      if e.thread != t then InCall(h[..|h| - 1], t) else if e.Called? then Some(e.op) else None
  }

  /** Each goroutine's events are calls, each followed by its own return. */
  ghost predicate Bracketed(h: seq<Event>) {
    forall i :: 0 <= i < |h| ==> InCall(h[..i], h[i].thread) == if h[i].Called? then None else Some(h[i].op)
  }

  ghost predicate Sequential(start: Table, cluster: string, h: seq<Event>) {
    Legal(start, cluster, h) && Bracketed(h)
  }

  // ----- One statement -----

  lemma RowsOfHas(t: Table, cluster: string, c: Coord)
    ensures RowKey(cluster, c) in RowsOf(t, cluster) <==> RowKey(cluster, c) in t
    ensures RowKey(cluster, c) in t ==> RowsOf(t, cluster)[RowKey(cluster, c)] == t[RowKey(cluster, c)]
  {
    assert RowKey(cluster, c).cluster == cluster;
  }

  lemma SelectFromOwn(t: Table, cluster: string, namespace: string)
    ensures SelectRows(RowsOf(t, cluster), cluster, namespace) == SelectRows(t, cluster, namespace)
  {
    assert RowsOf(RowsOf(t, cluster), cluster) == RowsOf(t, cluster);
    SelectsAreLocal(RowsOf(t, cluster), t, cluster, Coord("", ""), namespace);
  }

  lemma WriteOwn(t: Table, cluster: string, w: Write)
    requires w.key.cluster == cluster
    ensures RowsOf(Apply(t, w), cluster) == Apply(RowsOf(t, cluster), w)
  {
    RowsOfHas(t, cluster, w.key.at);
    var a, b := RowsOf(Apply(t, w), cluster), Apply(RowsOf(t, cluster), w);
    forall k ensures (k in a <==> k in b) && (k in a ==> a[k] == b[k]) {
    }
  }

  /** The statement returned what the call answers on the server's rows, and changed them so. */
  ghost predicate Returns(cluster: string, table: Table, sv: Server, t: Thread, op: Op, io: Io, reply: Reply, table': Table, sv': Server) {
    && sv' == Return(sv, t, op, io, reply)
    && Exact(RowsOf(table, cluster), cluster, op, io, reply)
    && RowsOf(table', cluster) == CallNext(RowsOf(table, cluster), RowsOf(table, cluster), cluster, op, io)
  }

  /** A first statement returns so, or it is the SELECT of a delete and found the row. */
  lemma FirstStatementExact(cluster: string, table: Table, sv: Server, t: Thread, op: Op, up: bool) returns (io: Io, reply: Reply)
    ensures var (table', sv') := FirstStatement(cluster, table, sv, t, op, up);
      if op.Delete? && up && RowKey(cluster, op.at) in table then table' == table && sv' == Goto(sv, t, Selected(op.at))
      else Returns(cluster, table, sv, t, op, io, reply, table', sv')
  {
    io, reply := ALL_UP, Ok;
    match op
    case Get(c) =>
      RowsOfHas(table, cluster, c);
      io := Io(up, true);
      reply := if !up then Err(Unavailable)
               else if SelectOne(table, cluster, c).Some? then Row(SelectOne(table, cluster, c).value) else Err(NotFound);
    case List(ns) =>
      SelectFromOwn(table, cluster, ns);
      io := Io(up, true);
      reply := if up then Rows(SelectRows(table, cluster, ns)) else Err(Unavailable);
    case Create(r) =>
      RowsOfHas(table, cluster, CoordOf(r));
      WriteOwn(table, cluster, Insert(RowKey(cluster, CoordOf(r)), r));
      io := Io(true, up);
      reply := if !up then Err(Unavailable) else if RowKey(cluster, CoordOf(r)) in table then Err(AlreadyExists) else Ok;
    case Update(r) =>
      WriteOwn(table, cluster, SetRow(RowKey(cluster, CoordOf(r)), r));
      io := Io(true, up);
      reply := if up then Ok else Err(Unavailable);
    case Delete(c) =>
      RowsOfHas(table, cluster, c);
      io := Io(up, true);
      reply := if up then Err(NotFound) else Err(Unavailable);
  }

  /** The DELETE, with the row its SELECT found still there. */
  lemma DeleteExact(cluster: string, table: Table, sv: Server, t: Thread, at: Coord, up: bool)
    requires PcOf(sv, t) == Selected(at) && RowKey(cluster, at) in table
    ensures var (table', sv') := RunStatement(cluster, table, sv, t, up);
      Returns(cluster, table, sv, t, Delete(at), Io(true, up), if up then Ok else Err(Unavailable), table', sv')
  {
    RowsOfHas(table, cluster, at);
    WriteOwn(table, cluster, Remove(RowKey(cluster, at)));
  }

  // ----- What every move keeps -----

  predicate InWrite(pc: Pc) {
    (pc.Running? && IsWrite(pc.op)) || pc.Selected?
  }

  function CallOf(pc: Pc): Option<Op> {
    match pc
    case Idle => None
    case Waiting(op) => Some(op)
    case Running(op) => Some(op)
    case Selected(at) => Some(Delete(at))
  }

  ghost predicate MutexHeld(sv: Server) {
    forall t: Thread :: InWrite(PcOf(sv, t)) ==> sv.mutex == Some(t)
  }

  ghost predicate CallsMatch(sv: Server) {
    forall t: Thread :: InCall(sv.history, t) == CallOf(PcOf(sv, t))
  }

  /** What a SELECT found for a delete is still there. */
  ghost predicate FindsStand(cluster: string, table: Table, sv: Server) {
    forall t: Thread :: PcOf(sv, t).Selected? ==> RowKey(cluster, PcOf(sv, t).at) in table
  }

  ghost predicate Inv(start: Table, cluster: string, table: Table, sv: Server) {
    && MutexHeld(sv) && CallsMatch(sv) && FindsStand(cluster, table, sv)
    && RowsOf(table, cluster) == RowsAfter(start, cluster, sv.history)
    && Sequential(start, cluster, sv.history)
  }

  lemma SnocInCall(h: seq<Event>, e: Event, t: Thread)
    ensures InCall(h + [e], t) == if e.thread != t then InCall(h, t) else if e.Called? then Some(e.op) else None
  {
    assert (h + [e])[..|h|] == h;
  }

  lemma SnocRowsAfter(start: Table, cluster: string, h: seq<Event>, e: Event)
    ensures var rows := RowsAfter(start, cluster, h);
      RowsAfter(start, cluster, h + [e]) == if e.Returned? then CallNext(rows, rows, cluster, e.op, e.io) else rows
  {
    assert (h + [e])[..|h|] == h;
  }

  lemma SnocSequential(start: Table, cluster: string, h: seq<Event>, e: Event)
    requires Sequential(start, cluster, h)
    requires e.Returned? ==> Exact(RowsAfter(start, cluster, h), cluster, e.op, e.io, e.reply)
    requires InCall(h, e.thread) == if e.Called? then None else Some(e.op)
    ensures Sequential(start, cluster, h + [e])
  {
    var h' := h + [e];
    forall i | 0 <= i < |h'| ensures h'[..i] == if i < |h| then h[..i] else h {
    }
    assert forall i :: 0 <= i < |h| ==> h'[i] == h[i];
  }

  lemma CallsAfter(sv: Server, t: Thread, e: Event, sv': Server)
    requires CallsMatch(sv) && e.thread == t && sv'.history == sv.history + [e] && sv'.pcs == sv.pcs[t := PcOf(sv', t)]
    requires CallOf(PcOf(sv', t)) == if e.Called? then Some(e.op) else None
    ensures CallsMatch(sv')
  {
    forall t': Thread ensures InCall(sv'.history, t') == CallOf(PcOf(sv', t')) {
      SnocInCall(sv.history, e, t');
    }
  }

  /** A call's last statement, by a goroutine that holds the mutex if the call is a write. */
  lemma ReturnKeepsInv(start: Table, cluster: string, table: Table, sv: Server, t: Thread, op: Op, io: Io, reply: Reply,
                       table': Table, sv': Server)
    requires Inv(start, cluster, table, sv) && Returns(cluster, table, sv, t, op, io, reply, table', sv')
    requires CallOf(PcOf(sv, t)) == Some(op) && (IsWrite(op) ==> InWrite(PcOf(sv, t)))
    ensures Inv(start, cluster, table', sv')
  {
    var e := Returned(t, op, io, reply);
    assert InCall(sv.history, t) == Some(op);
    SnocSequential(start, cluster, sv.history, e);
    SnocRowsAfter(start, cluster, sv.history, e);
    CallsAfter(sv, t, e, sv');
    forall t': Thread ensures InWrite(PcOf(sv', t')) ==> sv'.mutex == Some(t')
                      ensures PcOf(sv', t').Selected? ==> RowKey(cluster, PcOf(sv', t').at) in table'
    {
      if t' != t && InWrite(PcOf(sv, t')) {
        assert sv.mutex == Some(t');
        OthersFindStands(cluster, table, table', sv, t', op, io);
      }
    }
  }

  lemma OthersFindStands(cluster: string, table: Table, table': Table, sv: Server, t': Thread, op: Op, io: Io)
    requires FindsStand(cluster, table, sv) && !IsWrite(op)
    requires RowsOf(table', cluster) == CallNext(RowsOf(table, cluster), RowsOf(table, cluster), cluster, op, io)
    ensures PcOf(sv, t').Selected? ==> RowKey(cluster, PcOf(sv, t').at) in table'
  {
    if PcOf(sv, t').Selected? {
      RowsOfHas(table, cluster, PcOf(sv, t').at);
      RowsOfHas(table', cluster, PcOf(sv, t').at);
    }
  }

  lemma CallKeepsInv(start: Table, cluster: string, table: Table, sv: Server, t: Thread, op: Op)
    requires Inv(start, cluster, table, sv)
    ensures Inv(start, cluster, table, Move(cluster, table, sv, t, Call(op)).1)
  {
    if PcOf(sv, t).Idle? {
      var sv' := Move(cluster, table, sv, t, Call(op)).1;
      assert InCall(sv.history, t) == None;
      SnocSequential(start, cluster, sv.history, Called(t, op));
      SnocRowsAfter(start, cluster, sv.history, Called(t, op));
      CallsAfter(sv, t, Called(t, op), sv');
      assert forall t': Thread :: t' != t ==> PcOf(sv', t') == PcOf(sv, t');
    }
  }

  /** Taking the mutex, or going on to the DELETE: no event, no write. */
  lemma GotoKeepsInv(start: Table, cluster: string, table: Table, sv: Server, t: Thread, sv': Server)
    requires Inv(start, cluster, table, sv)
    requires sv'.history == sv.history && sv'.pcs == sv.pcs[t := PcOf(sv', t)] && CallOf(PcOf(sv', t)) == CallOf(PcOf(sv, t))
    requires sv'.mutex == Some(t) && (sv.mutex == None || sv.mutex == Some(t))
    requires PcOf(sv', t).Selected? ==> RowKey(cluster, PcOf(sv', t).at) in table
    ensures Inv(start, cluster, table, sv')
  {
    forall t': Thread ensures InCall(sv'.history, t') == CallOf(PcOf(sv', t')) {
      assert InCall(sv.history, t') == CallOf(PcOf(sv, t'));
    }
  }

  lemma MoveKeepsInv(start: Table, cluster: string, table: Table, sv: Server, t: Thread, step: Step)
    requires Inv(start, cluster, table, sv)
    ensures var (table', sv') := Move(cluster, table, sv, t, step); Inv(start, cluster, table', sv')
  {
    var (table', sv') := Move(cluster, table, sv, t, step);
    match step
    case Call(op) => CallKeepsInv(start, cluster, table, sv, t, op);
    case Lock =>
      if PcOf(sv, t).Waiting? && sv.mutex.None? {
        GotoKeepsInv(start, cluster, table, sv, t, sv');
      }
    case Statement(up) => StatementKeepsInv(start, cluster, table, sv, t, up);
  }

  lemma StatementKeepsInv(start: Table, cluster: string, table: Table, sv: Server, t: Thread, up: bool)
    requires Inv(start, cluster, table, sv)
    ensures var (table', sv') := RunStatement(cluster, table, sv, t, up); Inv(start, cluster, table', sv')
  {
    var (table', sv') := RunStatement(cluster, table, sv, t, up);
    match PcOf(sv, t)
    case Idle =>
    case Waiting(_) =>
    case Running(op) =>
      var io, reply := FirstStatementExact(cluster, table, sv, t, op, up);
      if op.Delete? && up && RowKey(cluster, op.at) in table {
        GotoKeepsInv(start, cluster, table, sv, t, sv');
      } else {
        ReturnKeepsInv(start, cluster, table, sv, t, op, io, reply, table', sv');
      }
    case Selected(at) =>
      DeleteExact(cluster, table, sv, t, at, up);
      ReturnKeepsInv(start, cluster, table, sv, t, Delete(at), Io(true, up), if up then Ok else Err(Unavailable), table', sv');
  }

  lemma ForeignKeepsInv(start: Table, cluster: string, table: Table, sv: Server, table': Table)
    requires Inv(start, cluster, table, sv) && RowsOf(table', cluster) == RowsOf(table, cluster)
    ensures Inv(start, cluster, table', sv)
  {
    forall t: Thread | PcOf(sv, t).Selected? ensures RowKey(cluster, PcOf(sv, t).at) in table' {
      RowsOfHas(table, cluster, PcOf(sv, t).at);
      RowsOfHas(table', cluster, PcOf(sv, t).at);
    }
  }

  // ----- Whole runs -----

  lemma {:induction false} RunKeepsInv(w: World, actions: seq<Action>, cluster: string)
    requires ServerOf(w, cluster) == NEW_SERVER
    ensures Inv(RowsOf(w.table, cluster), cluster, Run(w, actions).table, ServerOf(Run(w, actions), cluster))
  {
    var start := RowsOf(w.table, cluster);
    if actions != [] {
      var init, a := actions[..|actions| - 1], actions[|actions| - 1];
      RunKeepsInv(w, init, cluster);
      var before := Run(w, init);
      if a.cluster == cluster {
        MoveKeepsInv(start, cluster, before.table, ServerOf(before, cluster), a.thread, a.step);
      } else {
        ForeignMove(before.table, cluster, a.cluster, ServerOf(before, a.cluster), a.thread, a.step);
        ForeignKeepsInv(start, cluster, before.table, ServerOf(before, cluster), Run(w, actions).table);
      }
    }
  }

  /** In every interleaving of all servers' statements, from any table: what a server's
      calls returned are the answers of a sequential run of them on its own rows, in the
      order of their last statements, and its rows are what that run leaves. */
  lemma CallsAreSequential(w: World, actions: seq<Action>, cluster: string)
    requires ServerOf(w, cluster) == NEW_SERVER
    ensures var start, h := RowsOf(w.table, cluster), ServerOf(Run(w, actions), cluster).history;
      Sequential(start, cluster, h) && RowsOf(Run(w, actions).table, cluster) == RowsAfter(start, cluster, h)
  {
    RunKeepsInv(w, actions, cluster);
  }

  lemma RunFour(w: World, a: Action, b: Action, c: Action, d: Action)
    ensures Run(w, [a, b, c, d]) == Take(Take(Take(Take(w, a), b), c), d)
  {
    assert [a][..0] == [] && [a, b][..1] == [a] && [a, b, c][..2] == [a, b] && [a, b, c, d][..3] == [a, b, c];
    assert Run(w, [a]) == Take(w, a);
    assert Run(w, [a, b]) == Take(Take(w, a), b);
    assert Run(w, [a, b, c]) == Take(Take(Take(w, a), b), c);
  }

  lemma BeginsCall(cluster: string, w: World, t: Thread, op: Op)
    requires PcOf(ServerOf(w, cluster), t).Idle? && ServerOf(w, cluster).mutex == None
    ensures var w' := Take(Take(w, Action(cluster, t, Call(op))), Action(cluster, t, Lock));
      && PcOf(ServerOf(w', cluster), t) == Running(op)
      && ServerOf(w', cluster).history == ServerOf(w, cluster).history + [Called(t, op)]
      && ServerOf(w', cluster).mutex == if IsWrite(op) then Some(t) else None
  {
  }

  lemma EndsCall(cluster: string, w: World, t: Thread, op: Op) returns (reply: Reply)
    requires PcOf(ServerOf(w, cluster), t) == Running(op)
    ensures var w' := Take(Take(w, Action(cluster, t, Statement(true))), Action(cluster, t, Statement(true)));
      && ServerOf(w', cluster).history == ServerOf(w, cluster).history + [Returned(t, op, ALL_UP, reply)]
      && ServerOf(w', cluster).mutex == if IsWrite(op) then None else ServerOf(w, cluster).mutex
  {
    var w' := Take(Take(w, Action(cluster, t, Statement(true))), Action(cluster, t, Statement(true)));
    var h := ServerOf(w', cluster).history;
    reply := h[|h| - 1].reply;
  }

  /** No call gets stuck by itself: with the mutex free and the database up, a goroutine
      that calls, locks and runs two statements has returned. */
  lemma CallReturns(w: World, cluster: string, t: Thread, op: Op) returns (reply: Reply)
    requires PcOf(ServerOf(w, cluster), t).Idle? && ServerOf(w, cluster).mutex == None
    ensures var statement := Action(cluster, t, Statement(true));
      var w' := Run(w, [Action(cluster, t, Call(op)), Action(cluster, t, Lock), statement, statement]);
      && ServerOf(w', cluster).history == ServerOf(w, cluster).history + [Called(t, op), Returned(t, op, ALL_UP, reply)]
      && ServerOf(w', cluster).mutex == None
  {
    var statement := Action(cluster, t, Statement(true));
    RunFour(w, Action(cluster, t, Call(op)), Action(cluster, t, Lock), statement, statement);
    BeginsCall(cluster, w, t, op);
    reply := EndsCall(cluster, Take(Take(w, Action(cluster, t, Call(op))), Action(cluster, t, Lock)), t, op);
  }
}
