/** Goroutines calling the four etcd stores at once. Each store has its own mutex, the
    etcd key space is shared, and the etcd calls of different goroutines interleave.
    Every run is linearizable to atomic operations on four independent maps. */
module EtcdConcurrency {
  import opened Storage
  import opened EtcdKeys
  import opened EtcdStore

  type Thread = nat

  /** Where a goroutine is inside a store call. */
  datatype Pc =
    | Idle
    | Waiting(kind: Kind, op: Op)               // called, not yet holding the mutex
    | Locked(kind: Kind, op: Op)                // holding it, before the first etcd call
    | Checked(kind: Kind, op: Op)               // the read allowed the put that comes next
    | Finished(kind: Kind, op: Op, answer: Answer) // about to unlock and return

  /** What an observer sees, and the one etcd call in between at which the operation takes effect. */
  datatype Event =
    | Called(thread: Thread, kind: Kind, op: Op)
    | TookEffect(thread: Thread, kind: Kind, op: Op, io: Io, answer: Answer)
    | Returned(thread: Thread, kind: Kind, op: Op, answer: Answer)

  datatype State = State(kv: KeyValues, mutex: map<Kind, Thread>, pcs: map<Thread, Pc>, history: seq<Event>)

  function PcOf(s: State, t: Thread): Pc {
    if t in s.pcs then s.pcs[t] else Idle
  }

  /** The server may find reports of an earlier run in etcd: `start` is what it finds. */
  ghost predicate Init(w: Wiring, start: Stores, s: State) {
    s == State(s.kv, map[], map[], []) && Represents(w, s.kv, start)
  }

  function Goto(s: State, t: Thread, pc: Pc): State {
    s.(pcs := s.pcs[t := pc])
  }

  function Effect(s: State, t: Thread, k: Kind, op: Op, io: Io, a: Answer, kv: KeyValues): State {
    Goto(s, t, Finished(k, op, a)).(kv := kv, history := s.history + [TookEffect(t, k, op, io, a)])
  }

  datatype Step = Call(kind: Kind, op: Op) | Lock | Etcd(up: bool) | Unlock

  /** The read or the delete that opens the critical section. */
  ghost predicate FirstCall(w: Wiring, s: State, t: Thread, k: Kind, op: Op, up: bool, s': State) {
    match op
    case Get(_) =>
      exists a :: FlatAnswers(s.kv, w(k), op, Io(up, true), a) && s' == Effect(s, t, k, op, Io(up, true), a, s.kv)
    case List(_) =>
      exists a :: FlatAnswers(s.kv, w(k), op, Io(up, true), a) && s' == Effect(s, t, k, op, Io(up, true), a, s.kv)
    case Create(r) =>
      s' == if !up then Effect(s, t, k, op, Io(false, true), Failed(Unavailable), s.kv)
            else if Key(w(k), CoordOf(r)) in s.kv then Effect(s, t, k, op, ALL_UP, Failed(AlreadyExists), s.kv)
            else Goto(s, t, Checked(k, op))
    case Update(r) =>
      s' == if !up then Effect(s, t, k, op, Io(false, true), Failed(Unavailable), s.kv)
            else if Key(w(k), CoordOf(r)) !in s.kv then Effect(s, t, k, op, ALL_UP, Failed(NotFound), s.kv)
            else Goto(s, t, Checked(k, op))
    case Delete(c) =>
      s' == if !up then Effect(s, t, k, op, Io(true, false), Failed(Unavailable), s.kv)
            else Effect(s, t, k, op, ALL_UP, if Key(w(k), c) in s.kv then Done else Failed(NotFound),
                        s.kv - {Key(w(k), c)})
  }

  ghost predicate Takes(w: Wiring, s: State, t: Thread, step: Step, s': State) {
    var pc := PcOf(s, t);
    match step
    case Call(k, op) =>
      && pc.Idle? && Admissible(op)
      && s' == Goto(s, t, Waiting(k, op)).(history := s.history + [Called(t, k, op)])
    case Lock =>
      && pc.Waiting? && pc.kind !in s.mutex
      && s' == Goto(s, t, Locked(pc.kind, pc.op)).(mutex := s.mutex[pc.kind := t])
    case Etcd(up) =>
      || (pc.Locked? && FirstCall(w, s, t, pc.kind, pc.op, up, s'))
      || (&& pc.Checked? && (pc.op.Create? || pc.op.Update?)
          && s' == Effect(s, t, pc.kind, pc.op, Io(true, up), if up then Done else Failed(Unavailable),
                          if up then s.kv[Key(w(pc.kind), CoordOf(pc.op.report)) := pc.op.report] else s.kv))
    case Unlock =>
      && pc.Finished?
      && s' == Goto(s, t, Idle).(mutex := s.mutex - {pc.kind},
                                 history := s.history + [Returned(t, pc.kind, pc.op, pc.answer)])
  }

  datatype Move = Move(thread: Thread, step: Step)

  /** A run: states joined by moves of any goroutines in any order. */
  ghost predicate Run(w: Wiring, start: Stores, states: seq<State>, moves: seq<Move>) {
    && |states| == |moves| + 1
    && Init(w, start, states[0])
    && forall i :: 0 <= i < |moves| ==> Takes(w, states[i], moves[i].thread, moves[i].step, states[i + 1])
  }

  // ----- The specification: four atomic maps -----

  type Stores = map<Kind, Reports>

  ghost function At(ms: Stores, k: Kind): Reports {
    if k in ms then ms[k] else map[]
  }

  /** The four maps after the effects in `h`, each applied in one step. */
  ghost function Replay(start: Stores, h: seq<Event>): Stores {
    if h == [] then start
    else
      var ms, e := Replay(start, h[..|h| - 1]), h[|h| - 1];
      if e.TookEffect? then ms[e.kind := Next(At(ms, e.kind), e.op, e.io)] else ms
  }

  /** Every effect answers as the atomic operation does at that moment. */
  ghost predicate Legal(start: Stores, h: seq<Event>) {
    forall i :: 0 <= i < |h| && h[i].TookEffect? ==>
      Answers(At(Replay(start, h[..i]), h[i].kind), h[i].op, h[i].io, h[i].answer)
  }

  datatype Phase = Quiet | Pending(kind: Kind, op: Op) | Decided(kind: Kind, op: Op, answer: Answer)

  function PhaseOf(h: seq<Event>, t: Thread): Phase {
    if h == [] then Quiet
    else
      var e := h[|h| - 1];
      if e.thread != t then PhaseOf(h[..|h| - 1], t)
      else match e
        case Called(_, k, op) => Pending(k, op)
        case TookEffect(_, k, op, _, a) => Decided(k, op, a)
        case Returned(_, _, _, _) => Quiet
  }

  /** Each goroutine's events are calls, each followed by its one effect and then by
      the return of the effect's answer; so every effect lies between call and return. */
  ghost predicate Bracketed(h: seq<Event>) {
    forall i :: 0 <= i < |h| ==> var before := PhaseOf(h[..i], h[i].thread);
      match h[i]
      case Called(_, _, _) => before == Quiet
      case TookEffect(_, k, op, _, _) => before == Pending(k, op)
      case Returned(_, k, op, a) => before == Decided(k, op, a)
  }

  ghost predicate Linearized(start: Stores, h: seq<Event>) {
    Legal(start, h) && Bracketed(h)
  }

  // ----- What every step keeps -----

  predicate Critical(pc: Pc) {
    pc.Locked? || pc.Checked? || pc.Finished?
  }

  ghost predicate MutexHeld(s: State) {
    forall t :: Critical(PcOf(s, t)) ==> PcOf(s, t).kind in s.mutex && s.mutex[PcOf(s, t).kind] == t
  }

  function PhaseAt(pc: Pc): Phase {
    match pc
    case Idle => Quiet
    case Waiting(k, op) => Pending(k, op)
    case Locked(k, op) => Pending(k, op)
    case Checked(k, op) => Pending(k, op)
    case Finished(k, op, a) => Decided(k, op, a)
  }

  ghost predicate PhasesMatch(s: State) {
    forall t :: PhaseOf(s.history, t) == PhaseAt(PcOf(s, t))
  }

  /** What a goroutine knows between its read and its put. */
  ghost predicate CheckStands(w: Wiring, kv: KeyValues, pc: Pc) {
    && (!pc.Idle? ==> Admissible(pc.op))
    && (pc.Checked? ==>
      && (pc.op.Create? || pc.op.Update?)
      && (pc.op.Create? <==> Key(w(pc.kind), CoordOf(pc.op.report)) !in kv))
  }

  ghost predicate ChecksStand(w: Wiring, s: State) {
    forall t :: CheckStands(w, s.kv, PcOf(s, t))
  }

  /** The flat key space holds exactly the four replayed maps. */
  ghost predicate Represents(w: Wiring, kv: KeyValues, ms: Stores) {
    forall k :: IsView(kv, w(k), At(ms, k))
  }

  ghost predicate Inv(w: Wiring, start: Stores, s: State) {
    && MutexHeld(s)
    && PhasesMatch(s)
    && ChecksStand(w, s)
    && Represents(w, s.kv, Replay(start, s.history))
    && Linearized(start, s.history)
  }

  lemma InitInv(w: Wiring, start: Stores, s: State)
    requires Init(w, start, s)
    ensures Inv(w, start, s)
  {
  }

  // ----- One event more -----

  lemma SnocPhase(h: seq<Event>, e: Event, t: Thread)
    ensures PhaseOf(h + [e], t) ==
      if e.thread != t then PhaseOf(h, t)
      else if e.Called? then Pending(e.kind, e.op)
      else if e.TookEffect? then Decided(e.kind, e.op, e.answer) else Quiet
  {
    assert (h + [e])[..|h|] == h;
  }

  lemma SnocReplay(start: Stores, h: seq<Event>, e: Event)
    ensures Replay(start, h + [e]) ==
      if e.TookEffect? then Replay(start, h)[e.kind := Next(At(Replay(start, h), e.kind), e.op, e.io)] else Replay(start, h)
  {
    assert (h + [e])[..|h|] == h;
  }

  lemma SnocLinearized(start: Stores, h: seq<Event>, e: Event)
    requires Linearized(start, h)
    requires e.TookEffect? ==> Answers(At(Replay(start, h), e.kind), e.op, e.io, e.answer)
    requires PhaseOf(h, e.thread) ==
      (match e
       case Called(_, _, _) => Quiet
       case TookEffect(_, k, op, _, _) => Pending(k, op)
       case Returned(_, k, op, a) => Decided(k, op, a))
    ensures Linearized(start, h + [e])
  {
    var h' := h + [e];
    forall i | 0 <= i < |h'| ensures h'[..i] == if i < |h| then h[..i] else h {
    }
    assert forall i :: 0 <= i < |h| ==> h'[i] == h[i];
  }

  // ----- One move more -----

  lemma MutexAfter(s: State, t: Thread, s': State)
    requires MutexHeld(s) && (PcOf(s, t).Locked? || PcOf(s, t).Checked?)
    requires s'.mutex == s.mutex && s'.pcs == s.pcs[t := PcOf(s', t)]
    requires !PcOf(s', t).Idle? && PcOf(s', t).kind == PcOf(s, t).kind
    ensures MutexHeld(s')
  {
    forall t' | Critical(PcOf(s', t'))
      ensures PcOf(s', t').kind in s'.mutex && s'.mutex[PcOf(s', t').kind] == t'
    {
      assert Critical(PcOf(s, t'));
    }
  }

  lemma PhasesAfter(s: State, t: Thread, e: Event, s': State)
    requires PhasesMatch(s) && e.thread == t
    requires s'.history == s.history + [e] && s'.pcs == s.pcs[t := PcOf(s', t)]
    requires PhaseAt(PcOf(s', t)) == if e.Called? then Pending(e.kind, e.op)
             else if e.TookEffect? then Decided(e.kind, e.op, e.answer) else Quiet
    ensures PhasesMatch(s')
  {
    forall t' ensures PhaseOf(s'.history, t') == PhaseAt(PcOf(s', t')) {
      SnocPhase(s.history, e, t');
    }
  }

  lemma ViewsAfter(w: Wiring, start: Stores, kv: KeyValues, h: seq<Event>, e: Event)
    requires PrefixFree(w) && Represents(w, kv, Replay(start, h)) && e.TookEffect? && Admissible(e.op)
    ensures Represents(w, FlatNext(kv, w(e.kind), e.op, e.io), Replay(start, h + [e]))
  {
    var ms := Replay(start, h);
    SnocReplay(start, h, e);
    forall k ensures IsView(FlatNext(kv, w(e.kind), e.op, e.io), w(k), At(Replay(start, h + [e]), k)) {
      assert IsView(kv, w(k), At(ms, k));
      if k == e.kind {
        OwnStep(kv, w(k), At(ms, k), e.op, e.io);
      } else {
        OtherStep(w, kv, k, At(ms, k), e.kind, e.op, e.io);
      }
    }
  }

  lemma ChecksAfter(w: Wiring, s: State, t: Thread, io: Io, s': State)
    requires PrefixFree(w) && MutexHeld(s) && ChecksStand(w, s)
    requires PcOf(s, t).Locked? || PcOf(s, t).Checked?
    requires s'.kv == FlatNext(s.kv, w(PcOf(s, t).kind), PcOf(s, t).op, io)
    requires s'.pcs == s.pcs[t := PcOf(s', t)]
    requires PcOf(s', t).Finished? && PcOf(s', t).op == PcOf(s, t).op
    ensures ChecksStand(w, s')
  {
    assert CheckStands(w, s.kv, PcOf(s, t)) && Critical(PcOf(s, t));
    forall t' ensures CheckStands(w, s'.kv, PcOf(s', t')) {
      var pc := PcOf(s, t');
      assert CheckStands(w, s.kv, pc);
      if t' != t && pc.Checked? {
        assert Critical(pc);
        ForeignCheck(w, s.kv, pc.kind, CoordOf(pc.op.report), PcOf(s, t).kind, PcOf(s, t).op, io);
      }
    }
  }

  /** The effect of a goroutine that holds its store's mutex. */
  lemma EffectKeepsInv(w: Wiring, start: Stores, s: State, t: Thread, io: Io, a: Answer)
    requires PrefixFree(w) && Inv(w, start, s)
    requires PcOf(s, t).Locked? || PcOf(s, t).Checked?
    requires FlatAnswers(s.kv, w(PcOf(s, t).kind), PcOf(s, t).op, io, a)
    ensures Inv(w, start, Effect(s, t, PcOf(s, t).kind, PcOf(s, t).op, io, a,
                          FlatNext(s.kv, w(PcOf(s, t).kind), PcOf(s, t).op, io)))
  {
    var k, op := PcOf(s, t).kind, PcOf(s, t).op;
    var s' := Effect(s, t, k, op, io, a, FlatNext(s.kv, w(k), op, io));
    var e := TookEffect(t, k, op, io, a);
    assert CheckStands(w, s.kv, PcOf(s, t));
    assert IsView(s.kv, w(k), At(Replay(start, s.history), k));
    AnswersRefine(s.kv, w(k), At(Replay(start, s.history), k), op, io, a);
    SnocLinearized(start, s.history, e);
    MutexAfter(s, t, s');
    PhasesAfter(s, t, e, s');
    ViewsAfter(w, start, s.kv, s.history, e);
    ChecksAfter(w, s, t, io, s');
  }

  /** A step of another store leaves the presence of a key alone. */
  lemma ForeignCheck(w: Wiring, kv: KeyValues, k: Kind, c: Coord, k': Kind, op: Op, io: Io)
    requires PrefixFree(w) && k != k' && SlashFree(c.name) && Admissible(op)
    ensures Key(w(k), c) in FlatNext(kv, w(k'), op, io) <==> Key(w(k), c) in kv
  {
    match op
    case Get(_) =>
    case List(_) =>
    case Create(r) => KeyInjective(w, k, c, k', CoordOf(r));
    case Update(r) => KeyInjective(w, k, c, k', CoordOf(r));
    case Delete(d) => KeyInjective(w, k, c, k', d);
  }

  /** Moving one goroutine while etcd stands still. */
  lemma ChecksStill(w: Wiring, s: State, t: Thread, s': State)
    requires ChecksStand(w, s) && s'.kv == s.kv && s'.pcs == s.pcs[t := PcOf(s', t)]
    requires CheckStands(w, s.kv, PcOf(s', t))
    ensures ChecksStand(w, s')
  {
    forall t' ensures CheckStands(w, s'.kv, PcOf(s', t')) {
      assert CheckStands(w, s.kv, PcOf(s, t'));
    }
  }

  lemma CallKeepsInv(w: Wiring, start: Stores, s: State, t: Thread, k: Kind, op: Op, s': State)
    requires Inv(w, start, s) && Takes(w, s, t, Call(k, op), s')
    ensures Inv(w, start, s')
  {
    var e := Called(t, k, op);
    SnocLinearized(start, s.history, e);
    SnocReplay(start, s.history, e);
    PhasesAfter(s, t, e, s');
    ChecksStill(w, s, t, s');
    assert forall t' :: Critical(PcOf(s', t')) ==> PcOf(s', t') == PcOf(s, t');
  }

  lemma LockKeepsInv(w: Wiring, start: Stores, s: State, t: Thread, s': State)
    requires Inv(w, start, s) && Takes(w, s, t, Lock, s')
    ensures Inv(w, start, s')
  {
    assert CheckStands(w, s.kv, PcOf(s, t));
    ChecksStill(w, s, t, s');
    assert forall t' :: PhaseAt(PcOf(s', t')) == PhaseAt(PcOf(s, t'));
  }

  lemma UnlockKeepsInv(w: Wiring, start: Stores, s: State, t: Thread, s': State)
    requires Inv(w, start, s) && Takes(w, s, t, Unlock, s')
    ensures Inv(w, start, s')
  {
    var e := Returned(t, PcOf(s, t).kind, PcOf(s, t).op, PcOf(s, t).answer);
    SnocLinearized(start, s.history, e);
    SnocReplay(start, s.history, e);
    PhasesAfter(s, t, e, s');
    ChecksStill(w, s, t, s');
    forall t' | Critical(PcOf(s', t'))
      ensures PcOf(s', t').kind in s'.mutex && s'.mutex[PcOf(s', t').kind] == t'
    {
      assert Critical(PcOf(s, t')) && Critical(PcOf(s, t));
    }
  }

  /** The read that lets the put go ahead. */
  lemma PassedCheckKeepsInv(w: Wiring, start: Stores, s: State, t: Thread, s': State)
    requires Inv(w, start, s) && PcOf(s, t).Locked?
    requires s' == Goto(s, t, Checked(PcOf(s, t).kind, PcOf(s, t).op))
    requires CheckStands(w, s.kv, PcOf(s', t))
    ensures Inv(w, start, s')
  {
    MutexAfter(s, t, s');
    ChecksStill(w, s, t, s');
    assert forall t' :: PhaseAt(PcOf(s', t')) == PhaseAt(PcOf(s, t'));
  }

  lemma MoveKeepsInv(w: Wiring, start: Stores, s: State, t: Thread, step: Step, s': State)
    requires PrefixFree(w) && Inv(w, start, s) && Takes(w, s, t, step, s')
    ensures Inv(w, start, s')
  {
    var pc := PcOf(s, t);
    assert CheckStands(w, s.kv, pc);
    match step
    case Call(k, op) => CallKeepsInv(w, start, s, t, k, op, s');
    case Lock => LockKeepsInv(w, start, s, t, s');
    case Unlock => UnlockKeepsInv(w, start, s, t, s');
    case Etcd(up) =>
      if pc.Checked? {
        EffectKeepsInv(w, start, s, t, Io(true, up), if up then Done else Failed(Unavailable));
      } else {
        FirstCallKeepsInv(w, start, s, t, up, s');
      }
  }

  lemma FirstCallKeepsInv(w: Wiring, start: Stores, s: State, t: Thread, up: bool, s': State)
    requires PrefixFree(w) && Inv(w, start, s) && PcOf(s, t).Locked?
    requires FirstCall(w, s, t, PcOf(s, t).kind, PcOf(s, t).op, up, s')
    ensures Inv(w, start, s')
  {
    var k, op := PcOf(s, t).kind, PcOf(s, t).op;
    assert CheckStands(w, s.kv, PcOf(s, t));
    match op
    case Get(_) =>
      var a :| FlatAnswers(s.kv, w(k), op, Io(up, true), a) && s' == Effect(s, t, k, op, Io(up, true), a, s.kv);
      EffectKeepsInv(w, start, s, t, Io(up, true), a);
    case List(_) =>
      var a :| FlatAnswers(s.kv, w(k), op, Io(up, true), a) && s' == Effect(s, t, k, op, Io(up, true), a, s.kv);
      EffectKeepsInv(w, start, s, t, Io(up, true), a);
    case Create(r) =>
      if !up {
        EffectKeepsInv(w, start, s, t, Io(false, true), Failed(Unavailable));
      } else if Key(w(k), CoordOf(r)) in s.kv {
        EffectKeepsInv(w, start, s, t, ALL_UP, Failed(AlreadyExists));
      } else {
        PassedCheckKeepsInv(w, start, s, t, s');
      }
    case Update(r) =>
      if !up {
        EffectKeepsInv(w, start, s, t, Io(false, true), Failed(Unavailable));
      } else if Key(w(k), CoordOf(r)) !in s.kv {
        EffectKeepsInv(w, start, s, t, ALL_UP, Failed(NotFound));
      } else {
        PassedCheckKeepsInv(w, start, s, t, s');
      }
    case Delete(c) =>
      if !up {
        EffectKeepsInv(w, start, s, t, Io(true, false), Failed(Unavailable));
      } else {
        EffectKeepsInv(w, start, s, t, ALL_UP, if Key(w(k), c) in s.kv then Done else Failed(NotFound));
      }
  }

  // ----- Whole runs -----

  lemma {:induction false} RunKeepsInv(w: Wiring, start: Stores, states: seq<State>, moves: seq<Move>, n: nat)
    requires PrefixFree(w) && Run(w, start, states, moves) && n < |states|
    ensures Inv(w, start, states[n])
  {
    if n == 0 {
      InitInv(w, start, states[0]);
    } else {
      RunKeepsInv(w, start, states, moves, n - 1);
      MoveKeepsInv(w, start, states[n - 1], moves[n - 1].thread, moves[n - 1].step, states[n]);
    }
  }

  /** In every interleaving, at every moment: the effects so far are a legal run of
      atomic operations on four independent maps, each effect lies between the call
      and the return that carries its answer, and etcd holds exactly those maps. */
  lemma RunsAreLinearizable(start: Stores, states: seq<State>, moves: seq<Move>, n: nat)
    requires Run(Gvk, start, states, moves) && n < |states|
    ensures Linearized(start, states[n].history)
    ensures Represents(Gvk, states[n].kv, Replay(start, states[n].history))
  {
    ServerWiringIsPrefixFree();
    RunKeepsInv(Gvk, start, states, moves, n);
  }

  ghost predicate Creates(e: Event, k: Kind, c: Coord) {
    e.TookEffect? && e.kind == k && e.op.Create? && CoordOf(e.op.report) == c && e.answer == Done
  }

  ghost predicate Deletes(e: Event, k: Kind, c: Coord) {
    e.TookEffect? && e.kind == k && e.op == Delete(c) && e.answer == Done
  }

  /** Once there, a report stays until it is deleted. */
  lemma {:induction false} StaysUntilDeleted(start: Stores, h: seq<Event>, k: Kind, c: Coord, i: nat, j: nat)
    requires Legal(start, h) && i <= j <= |h| && c in At(Replay(start, h[..i]), k)
    requires forall m :: i <= m < j ==> !Deletes(h[m], k, c)
    ensures c in At(Replay(start, h[..j]), k)
  {
    if i < j {
      StaysUntilDeleted(start, h, k, c, i, j - 1);
      assert h[..j] == h[..j - 1] + [h[j - 1]];
      SnocReplay(start, h[..j - 1], h[j - 1]);
      assert !Deletes(h[j - 1], k, c);
    }
  }

  /** Two successful creates of one report have a successful delete of it between them. */
  lemma OneCreateBetweenDeletes(start: Stores, h: seq<Event>, k: Kind, c: Coord, i: nat, j: nat)
    requires Legal(start, h) && i < j < |h| && Creates(h[i], k, c) && Creates(h[j], k, c)
    ensures exists m :: i < m < j && Deletes(h[m], k, c)
  {
    assert h[..i + 1] == h[..i] + [h[i]];
    SnocReplay(start, h[..i], h[i]);
    assert c !in At(Replay(start, h[..j]), k);
    if forall m :: i + 1 <= m < j ==> !Deletes(h[m], k, c) {
      StaysUntilDeleted(start, h, k, c, i + 1, j);
    }
  }

  /** So it is in every run of the server. */
  lemma RunsCreateOnce(start: Stores, states: seq<State>, moves: seq<Move>, n: nat, k: Kind, c: Coord, i: nat, j: nat)
    requires Run(Gvk, start, states, moves) && n < |states|
    requires i < j < |states[n].history|
    requires Creates(states[n].history[i], k, c) && Creates(states[n].history[j], k, c)
    ensures exists m :: i < m < j && Deletes(states[n].history[m], k, c)
  {
    RunsAreLinearizable(start, states, moves, n);
    OneCreateBetweenDeletes(start, states[n].history, k, c, i, j);
  }

  // ----- No call gets stuck by itself -----

  lemma SomeScan(kv: KeyValues, g: GroupVersionKind, op: Op) returns (a: Answer)
    requires op.Get? || op.List?
    ensures FlatAnswers(kv, g, op, ALL_UP, a)
  {
    if op.Get? {
      a := if Key(g, op.at) in kv then Found(kv[Key(g, op.at)]) else Failed(NotFound);
    } else {
      var keys := EnumerationExists(KeysUnder(kv, Prefix(g, op.namespace)));
      forall i | 0 <= i < |keys| ensures keys[i] in kv {
        assert keys[i] in keys;
      }
      var values := seq(|keys|, i requires 0 <= i < |keys| => kv[keys[i]]);
      assert ScanInOrder(kv, Prefix(g, op.namespace), keys, values);
      a := Listed(values);
    }
  }

  /** The etcd calls of an operation, with etcd up: one, or the put after its read. */
  lemma EtcdCallsEnd(w: Wiring, s: State, t: Thread) returns (s1: State, s2: State, a: Answer)
    requires PcOf(s, t).Locked?
    ensures Takes(w, s, t, Etcd(true), s1) && (s2 == s1 || Takes(w, s1, t, Etcd(true), s2))
    ensures var k, op := PcOf(s, t).kind, PcOf(s, t).op;
      && PcOf(s2, t) == Finished(k, op, a) && s2.mutex == s.mutex
      && s2.history == s.history + [TookEffect(t, k, op, ALL_UP, a)]
  {
    var k, op := PcOf(s, t).kind, PcOf(s, t).op;
    match op
    case Get(_) =>
      a := SomeScan(s.kv, w(k), op);
      s1 := Effect(s, t, k, op, ALL_UP, a, s.kv);
      s2 := s1;
    case List(_) =>
      a := SomeScan(s.kv, w(k), op);
      s1 := Effect(s, t, k, op, ALL_UP, a, s.kv);
      s2 := s1;
    case Delete(c) =>
      a := if Key(w(k), c) in s.kv then Done else Failed(NotFound);
      s1 := Effect(s, t, k, op, ALL_UP, a, s.kv - {Key(w(k), c)});
      s2 := s1;
    case Create(r) => s1, s2, a := CheckThenPut(w, s, t);
    case Update(r) => s1, s2, a := CheckThenPut(w, s, t);
  }

  lemma CheckThenPut(w: Wiring, s: State, t: Thread) returns (s1: State, s2: State, a: Answer)
    requires PcOf(s, t).Locked? && (PcOf(s, t).op.Create? || PcOf(s, t).op.Update?)
    ensures Takes(w, s, t, Etcd(true), s1) && (s2 == s1 || Takes(w, s1, t, Etcd(true), s2))
    ensures var k, op := PcOf(s, t).kind, PcOf(s, t).op;
      && PcOf(s2, t) == Finished(k, op, a) && s2.mutex == s.mutex
      && s2.history == s.history + [TookEffect(t, k, op, ALL_UP, a)]
  {
    var k, op := PcOf(s, t).kind, PcOf(s, t).op;
    var key := Key(w(k), CoordOf(op.report));
    if op.Create? == (key !in s.kv) {
      a := Done;
      s1 := Goto(s, t, Checked(k, op));
      s2 := Effect(s1, t, k, op, ALL_UP, Done, s.kv[key := op.report]);
    } else {
      a := if op.Create? then Failed(AlreadyExists) else Failed(NotFound);
      s1 := Effect(s, t, k, op, ALL_UP, a, s.kv);
      s2 := s1;
    }
  }

  /** With the store's mutex free and etcd up, an idle goroutine's call can run to its end. */
  lemma CallReturns(w: Wiring, s: State, t: Thread, k: Kind, op: Op)
    returns (called: State, locked: State, read: State, done: State, s': State, a: Answer)
    requires PcOf(s, t).Idle? && k !in s.mutex && Admissible(op)
    ensures Takes(w, s, t, Call(k, op), called) && Takes(w, called, t, Lock, locked)
    ensures Takes(w, locked, t, Etcd(true), read) && (done == read || Takes(w, read, t, Etcd(true), done))
    ensures Takes(w, done, t, Unlock, s')
    ensures s'.history == s.history + [Called(t, k, op), TookEffect(t, k, op, ALL_UP, a), Returned(t, k, op, a)]
    ensures PcOf(s', t).Idle? && k !in s'.mutex
  {
    called := Goto(s, t, Waiting(k, op)).(history := s.history + [Called(t, k, op)]);
    locked := Goto(called, t, Locked(k, op)).(mutex := called.mutex[k := t]);
    read, done, a := EtcdCallsEnd(w, locked, t);
    s' := Goto(done, t, Idle).(mutex := done.mutex - {k}, history := done.history + [Returned(t, k, op, a)]);
  }
}
