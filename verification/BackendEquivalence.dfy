/** The etcd and the in-memory backend answer alike on every sequence of operations. */
module BackendEquivalence {
  import opened Storage
  import opened EtcdKeys
  import opened EtcdStore
  import opened InMemoryStore

  /** The etcd store of `g`, started empty, goes through `kvs` on `ops` and answers `answers`. */
  ghost predicate EtcdRun(g: GroupVersionKind, ops: seq<Op>, kvs: seq<KeyValues>, answers: seq<Answer>) {
    && |kvs| == |ops| + 1 && |answers| == |ops| && kvs[0] == map[]
    && (forall i :: 0 <= i < |ops| ==>
         kvs[i + 1] == FlatNext(kvs[i], g, ops[i], ALL_UP) && FlatAnswers(kvs[i], g, ops[i], ALL_UP, answers[i]))
  }

  ghost predicate MemoryRun(codec: Codec, ops: seq<Op>, storages: seq<Encoded>, answers: seq<Answer>) {
    && |storages| == |ops| + 1 && |answers| == |ops| && storages[0] == map[]
    && (forall i :: 0 <= i < |ops| ==>
         storages[i + 1] == MemoryNext(storages[i], codec, ops[i]) && MemoryAnswers(storages[i], codec, ops[i], answers[i]))
  }

  ghost predicate AllAdmissible(ops: seq<Op>) {
    forall i :: 0 <= i < |ops| ==> Admissible(ops[i])
  }

  /** What both stores hold after the first `n` operations. */
  ghost function Contents(ops: seq<Op>, n: nat): Reports
    requires n <= |ops|
  {
    if n == 0 then map[] else Next(Contents(ops, n - 1), ops[n - 1], ALL_UP)
  }

  lemma {:induction false} BothHoldContents(
      g: GroupVersionKind, codec: Codec, ops: seq<Op>,
      kvs: seq<KeyValues>, etcdAnswers: seq<Answer>, storages: seq<Encoded>, memoryAnswers: seq<Answer>, n: nat)
    requires EtcdRun(g, ops, kvs, etcdAnswers) && MemoryRun(codec, ops, storages, memoryAnswers)
    requires Faithful(codec) && AllAdmissible(ops) && n <= |ops|
    ensures IsView(kvs[n], g, Contents(ops, n))
    ensures IsMemoryView(storages[n], codec, Contents(ops, n))
  {
    if n > 0 {
      BothHoldContents(g, codec, ops, kvs, etcdAnswers, storages, memoryAnswers, n - 1);
      var m, op := Contents(ops, n - 1), ops[n - 1];
      OwnStep(kvs[n - 1], g, m, op, ALL_UP);
      MemoryStep(storages[n - 1], codec, m, op);
    }
  }

  /** Same success or failure, same reports, same lists up to order, at every operation. */
  lemma BackendsAgree(
      g: GroupVersionKind, codec: Codec, ops: seq<Op>,
      kvs: seq<KeyValues>, etcdAnswers: seq<Answer>, storages: seq<Encoded>, memoryAnswers: seq<Answer>, i: nat)
    requires EtcdRun(g, ops, kvs, etcdAnswers) && MemoryRun(codec, ops, storages, memoryAnswers)
    requires Faithful(codec) && AllAdmissible(ops) && i < |ops|
    ensures SameAnswer(etcdAnswers[i], memoryAnswers[i])
  {
    BothHoldContents(g, codec, ops, kvs, etcdAnswers, storages, memoryAnswers, i);
    var m := Contents(ops, i);
    AnswersRefine(kvs[i], g, m, ops[i], ALL_UP, etcdAnswers[i]);
    MemoryAnswersRefine(storages[i], codec, m, ops[i], memoryAnswers[i]);
    AnswersAgree(m, ops[i], ALL_UP, etcdAnswers[i], memoryAnswers[i]);
  }

  /** With a slash in a name the backends part: after the report `a/b` outside any
      namespace, etcd takes `b` in namespace `a` for the same report, memory does not. */
  lemma SlashedNamesDisagree(g: GroupVersionKind, codec: Codec, r: Report)
    requires Faithful(codec)
    ensures var first, second := r.(namespace := "", name := "a/b"), r.(namespace := "a", name := "b");
      && FlatAnswers(FlatNext(map[], g, Create(first), ALL_UP), g, Create(second), ALL_UP, Failed(AlreadyExists))
      && MemoryAnswers(MemoryNext(map[], codec, Create(first)), codec, Create(second), Done)
  {
    var c1, c2 := Coord("", "a/b"), Coord("a", "b");
    KeyIsPath(g, c1);
    KeyIsPath(g, c2);
    assert Path(c1) == Path(c2);
    assert |MemoryKey(c1)| != |MemoryKey(c2)|;
  }
}
