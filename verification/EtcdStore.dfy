/** The etcd object store: one flat map from keys to reports shared by the stores
    of all four kinds, and the store operations as reads and writes of it. */
module EtcdStore {
  import opened Storage
  import opened Text
  import opened EtcdKeys

  type KeyValues = map<string, Report>

  /** `m` is what the store wired with `g` holds: the keys under its kind prefix are
      exactly the keys of the places in `m`, and every report sits at the place
      its own namespace and name spell. */
  ghost predicate IsView(kv: KeyValues, g: GroupVersionKind, m: Reports) {
    && (forall c :: c in m ==> Stored(kv, g, m, c))
    && (forall key :: key in kv && HasPrefix(key, KindPrefix(g)) ==> IsKeyIn(m, g, key))
  }

  ghost predicate Stored(kv: KeyValues, g: GroupVersionKind, m: Reports, c: Coord)
    requires c in m
  {
    && SlashFree(c.name) && SlashFree(c.namespace) && CoordOf(m[c]) == c
    && Key(g, c) in kv && kv[Key(g, c)] == m[c]
  }

  ghost predicate IsKeyIn(m: Reports, g: GroupVersionKind, key: string) {
    exists c :: c in m && key == Key(g, c)
  }

  lemma KeyUnderKind(g: GroupVersionKind, c: Coord)
    ensures HasPrefix(Key(g, c), KindPrefix(g))
  {
    KeyIsPath(g, c);
  }

  lemma ViewHas(kv: KeyValues, g: GroupVersionKind, m: Reports, c: Coord)
    requires IsView(kv, g, m) && SlashFree(c.name)
    ensures c in m <==> Key(g, c) in kv
    ensures c in m ==> m[c] == kv[Key(g, c)]
  {
    if Key(g, c) in kv {
      KeyUnderKind(g, c);
      var c' :| c' in m && Key(g, c) == Key(g, c');
      PathOfKey(g, c, c');
    }
  }

  // ----- The operations on the flat map -----

  function FlatNext(kv: KeyValues, g: GroupVersionKind, op: Op, io: Io): KeyValues {
    match op
    case Get(_) => kv
    case List(_) => kv
    case Create(r) =>
      if io.read && Key(g, CoordOf(r)) !in kv && io.write then kv[Key(g, CoordOf(r)) := r] else kv
    case Update(r) =>
      if io.read && Key(g, CoordOf(r)) in kv && io.write then kv[Key(g, CoordOf(r)) := r] else kv
    case Delete(c) => if io.write then kv - {Key(g, c)} else kv
  }

  ghost function KeysUnder(kv: KeyValues, prefix: string): set<string> {
    set key | key in kv && HasPrefix(key, prefix)
  }

  /** `values` are the values at the keys under `prefix`, in some order of the keys. */
  ghost predicate ScanOf(kv: KeyValues, prefix: string, values: seq<Report>) {
    exists keys: seq<string> :: ScanInOrder(kv, prefix, keys, values)
  }

  ghost predicate ScanInOrder(kv: KeyValues, prefix: string, keys: seq<string>, values: seq<Report>) {
    && Enumerates(keys, KeysUnder(kv, prefix))
    && |values| == |keys|
    && (forall i :: 0 <= i < |keys| ==> keys[i] in kv && values[i] == kv[keys[i]])
  }

  ghost predicate FlatAnswers(kv: KeyValues, g: GroupVersionKind, op: Op, io: Io, a: Answer) {
    match op
    case Get(c) =>
      a == if !io.read then Failed(Unavailable)
           else if Key(g, c) in kv then Found(kv[Key(g, c)]) else Failed(NotFound)
    case List(ns) =>
      if !io.read then a == Failed(Unavailable)
      else a.Listed? && ScanOf(kv, Prefix(g, ns), a.reports)
    case Create(r) =>
      a == if !io.read then Failed(Unavailable)
           else if Key(g, CoordOf(r)) in kv then Failed(AlreadyExists)
           else if !io.write then Failed(Unavailable) else Done
    case Update(r) =>
      a == if !io.read then Failed(Unavailable)
           else if Key(g, CoordOf(r)) !in kv then Failed(NotFound)
           else if !io.write then Failed(Unavailable) else Done
    case Delete(c) =>
      a == if !io.write then Failed(Unavailable)
           else if Key(g, c) in kv then Done else Failed(NotFound)
  }

  // ----- The flat map refines four independent maps -----

  function Write(kv: KeyValues, key: string, v: Option<Report>): KeyValues {
    if v.None? then kv - {key} else kv[key := v.value]
  }

  function Change(m: Reports, at: Coord, v: Option<Report>): Reports {
    if v.None? then m - {at} else m[at := v.value]
  }

  /** A write at one of the store's own keys. */
  lemma OwnWrite(kv: KeyValues, g: GroupVersionKind, m: Reports, at: Coord, v: Option<Report>)
    requires IsView(kv, g, m) && SlashFree(at.name)
    requires v.Some? ==> CoordOf(v.value) == at && SlashFree(at.namespace)
    ensures IsView(Write(kv, Key(g, at), v), g, Change(m, at, v))
  {
    var kv', m' := Write(kv, Key(g, at), v), Change(m, at, v);
    forall c | c in m' ensures Stored(kv', g, m', c) {
      if c != at {
        assert Stored(kv, g, m, c);
        PathOfKey(g, c, at);
      }
    }
    forall key | key in kv' && HasPrefix(key, KindPrefix(g)) ensures IsKeyIn(m', g, key) {
      if key != Key(g, at) {
        assert IsKeyIn(m, g, key);
        var c :| c in m && key == Key(g, c);
        assert c in m';
      } else {
        assert at in m';
      }
    }
  }

  /** A write of another store. */
  lemma OtherWrite(w: Wiring, kv: KeyValues, k: Kind, m: Reports, k': Kind, at: Coord, v: Option<Report>)
    requires PrefixFree(w) && IsView(kv, w(k), m) && k' != k
    ensures IsView(Write(kv, Key(w(k'), at), v), w(k), m)
  {
    var kv' := Write(kv, Key(w(k'), at), v);
    KeyIsPath(w(k'), at);
    ForeignKey(w, k, k', Path(at));
    forall c | c in m ensures Stored(kv', w(k), m, c) {
      assert Stored(kv, w(k), m, c);
      KeyUnderKind(w(k), c);
    }
    forall key | key in kv' && HasPrefix(key, KindPrefix(w(k))) ensures IsKeyIn(m, w(k), key) {
      assert key in kv;
    }
  }

  /** An operation of a store acts on its own map as the interface says. */
  lemma OwnStep(kv: KeyValues, g: GroupVersionKind, m: Reports, op: Op, io: Io)
    requires IsView(kv, g, m) && Admissible(op)
    ensures IsView(FlatNext(kv, g, op, io), g, Next(m, op, io))
  {
    match op
    case Get(_) =>
    case List(_) =>
    case Create(r) => ViewHas(kv, g, m, CoordOf(r)); OwnWrite(kv, g, m, CoordOf(r), Some(r));
    case Update(r) => ViewHas(kv, g, m, CoordOf(r)); OwnWrite(kv, g, m, CoordOf(r), Some(r));
    case Delete(c) => OwnWrite(kv, g, m, c, None);
  }

  /** The other stores do not see it. */
  lemma OtherStep(w: Wiring, kv: KeyValues, k: Kind, m: Reports, k': Kind, op: Op, io: Io)
    requires PrefixFree(w) && IsView(kv, w(k), m) && k' != k
    ensures IsView(FlatNext(kv, w(k'), op, io), w(k), m)
  {
    match op
    case Get(_) =>
    case List(_) =>
    case Create(r) => OtherWrite(w, kv, k, m, k', CoordOf(r), Some(r));
    case Update(r) => OtherWrite(w, kv, k, m, k', CoordOf(r), Some(r));
    case Delete(c) => OtherWrite(w, kv, k, m, k', c, None);
  }

  lemma ScanIsListing(kv: KeyValues, g: GroupVersionKind, m: Reports, namespace: string, keys: seq<string>, values: seq<Report>)
    requires IsView(kv, g, m) && ScanInOrder(kv, Prefix(g, namespace), keys, values)
    ensures Enumerates(values, ReportsIn(m, namespace))
  {
    forall i | 0 <= i < |keys|
      ensures CoordOf(values[i]) in m && InNamespace(CoordOf(values[i]), namespace)
      ensures m[CoordOf(values[i])] == values[i] && keys[i] == Key(g, CoordOf(values[i]))
    {
      assert keys[i] in keys;
      ScanUnderKind(g, namespace, keys[i]);
      assert IsKeyIn(m, g, keys[i]);
      var c :| c in m && keys[i] == Key(g, c);
      assert Stored(kv, g, m, c);
      PrefixSelects(g, namespace, c);
      NestedNeedsSlash(c, namespace);
    }
    forall x | x in values ensures x in ReportsIn(m, namespace) {
      assert m[CoordOf(x)] == x;
    }
    forall x | x in ReportsIn(m, namespace) ensures x in values {
      var c :| c in m && InNamespace(c, namespace) && m[c] == x;
      assert Stored(kv, g, m, c);
      PrefixSelects(g, namespace, c);
      assert Key(g, c) in keys;
      var i :| 0 <= i < |keys| && keys[i] == Key(g, c);
      assert values[i] == x;
    }
  }

  /** Every answer of the flat store is one the interface allows. */
  lemma AnswersRefine(kv: KeyValues, g: GroupVersionKind, m: Reports, op: Op, io: Io, a: Answer)
    requires IsView(kv, g, m) && Admissible(op) && FlatAnswers(kv, g, op, io, a)
    ensures Answers(m, op, io, a)
  {
    match op
    case List(ns) =>
      if io.read {
        var keys: seq<string> :| ScanInOrder(kv, Prefix(g, ns), keys, a.reports);
        ScanIsListing(kv, g, m, ns, keys, a.reports);
      }
    case Get(c) => ViewHas(kv, g, m, c);
    case Create(r) => ViewHas(kv, g, m, CoordOf(r));
    case Update(r) => ViewHas(kv, g, m, CoordOf(r));
    case Delete(c) => ViewHas(kv, g, m, c);
  }

  // ----- The client and the store as objects -----

  datatype KeyValue = KeyValue(key: string, value: Report)

  /** The etcd client's view of the cluster. `up` says whether the call comes back
      without an error; a call that does not has no effect. */
  class Client {
    var kv: KeyValues

    constructor ()
      ensures kv == map[]
    {
      kv := map[];
    }

    method Get(key: string, up: bool) returns (err: bool, kvs: seq<KeyValue>)
      ensures err == !up
      ensures up ==> kvs == if key in kv then [KeyValue(key, kv[key])] else []
    {
      err, kvs := !up, [];
      if up && key in kv {
        kvs := [KeyValue(key, kv[key])];
      }
    }

    method GetWithPrefix(prefix: string, up: bool) returns (err: bool, kvs: seq<KeyValue>)
      ensures err == !up
      ensures up ==> ScanInOrder(kv, prefix, Keys(kvs), Values(kvs))
    {
      err, kvs := !up, [];
      if up {
        var todo := set key | key in kv && HasPrefix(key, prefix);
        while todo != {}
          invariant todo <= KeysUnder(kv, prefix)
          invariant ScanStep(kv, prefix, kvs, todo)
          decreases todo
        {
          var key :| key in todo;
          ScanAppend(kv, prefix, kvs, todo, key);
          kvs, todo := kvs + [KeyValue(key, kv[key])], todo - {key};
        }
      }
    }

    method Put(key: string, value: Report, up: bool) returns (err: bool)
      modifies this
      ensures err == !up
      ensures kv == if up then old(kv)[key := value] else old(kv)
    {
      err := !up;
      if up {
        kv := kv[key := value];
      }
    }

    method Delete(key: string, up: bool) returns (err: bool, deleted: nat)
      modifies this
      ensures err == !up
      ensures kv == if up then old(kv) - {key} else old(kv)
      ensures up ==> deleted == if key in old(kv) then 1 else 0
    {
      err, deleted := !up, 0;
      if up {
        if key in kv {
          deleted := 1;
        }
        kv := kv - {key};
      }
    }
  }

  function Keys(kvs: seq<KeyValue>): seq<string> {
    seq(|kvs|, i requires 0 <= i < |kvs| => kvs[i].key)
  }

  function Values(kvs: seq<KeyValue>): seq<Report> {
    seq(|kvs|, i requires 0 <= i < |kvs| => kvs[i].value)
  }

  ghost predicate ScanStep(kv: KeyValues, prefix: string, kvs: seq<KeyValue>, todo: set<string>) {
    && Enumerates(Keys(kvs), KeysUnder(kv, prefix) - todo)
    && (forall i :: 0 <= i < |kvs| ==> kvs[i].key in kv && kvs[i].value == kv[kvs[i].key])
  }

  lemma ScanAppend(kv: KeyValues, prefix: string, kvs: seq<KeyValue>, todo: set<string>, key: string)
    requires ScanStep(kv, prefix, kvs, todo) && todo <= KeysUnder(kv, prefix) && key in todo
    ensures ScanStep(kv, prefix, kvs + [KeyValue(key, kv[key])], todo - {key})
  {
    var kvs' := kvs + [KeyValue(key, kv[key])];
    assert Keys(kvs') == Keys(kvs) + [key];
    assert key !in Keys(kvs);
  }

  /** One kind's store: check-then-put over the shared client. */
  class ObjectStore {
    const client: Client
    const gvk: GroupVersionKind

    constructor (client: Client, gvk: GroupVersionKind)
      ensures this.client == client && this.gvk == gvk
    {
      this.client, this.gvk := client, gvk;
    }

    method Get(at: Coord, io: Io) returns (a: Answer)
      ensures FlatAnswers(client.kv, gvk, Op.Get(at), io, a)
    {
      var err, kvs := client.Get(Key(gvk, at), io.read);
      if err {
        return Failed(Unavailable);
      }
      if |kvs| != 1 {
        return Failed(NotFound);
      }
      return Found(kvs[0].value);
    }

    method List(namespace: string, io: Io) returns (a: Answer)
      ensures FlatAnswers(client.kv, gvk, Op.List(namespace), io, a)
    {
      var err, kvs := client.GetWithPrefix(Prefix(gvk, namespace), io.read);
      if err {
        return Failed(Unavailable);
      }
      var objects: seq<Report> := [];
      if |kvs| == 0 {
        assert ScanInOrder(client.kv, Prefix(gvk, namespace), Keys(kvs), objects);
        return Listed(objects);
      }
      for i := 0 to |kvs|
        invariant objects == Values(kvs)[..i]
      {
        objects := objects + [kvs[i].value];
      }
      assert objects == Values(kvs);
      return Listed(objects);
    }

    method Create(obj: Report, io: Io) returns (a: Answer)
      modifies client
      ensures client.kv == FlatNext(old(client.kv), gvk, Op.Create(obj), io)
      ensures FlatAnswers(old(client.kv), gvk, Op.Create(obj), io, a)
    {
      var key := Key(gvk, CoordOf(obj));
      var err, kvs := client.Get(key, io.read);
      if err {
        return Failed(Unavailable);
      }
      if |kvs| > 0 {
        return Failed(AlreadyExists);
      }
      err := client.Put(key, obj, io.write);
      if err {
        return Failed(Unavailable);
      }
      return Done;
    }

    method Update(obj: Report, io: Io) returns (a: Answer)
      modifies client
      ensures client.kv == FlatNext(old(client.kv), gvk, Op.Update(obj), io)
      ensures FlatAnswers(old(client.kv), gvk, Op.Update(obj), io, a)
    {
      var key := Key(gvk, CoordOf(obj));
      var err, kvs := client.Get(key, io.read);
      if err {
        return Failed(Unavailable);
      }
      if |kvs| != 1 {
        return Failed(NotFound);
      }
      err := client.Put(key, obj, io.write);
      if err {
        return Failed(Unavailable);
      }
      return Done;
    }

    method Delete(at: Coord, io: Io) returns (a: Answer)
      modifies client
      ensures client.kv == FlatNext(old(client.kv), gvk, Op.Delete(at), io)
      ensures FlatAnswers(old(client.kv), gvk, Op.Delete(at), io, a)
    {
      var err, deleted := client.Delete(Key(gvk, at), io.write);
      if err {
        return Failed(Unavailable);
      }
      if deleted == 0 {
        return Failed(NotFound);
      }
      return Done;
    }
  }
}
