/** The in-memory backend: a map from string keys to encoded reports. */
module InMemoryStore {
  import opened Storage
  import opened Text
  import opened EtcdKeys

  type Bytes = seq<bv8>

  /** Marshalling and compression, and their inverse. */
  datatype Codec = Codec(encode: Report -> Bytes, decode: Bytes -> Option<Report>)

  ghost predicate Faithful(codec: Codec) {
    forall r :: codec.decode(codec.encode(r)) == Some(r)
  }

  type Encoded = map<string, Bytes>

  function MemoryPath(c: Coord): string {
    c.namespace + "/" + c.name
  }

  function MemoryKey(c: Coord): string {
    "polr/" + MemoryPath(c)
  }

  lemma MemoryKeyIsJoined(c: Coord)
    ensures MemoryKey(c) == Join(["polr", c.namespace, c.name], '/')
  {
    JoinCons(c.namespace, [c.name], '/');
    JoinCons("polr", [c.namespace, c.name], '/');
    assert ["polr"] + [c.namespace, c.name] == ["polr", c.namespace, c.name];
    assert [c.namespace] + [c.name] == [c.namespace, c.name];
    assert "polr" + ['/'] == "polr/";
  }

  function NamespacePrefix(namespace: string): string {
    "polr/" + (namespace + "/")
  }

  /** A value that cannot be decoded reads as absent. */
  function Lookup(storage: Encoded, codec: Codec, key: string): Option<Report> {
    if key in storage then codec.decode(storage[key]) else None
  }

  // ----- The operations on the encoded map -----

  function MemoryNext(storage: Encoded, codec: Codec, op: Op): Encoded {
    match op
    case Get(_) => storage
    case List(_) => storage
    case Create(r) =>
      var key := MemoryKey(CoordOf(r));
      if Lookup(storage, codec, key).None? then storage[key := codec.encode(r)] else storage
    case Update(r) =>
      var key := MemoryKey(CoordOf(r));
      if Lookup(storage, codec, key).Some? then storage[key := codec.encode(r)] else storage
    case Delete(c) =>
      if Lookup(storage, codec, MemoryKey(c)).Some? then storage - {MemoryKey(c)} else storage
  }

  ghost function Selected(storage: Encoded, namespace: string): set<string> {
    set key | key in storage && Selects(namespace, key)
  }

  ghost predicate MemoryListing(storage: Encoded, codec: Codec, namespace: string, keys: seq<string>, values: seq<Report>) {
    && Enumerates(keys, Selected(storage, namespace))
    && |values| == |keys|
    && (forall i :: 0 <= i < |keys| ==> Lookup(storage, codec, keys[i]) == Some(values[i]))
  }

  ghost predicate MemoryAnswers(storage: Encoded, codec: Codec, op: Op, a: Answer) {
    match op
    case Get(c) =>
      var v := Lookup(storage, codec, MemoryKey(c));
      a == if v.Some? then Found(v.value) else Failed(NotFound)
    case List(ns) =>
      if exists key :: key in Selected(storage, ns) && Lookup(storage, codec, key).None?
      then a == Failed(Unavailable)
      else a.Listed? && exists keys: seq<string> :: MemoryListing(storage, codec, ns, keys, a.reports)
    case Create(r) =>
      a == if Lookup(storage, codec, MemoryKey(CoordOf(r))).Some? then Failed(AlreadyExists) else Done
    case Update(r) =>
      a == if Lookup(storage, codec, MemoryKey(CoordOf(r))).None? then Failed(NotFound) else Done
    case Delete(c) =>
      a == if Lookup(storage, codec, MemoryKey(c)).None? then Failed(NotFound) else Done
  }

  // ----- The encoded map refines a map from namespace and name -----

  ghost predicate IsMemoryView(storage: Encoded, codec: Codec, m: Reports) {
    && (forall c :: c in m ==> StoredEncoded(storage, codec, m, c))
    && (forall key :: key in storage ==> IsMemoryKeyIn(m, key))
  }

  ghost predicate StoredEncoded(storage: Encoded, codec: Codec, m: Reports, c: Coord)
    requires c in m
  {
    && SlashFree(c.name) && SlashFree(c.namespace) && CoordOf(m[c]) == c
    && Lookup(storage, codec, MemoryKey(c)) == Some(m[c])
  }

  ghost predicate IsMemoryKeyIn(m: Reports, key: string) {
    exists c :: c in m && key == MemoryKey(c)
  }

  lemma MemoryPathRoundTrip(c: Coord)
    requires SlashFree(c.name)
    ensures var p := MemoryPath(c);
      LastIndexOf(p, '/') == |c.namespace| && c == Coord(p[..|c.namespace|], p[|c.namespace| + 1..])
  {
    LastIndexOfIn(c.namespace, '/', c.name);
  }

  lemma MemoryKeyInjective(c1: Coord, c2: Coord)
    requires SlashFree(c1.name) && SlashFree(c2.name)
    ensures MemoryKey(c1) == MemoryKey(c2) ==> c1 == c2
  {
    MemoryPathRoundTrip(c1);
    MemoryPathRoundTrip(c2);
    if MemoryKey(c1) == MemoryKey(c2) {
      SharedHead("polr/", MemoryPath(c1), "polr/", MemoryPath(c2));
    }
  }

  lemma MemoryPrefixSelects(namespace: string, c: Coord)
    requires SlashFree(c.name) && SlashFree(c.namespace)
    ensures HasPrefix(MemoryKey(c), NamespacePrefix(namespace)) <==> c.namespace == namespace
  {
    PrefixUnder("polr/", MemoryPath(c), namespace + "/");
    var p, n := MemoryPath(c), |namespace|;
    LastIndexOfIn(c.namespace, '/', c.name);
    if HasPrefix(p, namespace + "/") {
      assert p[..n + 1][n] == '/';
      assert p[|c.namespace|] == '/' && p[..|c.namespace|] == c.namespace;
      assert n == |c.namespace|;
      assert c.namespace == p[..n + 1][..n] == namespace;
    }
    if c.namespace == namespace {
      assert p[..n + 1] == namespace + "/";
    }
  }

  lemma MemoryViewHas(storage: Encoded, codec: Codec, m: Reports, c: Coord)
    requires IsMemoryView(storage, codec, m) && SlashFree(c.name)
    ensures Lookup(storage, codec, MemoryKey(c)) == if c in m then Some(m[c]) else None
  {
    if MemoryKey(c) in storage {
      assert IsMemoryKeyIn(m, MemoryKey(c));
      var c' :| c' in m && MemoryKey(c) == MemoryKey(c');
      MemoryKeyInjective(c, c');
    }
  }

  lemma MemoryWrite(storage: Encoded, codec: Codec, m: Reports, at: Coord, v: Option<Report>)
    requires IsMemoryView(storage, codec, m) && Faithful(codec) && SlashFree(at.name)
    requires v.Some? ==> CoordOf(v.value) == at && SlashFree(at.namespace)
    ensures IsMemoryView(if v.None? then storage - {MemoryKey(at)} else storage[MemoryKey(at) := codec.encode(v.value)],
                         codec, if v.None? then m - {at} else m[at := v.value])
  {
    var key := MemoryKey(at);
    var storage' := if v.None? then storage - {key} else storage[key := codec.encode(v.value)];
    var m' := if v.None? then m - {at} else m[at := v.value];
    forall c | c in m' ensures StoredEncoded(storage', codec, m', c) {
      if c != at {
        assert StoredEncoded(storage, codec, m, c);
        MemoryKeyInjective(c, at);
      }
    }
    forall key' | key' in storage' ensures IsMemoryKeyIn(m', key') {
      if key' != key {
        assert IsMemoryKeyIn(m, key');
        var c :| c in m && key' == MemoryKey(c);
        assert c in m';
      } else {
        assert at in m';
      }
    }
  }

  lemma MemoryStep(storage: Encoded, codec: Codec, m: Reports, op: Op)
    requires IsMemoryView(storage, codec, m) && Faithful(codec) && Admissible(op)
    ensures IsMemoryView(MemoryNext(storage, codec, op), codec, Next(m, op, ALL_UP))
  {
    match op
    case Get(_) =>
    case List(_) =>
    case Create(r) => MemoryViewHas(storage, codec, m, CoordOf(r)); MemoryWrite(storage, codec, m, CoordOf(r), Some(r));
    case Update(r) => MemoryViewHas(storage, codec, m, CoordOf(r)); MemoryWrite(storage, codec, m, CoordOf(r), Some(r));
    case Delete(c) =>
      MemoryViewHas(storage, codec, m, c);
      MemoryWrite(storage, codec, m, c, None);
      assert c !in m ==> m - {c} == m;
  }

  lemma KeyOfSelected(storage: Encoded, codec: Codec, m: Reports, namespace: string, key: string)
    requires IsMemoryView(storage, codec, m) && key in Selected(storage, namespace)
    ensures var v := Lookup(storage, codec, key);
      && v.Some? && CoordOf(v.value) in m && m[CoordOf(v.value)] == v.value
      && InNamespace(CoordOf(v.value), namespace) && key == MemoryKey(CoordOf(v.value))
  {
    assert IsMemoryKeyIn(m, key);
    var c :| c in m && key == MemoryKey(c);
    assert StoredEncoded(storage, codec, m, c);
    MemoryPrefixSelects(namespace, c);
  }

  lemma MemoryListingIsListing(storage: Encoded, codec: Codec, m: Reports, namespace: string, keys: seq<string>, values: seq<Report>)
    requires IsMemoryView(storage, codec, m) && MemoryListing(storage, codec, namespace, keys, values)
    ensures Enumerates(values, ReportsIn(m, namespace))
  {
    forall i | 0 <= i < |keys|
      ensures CoordOf(values[i]) in m && m[CoordOf(values[i])] == values[i]
      ensures InNamespace(CoordOf(values[i]), namespace) && keys[i] == MemoryKey(CoordOf(values[i]))
    {
      assert keys[i] in keys;
      KeyOfSelected(storage, codec, m, namespace, keys[i]);
    }
    forall x | x in values ensures x in ReportsIn(m, namespace) {
      assert m[CoordOf(x)] == x;
    }
    forall x | x in ReportsIn(m, namespace) ensures x in values {
      var c :| c in m && InNamespace(c, namespace) && m[c] == x;
      assert StoredEncoded(storage, codec, m, c);
      MemoryPrefixSelects(namespace, c);
      assert MemoryKey(c) in keys;
      var i :| 0 <= i < |keys| && keys[i] == MemoryKey(c);
      assert values[i] == x;
    }
  }

  /** Every answer of the in-memory store is one the interface allows; no read ever fails to decode. */
  lemma MemoryAnswersRefine(storage: Encoded, codec: Codec, m: Reports, op: Op, a: Answer)
    requires IsMemoryView(storage, codec, m) && Admissible(op) && MemoryAnswers(storage, codec, op, a)
    ensures Answers(m, op, ALL_UP, a)
  {
    match op
    case List(ns) =>
      forall key | key in Selected(storage, ns) ensures Lookup(storage, codec, key).Some? {
        KeyOfSelected(storage, codec, m, ns, key);
      }
      var keys: seq<string> :| MemoryListing(storage, codec, ns, keys, a.reports);
      MemoryListingIsListing(storage, codec, m, ns, keys, a.reports);
    case Get(c) => MemoryViewHas(storage, codec, m, c);
    case Create(r) => MemoryViewHas(storage, codec, m, CoordOf(r));
    case Update(r) => MemoryViewHas(storage, codec, m, CoordOf(r));
    case Delete(c) => MemoryViewHas(storage, codec, m, c);
  }

  // ----- The database and the store as objects -----

  class Db {
    const codec: Codec
    var storage: Encoded

    constructor (codec: Codec)
      ensures this.codec == codec && storage == map[]
    {
      this.codec, storage := codec, map[];
    }

    method Get(key: string) returns (v: Option<Report>)
      ensures v == Lookup(storage, codec, key)
    {
      if key !in storage {
        return None;
      }
      v := codec.decode(storage[key]);
    }

    method Delete(key: string)
      modifies this
      ensures storage == old(storage) - {key}
    {
      storage := storage - {key};
    }

    method Keys() returns (keys: seq<string>)
      ensures Enumerates(keys, storage.Keys)
    {
      keys := [];
      var todo := storage.Keys;
      while todo != {}
        invariant todo <= storage.Keys && Enumerates(keys, storage.Keys - todo)
        decreases todo
      {
        var k :| k in todo;
        assert k !in keys;
        keys, todo := keys + [k], todo - {k};
      }
    }

    method Store(key: string, obj: Report)
      modifies this
      ensures storage == old(storage)[key := codec.encode(obj)]
    {
      storage := storage[key := codec.encode(obj)];
    }
  }

  predicate Selects(namespace: string, key: string) {
    namespace == "" || HasPrefix(key, NamespacePrefix(namespace))
  }

  /** The keys of `keys` that a list of `namespace` reads, in order. */
  ghost function Chosen(keys: seq<string>, namespace: string): seq<string> {
    if keys == [] then []
    else
      var k := keys[|keys| - 1];
      Chosen(keys[..|keys| - 1], namespace) + (if Selects(namespace, k) then [k] else [])
  }

  lemma {:induction false} ChosenFilters(keys: seq<string>, namespace: string)
    requires forall i, j :: 0 <= i < j < |keys| ==> keys[i] != keys[j]
    ensures var cs := Chosen(keys, namespace);
      && (forall i, j :: 0 <= i < j < |cs| ==> cs[i] != cs[j])
      && (forall x :: x in cs <==> x in keys && Selects(namespace, x))
  {
    if keys != [] {
      var k := keys[|keys| - 1];
      var init := keys[..|keys| - 1];
      assert keys == init + [k];
      assert k !in init;
      ChosenFilters(init, namespace);
    }
  }

  class PolicyReportDb {
    const db: Db

    constructor (db: Db)
      ensures this.db == db
    {
      this.db := db;
    }

    method Get(at: Coord) returns (a: Answer)
      ensures MemoryAnswers(db.storage, db.codec, Op.Get(at), a)
    {
      var val := db.Get(MemoryKey(at));
      a := if val.Some? then Found(val.value) else Failed(NotFound);
    }

    method List(namespace: string) returns (a: Answer)
      ensures MemoryAnswers(db.storage, db.codec, Op.List(namespace), a)
    {
      var res: seq<Report> := [];
      var keys := db.Keys();
      ChosenFilters(keys, namespace);
      for i := 0 to |keys|
        invariant |res| == |Chosen(keys[..i], namespace)|
        invariant forall j :: 0 <= j < |res| ==>
          Lookup(db.storage, db.codec, Chosen(keys[..i], namespace)[j]) == Some(res[j])
      {
        assert keys[..i + 1][..i] == keys[..i];
        if Selects(namespace, keys[i]) {
          assert keys[i] in Selected(db.storage, namespace);
          var v := db.Get(keys[i]);
          if v.None? {
            return Failed(Unavailable);
          }
          res := res + [v.value];
        }
      }
      assert keys[..|keys|] == keys;
      assert MemoryListing(db.storage, db.codec, namespace, Chosen(keys, namespace), res);
      a := Listed(res);
    }

    method Create(polr: Report) returns (a: Answer)
      modifies db
      ensures db.storage == MemoryNext(old(db.storage), db.codec, Op.Create(polr))
      ensures MemoryAnswers(old(db.storage), db.codec, Op.Create(polr), a)
    {
      var key := MemoryKey(CoordOf(polr));
      var val := db.Get(key);
      if val.Some? {
        return Failed(AlreadyExists);
      }
      db.Store(key, polr);
      a := Done;
    }

    method Update(polr: Report) returns (a: Answer)
      modifies db
      ensures db.storage == MemoryNext(old(db.storage), db.codec, Op.Update(polr))
      ensures MemoryAnswers(old(db.storage), db.codec, Op.Update(polr), a)
    {
      var key := MemoryKey(CoordOf(polr));
      var val := db.Get(key);
      if val.None? {
        return Failed(NotFound);
      }
      db.Store(key, polr);
      a := Done;
    }

    method Delete(at: Coord) returns (a: Answer)
      modifies db
      ensures db.storage == MemoryNext(old(db.storage), db.codec, Op.Delete(at))
      ensures MemoryAnswers(old(db.storage), db.codec, Op.Delete(at), a)
    {
      var key := MemoryKey(at);
      var val := db.Get(key);
      if val.None? {
        return Failed(NotFound);
      }
      db.Delete(key);
      a := Done;
    }
  }
}
