/** The flat key space of the etcd backend: group/version/kind/namespace/name. */
module EtcdKeys {
  import opened Storage
  import opened Text

  datatype GroupVersionKind = GroupVersionKind(group: string, version: string, kind: string)

  function KindPrefix(g: GroupVersionKind): string {
    g.group + "/" + g.version + "/" + g.kind + "/"
  }

  function Prefix(g: GroupVersionKind, namespace: string): string {
    if |namespace| != 0 then KindPrefix(g) + namespace + "/" else KindPrefix(g)
  }

  function Key(g: GroupVersionKind, c: Coord): string {
    Prefix(g, c.namespace) + c.name
  }

  /** The part of a key after the kind prefix. */
  function Path(c: Coord): string {
    if |c.namespace| != 0 then c.namespace + "/" + c.name else c.name
  }

  lemma KeyIsPath(g: GroupVersionKind, c: Coord)
    ensures Key(g, c) == KindPrefix(g) + Path(c)
  {
    assert KindPrefix(g) + c.namespace + "/" + c.name == KindPrefix(g) + (c.namespace + "/" + c.name);
  }

  lemma JoinThree(a: string, b: string, c: string, tail: seq<string>)
    requires tail != []
    ensures Join([a, b, c] + tail, '/') == a + ['/'] + (b + ['/'] + (c + ['/'] + Join(tail, '/')))
  {
    JoinCons(c, tail, '/');
    JoinCons(b, [c] + tail, '/');
    JoinCons(a, [b] + ([c] + tail), '/');
    assert [a] + ([b] + ([c] + tail)) == [a, b, c] + tail;
  }

  lemma KindPrefixThen(g: GroupVersionKind, path: string)
    ensures KindPrefix(g) + path == g.group + ['/'] + (g.version + ['/'] + (g.kind + ['/'] + path))
  {
    var kind := g.kind + "/" + path;
    assert g.version + "/" + g.kind + "/" + path == g.version + "/" + kind;
    assert KindPrefix(g) + path == g.group + "/" + (g.version + "/" + kind);
  }

  lemma PathIsJoined(c: Coord)
    ensures Path(c) == Join(if c.namespace == "" then [c.name] else [c.namespace, c.name], '/')
  {
    JoinCons(c.namespace, [c.name], '/');
    assert [c.namespace] + [c.name] == [c.namespace, c.name];
  }

  /** A key is its parts joined by slashes; outside any namespace that part is left out. */
  lemma KeyIsJoined(g: GroupVersionKind, c: Coord)
    ensures Key(g, c) == Join(
      [g.group, g.version, g.kind] + (if c.namespace == "" then [c.name] else [c.namespace, c.name]), '/')
  {
    KeyIsPath(g, c);
    PathIsJoined(c);
    JoinThree(g.group, g.version, g.kind, if c.namespace == "" then [c.name] else [c.namespace, c.name]);
    KindPrefixThen(g, Path(c));
  }

  predicate SlashFree(s: string) {
    Free(s, '/')
  }

  /** The API machinery admits only path segments as names and namespaces. */
  predicate Admissible(op: Op) {
    match op
    case Get(c) => SlashFree(c.name)
    case List(_) => true
    case Create(r) => SlashFree(r.name) && SlashFree(r.namespace)
    case Update(r) => SlashFree(r.name) && SlashFree(r.namespace)
    case Delete(c) => SlashFree(c.name)
  }

  // ----- Which identifier each store is given -----

  type Wiring = Kind -> GroupVersionKind

  /** No kind prefix is a prefix of another. */
  ghost predicate PrefixFree(w: Wiring) {
    forall k1, k2 :: HasPrefix(KindPrefix(w(k1)), KindPrefix(w(k2))) ==> k1 == k2
  }

  /** The wiring of the server. The cluster policy reports reuse the kind of the
      cluster ephemeral reports, so only the group tells the two apart. */
  function Gvk(k: Kind): GroupVersionKind {
    match k
    case PolicyReports => GroupVersionKind("wgpolicyk8s.io", "v1alpha2", "PolicyReport")
    case ClusterPolicyReports => GroupVersionKind("wgpolicyk8s.io", "v1alpha2", "ClusterEphemeralReport")
    case EphemeralReports => GroupVersionKind("reports.kyverno.io", "v1", "EphemeralReport")
    case ClusterEphemeralReports => GroupVersionKind("reports.kyverno.io", "v1", "ClusterEphemeralReport")
  }

  /** The kind a key of the server's wiring belongs to, read off two of its characters. */
  function KindOfKey(key: string): Kind {
    if |key| > 24 && key[0] == 'w' then
      if key[24] == 'P' then PolicyReports else ClusterPolicyReports
    else if |key| > 22 && key[22] == 'E' then EphemeralReports
    else ClusterEphemeralReports
  }

  lemma KindOfKeyCorrect(k: Kind, rest: string)
    ensures KindOfKey(KindPrefix(Gvk(k)) + rest) == k
  {
    var g, v, d := Gvk(k).group, Gvk(k).version, Gvk(k).kind;
    var key := KindPrefix(Gvk(k)) + rest;
    assert |d| > 0 && |g| > 0;
    assert key[0] == g[0];
    assert key[|g| + 1 + |v| + 1] == d[0];
  }

  /** The four stores' key spaces are disjoint although they share one etcd. */
  lemma ServerWiringIsPrefixFree()
    ensures PrefixFree(Gvk)
  {
    forall k1, k2 | HasPrefix(KindPrefix(Gvk(k1)), KindPrefix(Gvk(k2))) ensures k1 == k2 {
      var p1, p2 := KindPrefix(Gvk(k1)), KindPrefix(Gvk(k2));
      SplitPrefix(p1, p2);
      KindOfKeyCorrect(k1, "");
      KindOfKeyCorrect(k2, p1[|p2|..]);
      assert p1 + "" == p1;
    }
  }

  lemma KindsApart(w: Wiring, k1: Kind, x: string, k2: Kind, y: string)
    requires PrefixFree(w)
    requires KindPrefix(w(k1)) + x == KindPrefix(w(k2)) + y
    ensures k1 == k2 && x == y
  {
    SharedHead(KindPrefix(w(k1)), x, KindPrefix(w(k2)), y);
  }

  // ----- Reading a key back -----

  /** The namespace and name a path spells: everything before and after its last slash. */
  function CoordOfPath(p: string): Coord {
    var i := LastIndexOf(p, '/');
    if i == -1 then Coord("", p) else Coord(p[..i], p[i + 1..])
  }

  lemma PathRoundTrip(c: Coord)
    ensures SlashFree(c.name) ==> CoordOfPath(Path(c)) == c
  {
    if SlashFree(c.name) {
      LastIndexOfIn(c.namespace, '/', c.name);
    }
  }

  lemma PathOfKey(g: GroupVersionKind, c1: Coord, c2: Coord)
    requires SlashFree(c1.name) && SlashFree(c2.name)
    ensures Key(g, c1) == Key(g, c2) ==> c1 == c2
  {
    KeyIsPath(g, c1);
    KeyIsPath(g, c2);
    PathRoundTrip(c1);
    PathRoundTrip(c2);
    if Key(g, c1) == Key(g, c2) {
      SharedHead(KindPrefix(g), Path(c1), KindPrefix(g), Path(c2));
    }
  }

  /** Keys are injective over kind, namespace and slash-free name, across all the
      stores of one wiring; the namespace needs no condition. */
  lemma KeyInjective(w: Wiring, k1: Kind, c1: Coord, k2: Kind, c2: Coord)
    requires PrefixFree(w) && SlashFree(c1.name) && SlashFree(c2.name)
    ensures Key(w(k1), c1) == Key(w(k2), c2) <==> k1 == k2 && c1 == c2
  {
    KeyIsPath(w(k1), c1);
    KeyIsPath(w(k2), c2);
    PathRoundTrip(c1);
    PathRoundTrip(c2);
    if Key(w(k1), c1) == Key(w(k2), c2) {
      KindsApart(w, k1, Path(c1), k2, Path(c2));
    }
  }

  /** Some other place, with a slash-free name, shares the key of `c`. */
  ghost predicate KeyIsShared(w: Wiring, k: Kind, c: Coord) {
    exists k': Kind, c': Coord :: SlashFree(c'.name) && Key(w(k'), c') == Key(w(k), c) && (k' != k || c' != c)
  }

  /** A name whose only slash is its first character, outside any namespace. */
  predicate LeadingSlashOnly(c: Coord) {
    c.namespace == "" && |c.name| > 0 && c.name[0] == '/' && SlashFree(c.name[1..])
  }

  /** Exactly which places share their key: those with a slash in the name,
      unless it is a single leading slash outside any namespace. */
  lemma KeyIsSharedIff(w: Wiring, k: Kind, c: Coord)
    requires PrefixFree(w)
    ensures KeyIsShared(w, k, c) <==> !SlashFree(c.name) && !LeadingSlashOnly(c)
  {
    if KeyIsShared(w, k, c) {
      var k': Kind, c': Coord :| SlashFree(c'.name) && Key(w(k'), c') == Key(w(k), c) && (k' != k || c' != c);
      SharedKeyHasSlash(w, k, c, k', c');
    } else {
      UnsharedKeyIsPlain(w, k, c);
    }
  }

  lemma SharedKeyHasSlash(w: Wiring, k: Kind, c: Coord, k': Kind, c': Coord)
    requires PrefixFree(w)
    requires SlashFree(c'.name) && Key(w(k'), c') == Key(w(k), c) && (k' != k || c' != c)
    ensures !SlashFree(c.name) && !LeadingSlashOnly(c)
  {
    KeyIsPath(w(k), c);
    KeyIsPath(w(k'), c');
    KindsApart(w, k, Path(c), k', Path(c'));
    PathRoundTrip(c);
    PathRoundTrip(c');
    LastIndexOfIn(c'.namespace, '/', c'.name);
    LeadingSlashAtZero(c);
  }

  lemma UnsharedKeyIsPlain(w: Wiring, k: Kind, c: Coord)
    requires !KeyIsShared(w, k, c)
    ensures SlashFree(c.name) || LeadingSlashOnly(c)
  {
    var p := Path(c);
    var i := LastIndexOf(p, '/');
    if i > 0 {
      var c' := Coord(p[..i], p[i + 1..]);
      assert Path(c') == p;
      KeyIsPath(w(k), c);
      KeyIsPath(w(k), c');
      assert SlashFree(c'.name) && Key(w(k), c') == Key(w(k), c);
    } else {
      EarlyLastSlash(c);
    }
  }

  lemma EarlyLastSlash(c: Coord)
    requires LastIndexOf(Path(c), '/') <= 0
    ensures SlashFree(c.name) || LeadingSlashOnly(c)
  {
    LastSlashPastNamespace(c);
  }

  lemma LastSlashPastNamespace(c: Coord)
    ensures LastIndexOf(Path(c), '/') >= |c.namespace| || c.namespace == ""
  {
    if c.namespace != "" {
      assert Path(c)[|c.namespace|] == '/';
    }
  }

  lemma LeadingSlashAtZero(c: Coord)
    ensures LeadingSlashOnly(c) ==> LastIndexOf(Path(c), '/') == 0
  {
    if LeadingSlashOnly(c) {
      LastIndexOfIn("", '/', c.name[1..]);
      assert Path(c) == "" + "/" + c.name[1..];
    }
  }

  // ----- Prefix scans -----

  /** The namespace of `c` lies strictly below `namespace`, which takes a slash in it. */
  predicate Nested(c: Coord, namespace: string) {
    |namespace| != 0 && HasPrefix(c.namespace, namespace + "/")
  }

  lemma NestedNeedsSlash(c: Coord, namespace: string)
    ensures Nested(c, namespace) ==> !SlashFree(c.namespace)
  {
    if Nested(c, namespace) {
      assert c.namespace[..|namespace| + 1][|namespace|] == '/';
    }
  }

  lemma NamespaceOfPath(namespace: string, c: Coord)
    requires |namespace| != 0 && SlashFree(c.name)
    ensures HasPrefix(Path(c), namespace + "/") <==> c.namespace == namespace || Nested(c, namespace)
  {
    var p, n := Path(c), |namespace|;
    LastIndexOfIn(c.namespace, '/', c.name);
    if HasPrefix(p, namespace + "/") {
      assert p[..n + 1][n] == '/';
      assert n <= |c.namespace|;
      assert c.namespace[..n] == p[..n + 1][..n] == namespace;
      assert n < |c.namespace| ==> c.namespace[..n + 1] == p[..n + 1];
    }
    if c.namespace == namespace {
      assert p[..n + 1] == namespace + "/";
    }
    if Nested(c, namespace) {
      assert p[..n + 1] == c.namespace[..n + 1];
    }
  }

  lemma PrefixIsPath(g: GroupVersionKind, namespace: string)
    ensures Prefix(g, namespace) == KindPrefix(g) + (if |namespace| != 0 then namespace + "/" else "")
  {
  }

  /** What a prefix scan meets among the keys of its kind: those in that namespace and
      those of namespaces nested in it. The empty namespace stands for the whole kind. */
  lemma PrefixSelects(g: GroupVersionKind, namespace: string, c: Coord)
    requires SlashFree(c.name)
    ensures HasPrefix(Key(g, c), Prefix(g, namespace)) <==> InNamespace(c, namespace) || Nested(c, namespace)
  {
    KeyIsPath(g, c);
    PrefixIsPath(g, namespace);
    PrefixUnder(KindPrefix(g), Path(c), if |namespace| != 0 then namespace + "/" else "");
    if |namespace| != 0 {
      NamespaceOfPath(namespace, c);
    }
  }

  /** A scan selects its namespace and nothing else, unless a stored namespace is nested in it. */
  lemma PrefixSelectsIff(g: GroupVersionKind, namespace: string, c: Coord)
    requires SlashFree(c.name)
    ensures (HasPrefix(Key(g, c), Prefix(g, namespace)) <==> InNamespace(c, namespace))
       <==> !Nested(c, namespace)
  {
    PrefixSelects(g, namespace, c);
  }

  lemma ScanUnderKind(g: GroupVersionKind, namespace: string, key: string)
    requires HasPrefix(key, Prefix(g, namespace))
    ensures HasPrefix(key, KindPrefix(g))
  {
    PrefixIsPath(g, namespace);
    assert key[..|KindPrefix(g)|] == key[..|Prefix(g, namespace)|][..|KindPrefix(g)|];
  }

  /** A scan of one kind meets no key of another. */
  lemma ForeignKey(w: Wiring, k: Kind, k': Kind, rest: string)
    requires PrefixFree(w)
    ensures HasPrefix(KindPrefix(w(k')) + rest, KindPrefix(w(k))) ==> k' == k
  {
    var key := KindPrefix(w(k')) + rest;
    if HasPrefix(key, KindPrefix(w(k))) {
      SplitPrefix(key, KindPrefix(w(k)));
      KindsApart(w, k', rest, k, key[|KindPrefix(w(k))|..]);
    }
  }
}
