/** The Postgres connection string and what a URL parser reads back from it. */
module Dsn {
  import opened Storage
  import opened Decimal
  import opened Text

  /** Strings here are byte strings: every character stands for one byte. */
  type Byte = c: char | c as int < 256 witness 'a'

  type Bytes = seq<Byte>

  // ----- Escaping -----

  function HexDigit(n: nat): Byte
    requires n < 16
  {
    "0123456789ABCDEF"[n]
  }

  function HexValue(c: char): (n: Option<nat>)
    ensures n.Some? ==> n.value < 16
  {
    if '0' <= c <= '9' then Some(c as int - '0' as int)
    else if 'A' <= c <= 'F' then Some(c as int - 'A' as int + 10)
    else if 'a' <= c <= 'f' then Some(c as int - 'a' as int + 10)
    else None
  }

  predicate Unreserved(c: char) {
    'A' <= c <= 'Z' || 'a' <= c <= 'z' || '0' <= c <= '9' || c == '-' || c == '_' || c == '.' || c == '~'
  }

  function EscapeByte(c: Byte): string {
    if Unreserved(c) then [c]
    else if c == ' ' then "+"
    else ['%', HexDigit(c as int / 16), HexDigit(c as int % 16)]
  }

  function QueryEscape(s: Bytes): string {
    if s == [] then "" else EscapeByte(s[0]) + QueryEscape(s[1..])
  }

  /** Percent-decoding (section 2.1 of RFC 3986); with `form`, a plus also stands for a
      space, as in form-encoded queries. */
  function Decode(s: string, form: bool): Option<string> {
    if s == "" then Some("")
    else if s[0] == '%' then
      if |s| >= 3 && HexValue(s[1]).Some? && HexValue(s[2]).Some? then
        var rest := Decode(s[3..], form);
        if rest.Some?
        then Some([(HexValue(s[1]).value * 16 + HexValue(s[2]).value) as char] + rest.value)
        else None
      else None
    else
      var rest := Decode(s[1..], form);
      if rest.Some? then Some([if form && s[0] == '+' then ' ' else s[0]] + rest.value) else None
  }

  /** A parser that does not know about forms reads spaces back as pluses. */
  function Reread(s: string, form: bool): string {
    seq(|s|, i requires 0 <= i < |s| => if s[i] == ' ' && !form then '+' else s[i])
  }

  lemma HexRoundTrip(n: nat)
    requires n < 16
    ensures HexValue(HexDigit(n)) == Some(n)
  {
  }

  lemma DecodeByte(c: Byte, rest: string, form: bool)
    ensures Decode(EscapeByte(c) + rest, form) ==
      if Decode(rest, form).Some? then Some([if c == ' ' && !form then '+' else c] + Decode(rest, form).value) else None
  {
    var s := EscapeByte(c) + rest;
    if Unreserved(c) || c == ' ' {
      assert s[1..] == rest;
    } else {
      HexRoundTrip(c as int / 16);
      HexRoundTrip(c as int % 16);
      assert s[3..] == rest;
    }
  }

  lemma {:induction false} DecodeEscape(s: Bytes, form: bool)
    ensures Decode(QueryEscape(s), form) == Some(Reread(s, form))
  {
    if s == [] {
      assert Reread(s, form) == "";
    } else {
      DecodeEscape(s[1..], form);
      DecodeByte(s[0], QueryEscape(s[1..]), form);
      assert Reread(s, form) == [if s[0] == ' ' && !form then '+' else s[0]] + Reread(s[1..], form);
    }
  }

  /** Percent-decoding gives an escaped credential back if and only if it has no space. */
  lemma DecodeEscapeIff(s: Bytes)
    ensures Decode(QueryEscape(s), false) == Some(s) <==> Free(s, ' ')
  {
    DecodeEscape(s, false);
    if Free(s, ' ') {
      assert Reread(s, false) == s;
    } else {
      var i :| 0 <= i < |s| && s[i] == ' ';
      assert Reread(s, false)[i] == '+';
    }
  }

  predicate IsDelimiter(c: char) {
    c == ':' || c == '/' || c == '?' || c == '#' || c == '@' || c == '&'
  }

  lemma ByteHasNoDelimiter(c: Byte, d: char)
    requires IsDelimiter(d)
    ensures Free(EscapeByte(c), d)
  {
    if !Unreserved(c) && c != ' ' {
      HexRoundTrip(c as int / 16);
      HexRoundTrip(c as int % 16);
    }
  }

  lemma {:induction false} EscapeHasNoDelimiter(s: Bytes, d: char)
    requires IsDelimiter(d)
    ensures Free(QueryEscape(s), d)
  {
    if s != [] {
      EscapeHasNoDelimiter(s[1..], d);
      ByteHasNoDelimiter(s[0], d);
    }
  }

  function UserInfo(user: Bytes, password: Bytes): string {
    QueryEscape(user) + ":" + QueryEscape(password)
  }

  /** The escaped user and password are told apart for all credentials, spaces included. */
  lemma UserInfoInjective(u1: Bytes, p1: Bytes, u2: Bytes, p2: Bytes)
    ensures UserInfo(u1, p1) == UserInfo(u2, p2) <==> u1 == u2 && p1 == p2
  {
    UserInfoSplits(u1, p1);
    UserInfoSplits(u2, p2);
    DecodeEscape(u1, true);
    DecodeEscape(u2, true);
    DecodeEscape(p1, true);
    DecodeEscape(p2, true);
    assert Reread(u1, true) == u1 && Reread(u2, true) == u2 && Reread(p1, true) == p1 && Reread(p2, true) == p2;
  }

  lemma UserInfoSplits(user: Bytes, password: Bytes)
    ensures var s := UserInfo(user, password);
      var i := IndexOf(s, ':');
      i < |s| && s[..i] == QueryEscape(user) && s[i + 1..] == QueryEscape(password)
  {
    EscapeHasNoDelimiter(user, ':');
    IndexOfIn(QueryEscape(user), ':', QueryEscape(password));
  }

  // ----- Printing -----

  datatype Config = Config(
    host: string, port: int, user: Bytes, password: Bytes, dbname: string,
    sslMode: string, sslRootCert: string, sslKey: string, sslCert: string)

  function FormatInt(n: int): string {
    if n < 0 then "-" + Format(-n) else Format(n)
  }

  /** The hosts, each with the port unless it is zero. */
  function Hosts(cfg: Config): (hosts: seq<string>)
    ensures hosts != []
  {
    var hosts := Split(cfg.host, ',');
    if cfg.port != 0
    then seq(|hosts|, i requires 0 <= i < |hosts| => hosts[i] + ":" + FormatInt(cfg.port))
    else hosts
  }

  function Pair(key: string, value: string): string {
    key + "=" + value
  }

  function IfGiven(key: string, value: string): seq<(string, string)> {
    if value != "" then [(key, value)] else []
  }

  /** The parameters as keys and values; the three certificate files only if given. */
  function Params(cfg: Config): seq<(string, string)> {
    [("sslmode", cfg.sslMode)] + IfGiven("sslrootcert", cfg.sslRootCert) + IfGiven("sslkey", cfg.sslKey)
      + IfGiven("sslcert", cfg.sslCert)
  }

  function Pairs(params: seq<(string, string)>): seq<string> {
    seq(|params|, i requires 0 <= i < |params| => Pair(params[i].0, params[i].1))
  }

  function Authority(cfg: Config): string {
    UserInfo(cfg.user, cfg.password) + "@" + Join(Hosts(cfg), ',')
  }

  function Print(cfg: Config): string {
    "postgres://" + (Authority(cfg) + "/" + (cfg.dbname + "?" + Join(Pairs(Params(cfg)), '&')))
  }

  lemma JoinSnoc(parts: seq<string>, last: string, c: char)
    requires parts != []
    ensures Join(parts + [last], c) == Join(parts, c) + [c] + last
  {
    if |parts| > 1 {
      assert (parts + [last])[1..] == parts[1..] + [last];
      JoinSnoc(parts[1..], last, c);
    }
  }

  method HostPart(cfg: Config) returns (host: string)
    ensures host == Join(Hosts(cfg), ',')
  {
    if cfg.port == 0 {
      JoinSplit(cfg.host, ',');
      return cfg.host;
    }
    var hosts := Split(cfg.host, ',');
    var ported: seq<string> := [];
    for i := 0 to |hosts|
      invariant |ported| == i && forall j :: 0 <= j < i ==> ported[j] == hosts[j] + ":" + FormatInt(cfg.port)
    {
      ported := ported + [hosts[i] + ":" + FormatInt(cfg.port)];
    }
    assert ported == Hosts(cfg);
    host := Join(ported, ',');
  }

  method AppendIfGiven(query: string, ghost params: seq<(string, string)>, key: string, value: string) returns (query': string)
    requires params != [] && query == Join(Pairs(params), '&')
    ensures query' == Join(Pairs(params + IfGiven(key, value)), '&')
  {
    query' := query;
    if value != "" {
      AddParam(params, key, value);
      query' := query' + ("&" + key + "=" + value);
    } else {
      assert params + IfGiven(key, value) == params;
    }
  }

  /** The optional parameters are appended one by one. */
  method QueryPart(cfg: Config) returns (query: string)
    ensures query == Join(Pairs(Params(cfg)), '&')
  {
    ghost var p1 := [("sslmode", cfg.sslMode)];
    ghost var p2 := p1 + IfGiven("sslrootcert", cfg.sslRootCert);
    ghost var p3 := p2 + IfGiven("sslkey", cfg.sslKey);
    query := Pair("sslmode", cfg.sslMode);
    query := AppendIfGiven(query, p1, "sslrootcert", cfg.sslRootCert);
    query := AppendIfGiven(query, p2, "sslkey", cfg.sslKey);
    query := AppendIfGiven(query, p3, "sslcert", cfg.sslCert);
  }

  /** The connection string as the program builds it. */
  method String(cfg: Config) returns (url: string)
    ensures url == Print(cfg)
  {
    var host := HostPart(cfg);
    var info := QueryEscape(cfg.user) + ":" + QueryEscape(cfg.password);
    var query := QueryPart(cfg);
    url := "postgres://" + (info + "@" + host + "/" + (cfg.dbname + "?" + query));
  }

  lemma AddParam(params: seq<(string, string)>, key: string, value: string)
    requires params != []
    ensures Join(Pairs(params + [(key, value)]), '&') == Join(Pairs(params), '&') + ("&" + key + "=" + value)
  {
    assert Pairs(params + [(key, value)]) == Pairs(params) + [Pair(key, value)];
    JoinSnoc(Pairs(params), Pair(key, value), '&');
    assert ['&'] + Pair(key, value) == "&" + key + "=" + value;
  }

  // ----- Parsing -----

  datatype Parsed = Parsed(
    user: string, password: string, hosts: seq<string>, dbname: string, params: seq<(string, string)>)

  function SplitPair(s: string): (string, string) {
    var i := IndexOf(s, '=');
    if i == |s| then (s, "") else (s[..i], s[i + 1..])
  }

  function SplitPairs(pieces: seq<string>): seq<(string, string)> {
    seq(|pieces|, i requires 0 <= i < |pieces| => SplitPair(pieces[i]))
  }

  /** The values of a query are form-encoded. */
  function DecodeValues(params: seq<(string, string)>): Option<seq<(string, string)>> {
    if params == [] then Some([])
    else
      var value, rest := Decode(params[0].1, true), DecodeValues(params[1..]);
      if value.Some? && rest.Some? then Some([(params[0].0, value.value)] + rest.value) else None
  }

  function Parse(s: string): Option<Parsed> {
    if |s| < 11 || s[..11] != "postgres://" then None else ParseAfterScheme(s[11..])
  }

  /** The components of a URL (section 3 of RFC 3986): a fragment from the first '#' on
      is dropped, the query starts after the first question mark, and the authority ends
      at the first slash. */
  function ParseAfterScheme(s: string): Option<Parsed> {
    var rest := s[..IndexOf(s, '#')];
    var question := IndexOf(rest, '?');
    if question == |rest| then None
    else
      var hier := rest[..question];
      var slash := IndexOf(hier, '/');
      if slash == |hier| then None
      else ParseParts(hier[..slash], hier[slash + 1..], rest[question + 1..])
  }

  /** In the authority the user information ends at the last at-sign; the hosts after it
      are separated by commas. The path and the query values are decoded. */
  function ParseParts(authority: string, path: string, query: string): Option<Parsed> {
    var at := LastIndexOf(authority, '@');
    if at == -1 then None
    else
      var credentials, dbname := ParseUserInfo(authority[..at]), Decode(path, false);
      var params := DecodeValues(SplitPairs(Split(query, '&')));
      if credentials.None? || dbname.None? || params.None? then None
      else Some(Parsed(credentials.value.0, credentials.value.1, Split(authority[at + 1..], ','), dbname.value, params.value))
  }

  /** The user ends at the first colon (section 3.2.1 of RFC 3986). */
  function ParseUserInfo(info: string): Option<(string, string)> {
    var colon := IndexOf(info, ':');
    if colon == |info| then None
    else
      var user, password := Decode(info[..colon], false), Decode(info[colon + 1..], false);
      if user.None? || password.None? then None else Some((user.value, password.value))
  }

  predicate PlainValue(s: string) {
    Free(s, '&') && Free(s, '#') && Free(s, '%') && Free(s, '+')
  }

  /** The fields that are printed as they are contain no delimiter that would end them
      and no escape that would be decoded. */
  ghost predicate Clean(cfg: Config) {
    && Free(cfg.host, '/') && Free(cfg.host, '@') && Free(cfg.host, '?') && Free(cfg.host, '#')
    && Free(cfg.dbname, '?') && Free(cfg.dbname, '#') && Free(cfg.dbname, '%')
    && PlainValue(cfg.sslMode) && PlainValue(cfg.sslRootCert) && PlainValue(cfg.sslKey) && PlainValue(cfg.sslCert)
  }

  // ----- Printing and parsing back -----

  lemma {:induction false} DecodePlain(s: string, form: bool)
    requires Free(s, '%') && (form ==> Free(s, '+'))
    ensures Decode(s, form) == Some(s)
  {
    if s != "" {
      assert s[0] in s;
      DecodePlain(s[1..], form);
      assert s == [s[0]] + s[1..];
    }
  }

  lemma {:induction false} DecodeValuesPlain(params: seq<(string, string)>)
    requires forall i :: 0 <= i < |params| ==> PlainValue(params[i].1)
    ensures DecodeValues(params) == Some(params)
  {
    if params != [] {
      DecodePlain(params[0].1, true);
      DecodeValuesPlain(params[1..]);
      assert params == [(params[0].0, params[0].1)] + params[1..];
    }
  }

  lemma FormatFree(n: nat, c: char)
    requires !IsDigit(c)
    ensures Free(Format(n), c)
  {
    FormatValue(n);
  }

  lemma PortFree(port: int, c: char)
    requires !IsDigit(c) && c != '-'
    ensures Free(FormatInt(port), c)
  {
    FormatFree(if port < 0 then -port else port, c);
  }

  lemma HostsFree(cfg: Config, d: char)
    requires Free(cfg.host, d) && !IsDigit(d) && d != '-' && d != ':' && d != ','
    ensures Free(Join(Hosts(cfg), ','), d)
  {
    SplitKeepsFree(cfg.host, ',', d);
    PortFree(cfg.port, d);
    forall i | 0 <= i < |Hosts(cfg)| ensures Free(Hosts(cfg)[i], d) {
      assert Free(Split(cfg.host, ',')[i], d);
    }
    JoinFree(Hosts(cfg), ',', d);
  }

  lemma HostsSplit(cfg: Config)
    ensures Split(Join(Hosts(cfg), ','), ',') == Hosts(cfg)
  {
    SplitFree(cfg.host, ',');
    PortFree(cfg.port, ',');
    forall i | 0 <= i < |Hosts(cfg)| ensures Free(Hosts(cfg)[i], ',') {
      assert Free(Split(cfg.host, ',')[i], ',');
    }
    SplitJoin(Hosts(cfg), ',');
  }

  lemma ParamsPlain(cfg: Config)
    requires Clean(cfg)
    ensures forall i :: 0 <= i < |Params(cfg)| ==>
      var (key, value) := Params(cfg)[i]; Free(key, '=') && Free(key, '&') && Free(key, '#') && PlainValue(value)
  {
  }

  lemma PairSplits(key: string, value: string)
    requires Free(key, '=')
    ensures SplitPair(Pair(key, value)) == (key, value)
  {
    IndexOfIn(key, '=', value);
    assert Pair(key, value) == key + ['='] + value;
    assert Pair(key, value)[..|key|] == key && Pair(key, value)[|key| + 1..] == value;
  }

  lemma ParamsSplit(cfg: Config)
    requires Clean(cfg)
    ensures DecodeValues(SplitPairs(Split(Join(Pairs(Params(cfg)), '&'), '&'))) == Some(Params(cfg))
    ensures Free(Join(Pairs(Params(cfg)), '&'), '#')
  {
    var params := Params(cfg);
    ParamsPlain(cfg);
    forall i | 0 <= i < |params| ensures SplitPair(Pairs(params)[i]) == params[i] && PlainValue(params[i].1) {
      PairSplits(params[i].0, params[i].1);
    }
    SplitJoin(Pairs(params), '&');
    JoinFree(Pairs(params), '&', '#');
    assert SplitPairs(Pairs(params)) == params;
    DecodeValuesPlain(params);
  }

  lemma AuthorityFree(cfg: Config, d: char)
    requires Free(cfg.host, d) && (d == '/' || d == '?' || d == '#')
    ensures Free(Authority(cfg), d)
  {
    EscapeHasNoDelimiter(cfg.user, d);
    EscapeHasNoDelimiter(cfg.password, d);
    HostsFree(cfg, d);
  }

  /** Printed components parse to themselves. */
  lemma ParseComponents(authority: string, path: string, query: string)
    requires Free(authority, '/') && Free(authority, '?') && Free(authority, '#')
    requires Free(path, '?') && Free(path, '#') && Free(query, '#')
    ensures ParseAfterScheme(authority + "/" + (path + "?" + query)) == ParseParts(authority, path, query)
  {
    var hier := authority + "/" + path;
    var rest := hier + "?" + query;
    assert authority + "/" + (path + "?" + query) == rest;
    assert Free(rest, '#') && rest[..|rest|] == rest;
    IndexOfIn(hier, '?', query);
    assert rest[..|hier|] == hier && rest[|hier| + 1..] == query;
    IndexOfIn(authority, '/', path);
    assert hier[..|authority|] == authority && hier[|authority| + 1..] == path;
  }

  /** Parsing the printed string recovers the hosts with the port on each, the database,
      the parameters, and the credentials with pluses for spaces. */
  lemma ParsePrint(cfg: Config)
    requires Clean(cfg)
    ensures Parse(Print(cfg))
         == Some(Parsed(Reread(cfg.user, false), Reread(cfg.password, false), Hosts(cfg), cfg.dbname, Params(cfg)))
  {
    AuthorityFree(cfg, '#');
    AuthorityFree(cfg, '?');
    AuthorityFree(cfg, '/');
    ParamsSplit(cfg);
    ParseComponents(Authority(cfg), cfg.dbname, Join(Pairs(Params(cfg)), '&'));
    ParsePartsPrint(cfg);
    assert Print(cfg)[..11] == "postgres://";
  }

  lemma ParseUserInfoPrint(cfg: Config)
    ensures ParseUserInfo(UserInfo(cfg.user, cfg.password)) == Some((Reread(cfg.user, false), Reread(cfg.password, false)))
  {
    UserInfoSplits(cfg.user, cfg.password);
    DecodeEscape(cfg.user, false);
    DecodeEscape(cfg.password, false);
  }

  lemma ParsePartsPrint(cfg: Config)
    requires Clean(cfg)
    ensures ParseParts(Authority(cfg), cfg.dbname, Join(Pairs(Params(cfg)), '&'))
         == Some(Parsed(Reread(cfg.user, false), Reread(cfg.password, false), Hosts(cfg), cfg.dbname, Params(cfg)))
  {
    var info, host := UserInfo(cfg.user, cfg.password), Join(Hosts(cfg), ',');
    HostsFree(cfg, '@');
    LastIndexOfIn(info, '@', host);
    assert Authority(cfg)[..|info|] == info && Authority(cfg)[|info| + 1..] == host;
    ParseUserInfoPrint(cfg);
    HostsSplit(cfg);
    DecodePlain(cfg.dbname, false);
    ParamsSplit(cfg);
  }

  /** So the credentials themselves come back if and only if neither contains a space. */
  lemma CredentialsSurviveIff(cfg: Config)
    requires Clean(cfg)
    ensures Parse(Print(cfg)).Some?
    ensures Parse(Print(cfg)).value.user == cfg.user && Parse(Print(cfg)).value.password == cfg.password
       <==> Free(cfg.user, ' ') && Free(cfg.password, ' ')
  {
    ParsePrint(cfg);
    DecodeEscape(cfg.user, false);
    DecodeEscape(cfg.password, false);
    DecodeEscapeIff(cfg.user);
    DecodeEscapeIff(cfg.password);
  }

  // ----- Field by field -----

  /** The value of the first parameter called `key`. */
  function ParamValue(params: seq<(string, string)>, key: string): Option<string> {
    if params == [] then None
    else if params[0].0 == key then Some(params[0].1) else ParamValue(params[1..], key)
  }

  lemma {:induction false} ParamValueConcat(a: seq<(string, string)>, b: seq<(string, string)>, key: string)
    ensures ParamValue(a + b, key) == if ParamValue(a, key).Some? then ParamValue(a, key) else ParamValue(b, key)
  {
    if a == [] {
      assert a + b == b;
    } else {
      assert (a + b)[1..] == a[1..] + b;
      ParamValueConcat(a[1..], b, key);
    }
  }

  lemma IfGivenValue(key: string, value: string, key': string)
    ensures ParamValue(IfGiven(key, value), key') == if key' == key && value != "" then Some(value) else None
  {
  }

  /** What a parameter is to be: the SSL mode always, a certificate file if it was given. */
  function Given(cfg: Config, key: string): Option<string> {
    if key == "sslmode" then Some(cfg.sslMode)
    else if key == "sslrootcert" && cfg.sslRootCert != "" then Some(cfg.sslRootCert)
    else if key == "sslkey" && cfg.sslKey != "" then Some(cfg.sslKey)
    else if key == "sslcert" && cfg.sslCert != "" then Some(cfg.sslCert)
    else None
  }

  lemma ParamsValue(cfg: Config, key: string)
    ensures ParamValue(Params(cfg), key) == Given(cfg, key)
  {
    var mode := [("sslmode", cfg.sslMode)];
    var root, k, cert := IfGiven("sslrootcert", cfg.sslRootCert), IfGiven("sslkey", cfg.sslKey), IfGiven("sslcert", cfg.sslCert);
    ParamValueConcat(mode + root + k, cert, key);
    ParamValueConcat(mode + root, k, key);
    ParamValueConcat(mode, root, key);
    IfGivenValue("sslrootcert", cfg.sslRootCert, key);
    IfGivenValue("sslkey", cfg.sslKey, key);
    IfGivenValue("sslcert", cfg.sslCert, key);
    assert ParamValue(mode, key) == if key == "sslmode" then Some(cfg.sslMode) else None;
  }

  lemma HostsExact(cfg: Config)
    ensures |Hosts(cfg)| == |Split(cfg.host, ',')|
    ensures forall i :: 0 <= i < |Hosts(cfg)| ==>
      Hosts(cfg)[i] == Split(cfg.host, ',')[i] + PortText(cfg.port)
  {
    forall i | 0 <= i < |Hosts(cfg)| ensures Hosts(cfg)[i] == Split(cfg.host, ',')[i] + PortText(cfg.port) {
      assert Split(cfg.host, ',')[i] + ":" + FormatInt(cfg.port) == Split(cfg.host, ',')[i] + (":" + FormatInt(cfg.port));
    }
  }

  /** A colon and the port in decimal, nothing for port zero. */
  function PortText(port: int): string {
    if port == 0 then "" else if port > 0 then ":" + Format(port) else ":" + ("-" + Format(-port))
  }

  /** What is read back, field by field: each comma-separated host with the port, the
      database, the SSL mode, and each certificate file if and only if it was given. */
  lemma ParsedFields(cfg: Config)
    requires Clean(cfg)
    ensures Parse(Print(cfg)).Some?
    ensures var parsed, hosts := Parse(Print(cfg)).value, Split(cfg.host, ',');
      && |parsed.hosts| == |hosts|
      && (forall i :: 0 <= i < |hosts| ==> parsed.hosts[i] == hosts[i] + PortText(cfg.port))
      && parsed.dbname == cfg.dbname
      && forall key :: ParamValue(parsed.params, key) == Given(cfg, key)
  {
    ParsePrint(cfg);
    HostsExact(cfg);
    forall key ensures ParamValue(Params(cfg), key) == Given(cfg, key) {
      ParamsValue(cfg, key);
    }
  }

  /** Letters, digits and "-_.~" stay, a space becomes a plus, every other byte its two
      upper-case hexadecimal digits (section 2.1 of RFC 3986). */
  lemma EscapeExact(c: Byte, s: Bytes)
    ensures QueryEscape([c] + s) == EscapeByte(c) + QueryEscape(s)
    ensures EscapeByte(c) == [c] <==>
      'A' <= c <= 'Z' || 'a' <= c <= 'z' || '0' <= c <= '9' || c in "-_.~"
    ensures EscapeByte(c) != [c] && c != ' ' ==> |EscapeByte(c)| == 3 && EscapeByte(c)[0] == '%'
    ensures EscapeByte(' ') == "+" && EscapeByte('[') == "%5B" && EscapeByte('@') == "%40" && EscapeByte('^') == "%5E"
  {
    assert ([c] + s)[1..] == s;
  }
}
