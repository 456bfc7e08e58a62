/** Text at a separator character: finding, splitting, joining; and prefixes. */
module Text {

  predicate Free(s: string, c: char) {
    c !in s
  }

  /** Position of the first `c`, the length of `s` if there is none. */
  function IndexOf(s: string, c: char): (i: nat)
    ensures i <= |s| && c !in s[..i]
    ensures i < |s| ==> s[i] == c
    ensures i == |s| <==> Free(s, c)
  {
    if s == "" || s[0] == c then 0
    else
      var i := IndexOf(s[1..], c);
      assert s[..i + 1] == [s[0]] + s[1..][..i] && s == [s[0]] + s[1..];
      i + 1
  }

  lemma {:induction false} IndexOfIn(a: string, c: char, b: string)
    requires Free(a, c)
    ensures IndexOf(a + [c] + b, c) == |a|
  {
    var s := a + [c] + b;
    if a != "" {
      IndexOfIn(a[1..], c, b);
      assert s[1..] == a[1..] + [c] + b;
    }
  }

  /** Position of the last `c`, -1 if there is none. */
  function LastIndexOf(s: string, c: char): (i: int)
    ensures -1 <= i < |s|
    ensures i >= 0 ==> s[i] == c
    ensures forall j :: i < j < |s| ==> s[j] != c
    ensures i >= 0 ==> Free(s[i + 1..], c)
    ensures i == -1 <==> Free(s, c)
  {
    if s == "" then -1
    else if s[|s| - 1] == c then |s| - 1
    else
      var init := s[..|s| - 1];
      var i := LastIndexOf(init, c);
      assert forall j :: i < j < |s| - 1 ==> s[j] == init[j];
      i
  }

  lemma {:induction false} LastIndexOfIn(a: string, c: char, b: string)
    requires Free(b, c)
    ensures LastIndexOf(a + [c] + b, c) == |a|
  {
    var s := a + [c] + b;
    if b != "" {
      LastIndexOfIn(a, c, b[..|b| - 1]);
      assert s[..|s| - 1] == a + [c] + b[..|b| - 1];
    }
  }

  function Split(s: string, c: char): (parts: seq<string>)
    ensures parts != []
    decreases |s|
  {
    var i := IndexOf(s, c);
    if i == |s| then [s] else [s[..i]] + Split(s[i + 1..], c)
  }

  function Join(parts: seq<string>, c: char): string
    requires parts != []
  {
    if |parts| == 1 then parts[0] else parts[0] + [c] + Join(parts[1..], c)
  }

  ghost predicate AllFree(parts: seq<string>, c: char) {
    forall i :: 0 <= i < |parts| ==> Free(parts[i], c)
  }

  lemma {:induction false} SplitFree(s: string, c: char)
    ensures AllFree(Split(s, c), c)
    decreases |s|
  {
    var i := IndexOf(s, c);
    if i < |s| {
      SplitFree(s[i + 1..], c);
    } else {
      assert s[..i] == s;
    }
  }

  lemma {:induction false} SplitJoin(parts: seq<string>, c: char)
    requires parts != [] && AllFree(parts, c)
    ensures Split(Join(parts, c), c) == parts
  {
    var s := Join(parts, c);
    if |parts| == 1 {
      assert Free(s, c);
    } else {
      SplitJoin(parts[1..], c);
      IndexOfIn(parts[0], c, Join(parts[1..], c));
      assert s[..|parts[0]|] == parts[0] && s[|parts[0]| + 1..] == Join(parts[1..], c);
    }
  }

  lemma JoinCons(part: string, rest: seq<string>, c: char)
    requires rest != []
    ensures Join([part] + rest, c) == part + [c] + Join(rest, c)
  {
    assert ([part] + rest)[1..] == rest;
  }

  lemma CutAt(s: string, i: nat)
    requires i < |s|
    ensures s == s[..i] + [s[i]] + s[i + 1..]
  {
  }

  /** Splitting keeps every other character where it was. */
  lemma {:induction false} JoinSplit(s: string, c: char)
    ensures Join(Split(s, c), c) == s
    decreases |s|
  {
    var i := IndexOf(s, c);
    if i < |s| {
      var rest := Split(s[i + 1..], c);
      assert Split(s, c) == [s[..i]] + rest;
      JoinSplit(s[i + 1..], c);
      JoinCons(s[..i], rest, c);
      CutAt(s, i);
    }
  }

  lemma {:induction false} JoinFree(parts: seq<string>, c: char, d: char)
    requires parts != [] && AllFree(parts, d) && c != d
    ensures Free(Join(parts, c), d)
  {
    if |parts| > 1 {
      JoinFree(parts[1..], c, d);
    }
  }

  /** Each part carries no character the whole did not. */
  lemma {:induction false} SplitKeepsFree(s: string, c: char, d: char)
    requires Free(s, d)
    ensures AllFree(Split(s, c), d)
    decreases |s|
  {
    var i := IndexOf(s, c);
    if i < |s| {
      SplitKeepsFree(s[i + 1..], c, d);
    }
  }

  // ----- Prefixes -----

  predicate HasPrefix(s: string, p: string) {
    |p| <= |s| && s[..|p|] == p
  }

  lemma PrefixUnder(head: string, s: string, p: string)
    ensures HasPrefix(head + s, head + p) <==> HasPrefix(s, p)
  {
    if |p| <= |s| {
      assert (head + s)[..|head + p|] == head + s[..|p|];
      assert s[..|p|] == (head + s[..|p|])[|head|..];
      assert p == (head + p)[|head|..];
    }
  }

  lemma SplitPrefix(s: string, p: string)
    requires HasPrefix(s, p)
    ensures s == p + s[|p|..]
  {
  }

  lemma SharedHead(p: string, x: string, q: string, y: string)
    requires p + x == q + y
    ensures HasPrefix(p, q) || HasPrefix(q, p)
    ensures p == q ==> x == y
  {
    assert p == (p + x)[..|p|] && q == (q + y)[..|q|];
    assert x == (p + x)[|p|..] && y == (q + y)[|q|..];
    assert |q| <= |p| ==> p[..|q|] == (p + x)[..|q|];
    assert |p| <= |q| ==> q[..|p|] == (q + y)[..|p|];
  }
}
