/**
 * The JavaScript string built-ins used by the storage layer and the rate limiter:
 * the `\s` character class, `s.replace(/\s+/g, '_')`, and `s.replace(pattern, '')`
 * with a string pattern (which replaces only the first occurrence).
 */
module Text {
  import opened Wrappers

  /** The characters matched by `\s` in a JavaScript regular expression. */
  const Whitespace: set<char> := {
    ' ', '\t', '\n', '\r', '\U{000B}', '\U{000C}', '\U{00A0}', '\U{1680}',
    '\U{2000}', '\U{2001}', '\U{2002}', '\U{2003}', '\U{2004}', '\U{2005}',
    '\U{2006}', '\U{2007}', '\U{2008}', '\U{2009}', '\U{200A}',
    '\U{2028}', '\U{2029}', '\U{202F}', '\U{205F}', '\U{3000}', '\U{FEFF}'
  }

  predicate IsSpace(c: char) {
    c in Whitespace
  }

  predicate NoSpace(s: string) {
    forall i :: 0 <= i < |s| ==> !IsSpace(s[i])
  }

  predicate AllSpace(s: string) {
    forall i :: 0 <= i < |s| ==> IsSpace(s[i])
  }

  /** The suffix of `s` that follows its leading run of whitespace. */
  function SkipSpaces(s: string): (r: string)
    ensures if s != [] && IsSpace(s[0]) then |r| < |s| else r == s
    ensures r == [] || !IsSpace(r[0])
  {
    if s != [] && IsSpace(s[0]) then SkipSpaces(s[1..]) else s
  }

  /** `s.replace(/\s+/g, '_')`: every maximal run of whitespace becomes a single underscore. */
  function CollapseSpaces(s: string): (r: string)
    ensures NoSpace(r)
    ensures |r| <= |s|
    decreases |s|
  {
    if s == [] then []
    else if IsSpace(s[0]) then "_" + CollapseSpaces(SkipSpaces(s))
    else [s[0]] + CollapseSpaces(s[1..])
  }

  /** A string without whitespace is left as it is. */
  lemma {:induction false} CollapseSpacesIdentity(s: string)
    requires NoSpace(s)
    ensures CollapseSpaces(s) == s
  {
    if s != [] {
      CollapseSpacesIdentity(s[1..]);
    }
  }

  /** Collapsing twice is collapsing once. */
  lemma CollapseSpacesIdempotent(s: string)
    ensures CollapseSpaces(CollapseSpaces(s)) == CollapseSpaces(s)
  {
    CollapseSpacesIdentity(CollapseSpaces(s));
  }

  /**
   * Collapsing distributes over a join that does not fall inside a whitespace run:
   * the left part is empty or ends in a non-space character.
   */
  lemma {:induction false} CollapseSpacesAppend(a: string, t: string)
    requires a == [] || !IsSpace(a[|a| - 1])
    ensures CollapseSpaces(a + t) == CollapseSpaces(a) + CollapseSpaces(t)
    decreases |a|
  {
    if a == [] {
      assert a + t == t;
    } else if IsSpace(a[0]) {
      var a' := SkipSpaces(a);
      SkipSpacesAppend(a, t);
      CollapseSpacesAppend(a', t);
      LeadingRunStep(a, t);
      Reassociate("_", CollapseSpaces(a'), CollapseSpaces(t));
    } else {
      CollapseSpacesAppend(a[1..], t);
      NonSpaceStep(a, t);
      Reassociate([a[0]], CollapseSpaces(a[1..]), CollapseSpaces(t));
    }
  }

  lemma Reassociate(x: string, y: string, z: string)
    ensures x + (y + z) == (x + y) + z
  {
  }

  /**
   * The run characterisation: a non-empty whitespace run between a part that does not end in
   * whitespace and a part that does not start with it becomes exactly one underscore.
   */
  lemma CollapseSpacesRun(a: string, w: string, b: string)
    requires a == [] || !IsSpace(a[|a| - 1])
    requires w != [] && AllSpace(w)
    requires b == [] || !IsSpace(b[0])
    ensures CollapseSpaces(a + (w + b)) == CollapseSpaces(a) + ("_" + CollapseSpaces(b))
  {
    var u := w + b;
    CollapseSpacesAppend(a, u);
    assert IsSpace(u[0]);
    SkipRun(w, b);
    assert CollapseSpaces(u) == "_" + CollapseSpaces(b);
  }

  lemma LeadingRunStep(a: string, u: string)
    requires a != [] && IsSpace(a[0])
    ensures CollapseSpaces(a + u) == "_" + CollapseSpaces(SkipSpaces(a + u))
  {
    assert (a + u)[0] == a[0];
  }

  lemma NonSpaceStep(a: string, u: string)
    requires a != [] && !IsSpace(a[0])
    ensures CollapseSpaces(a + u) == [a[0]] + CollapseSpaces(a[1..] + u)
  {
    assert (a + u)[0] == a[0];
    assert (a + u)[1..] == a[1..] + u;
  }

  /** The leading run of `a + t` lies inside `a` when `a` ends in a non-space character. */
  lemma {:induction false} SkipSpacesAppend(a: string, t: string)
    requires a != [] && !IsSpace(a[|a| - 1])
    ensures SkipSpaces(a) != [] && SkipSpaces(a)[|SkipSpaces(a)| - 1] == a[|a| - 1]
    ensures SkipSpaces(a + t) == SkipSpaces(a) + t
  {
    if IsSpace(a[0]) {
      assert (a + t)[1..] == a[1..] + t;
      SkipSpacesAppend(a[1..], t);
    }
  }

  lemma {:induction false} SkipRun(w: string, b: string)
    requires AllSpace(w)
    requires b == [] || !IsSpace(b[0])
    ensures SkipSpaces(w + b) == b
  {
    if w != [] {
      assert (w + b)[1..] == w[1..] + b;
      SkipRun(w[1..], b);
    }
  }

  predicate StartsWith(s: string, prefix: string) {
    |prefix| <= |s| && s[..|prefix|] == prefix
  }

  predicate OccursAt(s: string, pat: string, i: nat) {
    i + |pat| <= |s| && s[i..i + |pat|] == pat
  }

  /** `s.indexOf(pat)`, searching from position `from`: the first occurrence at or after it. */
  function IndexFrom(s: string, pat: string, from: nat): (r: Option<nat>)
    requires from <= |s|
    ensures r.Some? ==> from <= r.value && OccursAt(s, pat, r.value)
    ensures r.Some? ==> forall j: nat :: from <= j < r.value ==> !OccursAt(s, pat, j)
    ensures r.None? ==> forall j: nat :: from <= j ==> !OccursAt(s, pat, j)
    decreases |s| - from
  {
    if OccursAt(s, pat, from) then Some(from)
    else if from == |s| then None
    else IndexFrom(s, pat, from + 1)
  }

  function IndexOf(s: string, pat: string): (r: Option<nat>)
    ensures r.Some? ==> OccursAt(s, pat, r.value) && forall j: nat :: j < r.value ==> !OccursAt(s, pat, j)
    ensures r.None? ==> forall j: nat :: !OccursAt(s, pat, j)
  {
    IndexFrom(s, pat, 0)
  }

  /** `s.replace(pat, '')` with a string pattern: only the first occurrence is removed. */
  function RemoveFirst(s: string, pat: string): (r: string)
    ensures IndexOf(s, pat).None? ==> r == s
    ensures IndexOf(s, pat).Some? ==>
      var i := IndexOf(s, pat).value; |r| == |s| - |pat| && r[..i] + pat + r[i..] == s
  {
    match IndexOf(s, pat)
    case None => s
    case Some(i) =>
      var r := s[..i] + s[i + |pat|..];
      assert r[..i] == s[..i] && r[i..] == s[i + |pat|..];
      assert s == s[..i] + s[i..i + |pat|] + s[i + |pat|..];
      r
  }
}
