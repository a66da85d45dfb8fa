/**
 * The JavaScript string built-ins the core relies on: `toLowerCase`,
 * `includes`, `endsWith`, `trim`, the `/\s+/g` whitespace class and the
 * relational `<` on strings.
 */
module JsString {

  /** ECMAScript WhiteSpace and LineTerminator: what `trim` removes and `\s` matches. */
  predicate IsSpace(c: char) {
    c == '\t' || c == '\n' || c == '\U{000B}' || c == '\U{000C}' || c == '\r' || c == ' '
    || c == '\U{00A0}' || c == '\U{1680}' || ('\U{2000}' <= c <= '\U{200A}')
    || c == '\U{2028}' || c == '\U{2029}' || c == '\U{202F}' || c == '\U{205F}'
    || c == '\U{3000}' || c == '\U{FEFF}'
  }

  /** The characters of `s` that are not whitespace, in order. */
  function NonSpace(s: string): string {
    if s == [] then [] else (if IsSpace(s[0]) then [] else [s[0]]) + NonSpace(s[1..])
  }

  lemma {:induction false} NonSpaceConcat(a: string, b: string)
    ensures NonSpace(a + b) == NonSpace(a) + NonSpace(b)
  {
    if a != [] {
      assert (a + b)[0] == a[0] && (a + b)[1..] == a[1..] + b;
      NonSpaceConcat(a[1..], b);
    } else {
      assert a + b == b;
    }
  }

  /** The length of the run of whitespace that `s` starts with. */
  function LeadingSpaces(s: string): (n: nat)
    ensures n <= |s|
    ensures forall i :: 0 <= i < n ==> IsSpace(s[i])
    ensures n == |s| || !IsSpace(s[n])
  {
    if s == [] || !IsSpace(s[0]) then 0 else 1 + LeadingSpaces(s[1..])
  }

  /** Dropping a prefix made only of whitespace keeps the other characters. */
  lemma {:induction false} NonSpaceDropSpaces(s: string, n: nat)
    requires n <= |s|
    requires forall i :: 0 <= i < n ==> IsSpace(s[i])
    ensures NonSpace(s[n..]) == NonSpace(s)
  {
    if n > 0 {
      assert s[1..][n - 1..] == s[n..];
      NonSpaceDropSpaces(s[1..], n - 1);
    }
  }

  /** `s` without its leading whitespace (the first half of `trim`). */
  function TrimStart(s: string): (r: string)
    ensures |r| <= |s| && r == s[|s| - |r|..]
    ensures forall i :: 0 <= i < |s| - |r| ==> IsSpace(s[i])
    ensures r == [] || !IsSpace(r[0])
    ensures s != [] && IsSpace(s[0]) ==> |r| < |s|
    ensures NonSpace(r) == NonSpace(s)
  {
    var n := LeadingSpaces(s);
    NonSpaceDropSpaces(s, n);
    s[n..]
  }

  /** `s` without its trailing whitespace (the second half of `trim`). */
  function TrimEnd(s: string): (r: string)
    ensures |r| <= |s| && r == s[..|r|]
    ensures r == [] || !IsSpace(r[|r| - 1])
    ensures NonSpace(r) == NonSpace(s)
  {
    if s == [] || !IsSpace(s[|s| - 1]) then s
    else
      var r := TrimEnd(s[..|s| - 1]);
      assert s == s[..|s| - 1] + [s[|s| - 1]];
      NonSpaceConcat(s[..|s| - 1], [s[|s| - 1]]);
      r
  }

  /** `String.prototype.trim`. */
  function Trim(s: string): (r: string)
    ensures r == [] || (!IsSpace(r[0]) && !IsSpace(r[|r| - 1]))
    ensures NonSpace(r) == NonSpace(s)
  {
    TrimEnd(TrimStart(s))
  }

  /** No two whitespace characters stand next to each other in `s`. */
  predicate NoSpaceRuns(s: string) {
    forall i :: 0 <= i < |s| - 1 ==> !(IsSpace(s[i]) && IsSpace(s[i + 1]))
  }

  /** The only whitespace character in `s` is the plain space. */
  predicate OnlyPlainSpaces(s: string) {
    forall i :: 0 <= i < |s| && IsSpace(s[i]) ==> s[i] == ' '
  }

  /** `s.replace(/\s+/g, ' ')`: every maximal run of whitespace becomes one space. */
  function CollapseSpaces(s: string): (r: string)
    ensures s == [] <==> r == []
    ensures s != [] && !IsSpace(s[0]) ==> !IsSpace(r[0])
    ensures s != [] && !IsSpace(s[|s| - 1]) ==> !IsSpace(r[|r| - 1])
    ensures NoSpaceRuns(r) && OnlyPlainSpaces(r)
    ensures NonSpace(r) == NonSpace(s)
    decreases |s|
  {
    if s == [] then []
    else if IsSpace(s[0]) then
      var rest := TrimStart(s);
      var tail := CollapseSpaces(rest);
      CollapseSpacesPrepend(' ', tail);
      NonSpaceConcat(" ", tail);
      " " + tail
    else
      var tail := CollapseSpaces(s[1..]);
      CollapseSpacesPrepend(s[0], tail);
      assert s == [s[0]] + s[1..];
      NonSpaceConcat([s[0]], s[1..]);
      NonSpaceConcat([s[0]], tail);
      [s[0]] + tail
  }

  /** Prepending `c` keeps the two run properties when `c` is a space before a non-space or not a space. */
  lemma CollapseSpacesPrepend(c: char, tail: string)
    requires NoSpaceRuns(tail) && OnlyPlainSpaces(tail)
    requires c == ' ' || !IsSpace(c)
    requires IsSpace(c) && tail != [] ==> !IsSpace(tail[0])
    ensures NoSpaceRuns([c] + tail) && OnlyPlainSpaces([c] + tail)
  {
    var r := [c] + tail;
    forall i | 0 <= i < |r| - 1
      ensures !(IsSpace(r[i]) && IsSpace(r[i + 1]))
    {
      if i > 0 { assert r[i] == tail[i - 1] && r[i + 1] == tail[i]; }
    }
    forall i | 0 <= i < |r| && IsSpace(r[i])
      ensures r[i] == ' '
    {
      if i > 0 { assert r[i] == tail[i - 1]; }
    }
  }

  /** A string without whitespace is left as it is. */
  lemma {:induction false} CollapseSpacesNoSpace(s: string)
    requires forall i :: 0 <= i < |s| ==> !IsSpace(s[i])
    ensures CollapseSpaces(s) == s
    decreases |s|
  {
    if s != [] {
      assert forall i :: 0 <= i < |s| - 1 ==> s[1..][i] == s[i + 1];
      CollapseSpacesNoSpace(s[1..]);
      assert s == [s[0]] + s[1..];
    }
  }

  /** A leading run of whitespace before a non-space is exactly the leading spaces. */
  lemma {:induction false} LeadingSpacesOfRun(w: string, q: string)
    requires forall i :: 0 <= i < |w| ==> IsSpace(w[i])
    requires q == [] || !IsSpace(q[0])
    ensures LeadingSpaces(w + q) == |w|
    decreases |w|
  {
    if w == [] {
      assert w + q == q;
    } else {
      assert (w + q)[1..] == w[1..] + q;
      LeadingSpacesOfRun(w[1..], q);
    }
  }

  /** Appending to a string that holds a non-space does not change its leading spaces. */
  lemma {:induction false} LeadingSpacesConcat(a: string, b: string)
    requires LeadingSpaces(a) < |a|
    ensures LeadingSpaces(a + b) == LeadingSpaces(a)
    decreases |a|
  {
    assert (a + b)[0] == a[0];
    if IsSpace(a[0]) {
      assert (a + b)[1..] == a[1..] + b;
      LeadingSpacesConcat(a[1..], b);
    }
  }

  /** A string that starts with a whitespace run collapses to one space before the rest. */
  lemma CollapseSpacesLeadingRun(w: string, q: string)
    requires w != [] && forall i :: 0 <= i < |w| ==> IsSpace(w[i])
    requires q == [] || !IsSpace(q[0])
    ensures CollapseSpaces(w + q) == " " + CollapseSpaces(q)
  {
    var s := w + q;
    assert IsSpace(s[0]);
    LeadingSpacesOfRun(w, q);
    assert s[|w|..] == q;
  }

  /** Collapsing a string that starts with whitespace and holds a non-space, with anything appended. */
  lemma CollapseSpacesSkipRun(p: string, x: string)
    requires p != [] && IsSpace(p[0]) && LeadingSpaces(p) < |p|
    ensures CollapseSpaces(p + x) == " " + CollapseSpaces(p[LeadingSpaces(p)..] + x)
    ensures CollapseSpaces(p) == " " + CollapseSpaces(p[LeadingSpaces(p)..])
  {
    var n := LeadingSpaces(p);
    LeadingSpacesConcat(p, x);
    assert (p + x)[0] == p[0];
    assert (p + x)[n..] == p[n..] + x;
  }

  /**
   * A maximal run of whitespace between two parts becomes exactly one space,
   * and each part is collapsed on its own.
   */
  lemma {:induction false} CollapseSpacesRun(p: string, w: string, q: string)
    requires p == [] || !IsSpace(p[|p| - 1])
    requires w != [] && forall i :: 0 <= i < |w| ==> IsSpace(w[i])
    requires q == [] || !IsSpace(q[0])
    ensures CollapseSpaces(p + w + q) == CollapseSpaces(p) + " " + CollapseSpaces(q)
    decreases |p|, 1
  {
    if p == [] {
      assert p + w + q == w + q;
      CollapseSpacesLeadingRun(w, q);
    } else if IsSpace(p[0]) {
      CollapseSpacesRunAfterSpace(p, w, q);
    } else {
      CollapseSpacesRunAfterChar(p, w, q);
    }
  }

  /** `CollapseSpacesRun` when the first part starts with whitespace. */
  lemma {:induction false} CollapseSpacesRunAfterSpace(p: string, w: string, q: string)
    requires p != [] && IsSpace(p[0]) && !IsSpace(p[|p| - 1])
    requires w != [] && forall i :: 0 <= i < |w| ==> IsSpace(w[i])
    requires q == [] || !IsSpace(q[0])
    ensures CollapseSpaces(p + w + q) == CollapseSpaces(p) + " " + CollapseSpaces(q)
    decreases |p|, 0
  {
    var n := LeadingSpaces(p);
    assert n < |p|;
    var rest := p[n..];
    assert p + w + q == p + (w + q) && rest + (w + q) == rest + w + q;
    CollapseSpacesSkipRun(p, w + q);
    CollapseSpacesRun(rest, w, q);
    JoinAssoc(" ", CollapseSpaces(rest), CollapseSpaces(q));
  }

  /** `CollapseSpacesRun` when the first part starts with a non-space. */
  lemma {:induction false} CollapseSpacesRunAfterChar(p: string, w: string, q: string)
    requires p != [] && !IsSpace(p[0]) && !IsSpace(p[|p| - 1])
    requires w != [] && forall i :: 0 <= i < |w| ==> IsSpace(w[i])
    requires q == [] || !IsSpace(q[0])
    ensures CollapseSpaces(p + w + q) == CollapseSpaces(p) + " " + CollapseSpaces(q)
    decreases |p|, 0
  {
    var tail := p[1..];
    assert p == [p[0]] + tail;
    assert p + w + q == [p[0]] + (tail + w + q);
    CollapseSpacesCons(p[0], tail + w + q);
    CollapseSpacesCons(p[0], tail);
    CollapseSpacesRun(tail, w, q);
    JoinAssoc([p[0]], CollapseSpaces(tail), CollapseSpaces(q));
  }

  /** Regrouping a join around one space. */
  lemma JoinAssoc(a: string, b: string, c: string)
    ensures a + (b + " " + c) == (a + b) + " " + c
  {
  }

  /** A non-space character in front is kept and the rest is collapsed. */
  lemma CollapseSpacesCons(c: char, x: string)
    requires !IsSpace(c)
    ensures CollapseSpaces([c] + x) == [c] + CollapseSpaces(x)
  {
    assert ([c] + x)[0] == c && ([c] + x)[1..] == x;
  }

  /**
   * The lower-case form of one character: ASCII A-Z and the unaccented Greek
   * capitals U+0391-U+03A9; capital sigma always becomes medial sigma.
   */
  function LowerChar(c: char): (d: char)
  {
    if 'A' <= c <= 'Z' then (c as int + 32) as char
    else if '\U{0391}' <= c <= '\U{03A9}' && c != '\U{03A2}' then (c as int + 32) as char
    else c
  }

  /** `String.prototype.toLowerCase`, restricted to the letters `LowerChar` maps. */
  function ToLower(s: string): (r: string)
    ensures |r| == |s|
    ensures forall i :: 0 <= i < |s| ==> r[i] == LowerChar(s[i])
  {
    if s == [] then [] else [LowerChar(s[0])] + ToLower(s[1..])
  }

  /** Lower-casing twice is lower-casing once. */
  lemma ToLowerIdempotent(s: string)
    ensures ToLower(ToLower(s)) == ToLower(s)
  {
  }

  /** `s.startsWith(t)`. */
  predicate StartsWith(s: string, t: string) {
    |t| <= |s| && s[..|t|] == t
  }

  /** `s.endsWith(t)`. */
  predicate EndsWith(s: string, t: string) {
    |t| <= |s| && s[|s| - |t|..] == t
  }

  /** `t` occurs in `s` starting at index `i`. */
  predicate OccursAt(s: string, t: string, i: int) {
    0 <= i <= |s| - |t| && s[i..i + |t|] == t
  }

  /** `s.includes(t)`: `t` occurs in `s` at some position. */
  predicate Includes(s: string, t: string)
    decreases |s|
  {
    StartsWith(s, t) || (s != [] && Includes(s[1..], t))
  }

  /** `Includes` finds exactly the occurrences of `t` in `s`. */
  lemma {:induction false} IncludesIff(s: string, t: string)
    ensures Includes(s, t) <==> exists i :: OccursAt(s, t, i)
    decreases |s|
  {
    if StartsWith(s, t) {
      assert OccursAt(s, t, 0);
    } else if s == [] {
    } else {
      IncludesIff(s[1..], t);
      if Includes(s[1..], t) {
        var i :| OccursAt(s[1..], t, i);
        assert s[i + 1..i + 1 + |t|] == s[1..][i..i + |t|];
        assert OccursAt(s, t, i + 1);
      }
      if exists i :: OccursAt(s, t, i) {
        var i :| OccursAt(s, t, i);
        assert i != 0;
        assert s[1..][i - 1..i - 1 + |t|] == s[i..i + |t|];
        assert OccursAt(s[1..], t, i - 1);
      }
    }
  }

  /** Any string containing `t` as an infix includes it. */
  lemma {:induction false} IncludesInfix(p: string, t: string, q: string)
    ensures Includes(p + t + q, t)
    decreases |p|
  {
    if p == [] {
      assert p + t + q == t + q;
      assert (t + q)[..|t|] == t;
    } else {
      assert (p + t + q)[1..] == p[1..] + t + q;
      IncludesInfix(p[1..], t, q);
    }
  }

  /** JavaScript's `a < b` on strings: lexicographic by character code. */
  predicate LexLess(a: string, b: string)
    decreases |a|
  {
    if b == [] then false
    else if a == [] then true
    else if a[0] != b[0] then a[0] < b[0]
    else LexLess(a[1..], b[1..])
  }

  lemma {:induction false} LexLessIrreflexive(a: string)
    ensures !LexLess(a, a)
    decreases |a|
  {
    if a != [] { LexLessIrreflexive(a[1..]); }
  }

  lemma {:induction false} LexLessTransitive(a: string, b: string, c: string)
    requires LexLess(a, b) && LexLess(b, c)
    ensures LexLess(a, c)
    decreases |a|
  {
    if a != [] && a[0] == b[0] && b[0] == c[0] {
      LexLessTransitive(a[1..], b[1..], c[1..]);
    }
  }

  lemma {:induction false} LexLessTotal(a: string, b: string)
    ensures a == b || LexLess(a, b) || LexLess(b, a)
    decreases |a|
  {
    if a != [] && b != [] && a[0] == b[0] {
      LexLessTotal(a[1..], b[1..]);
      if a[1..] == b[1..] {
        assert a == [a[0]] + a[1..] && b == [b[0]] + b[1..];
      }
    }
  }
}
