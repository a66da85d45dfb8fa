/**
 * The JavaScript array built-ins the core relies on: `Array.prototype.filter`,
 * `map`, `some` and `sort` with a three-way comparator. Since ECMAScript 2019
 * `sort` is stable; it is specified here by a stable insertion sort on
 * sequences (`SortBy`) and implemented in place on an array (`SortInPlace`).
 */
module JsArray {
  import opened JsString

  /** `array.filter(p)`: the elements of `s` satisfying `p`, in order. */
  function Filter<T>(s: seq<T>, p: T -> bool): (r: seq<T>)
    ensures |r| <= |s|
    ensures forall i :: 0 <= i < |r| ==> r[i] in s && p(r[i])
    ensures forall i :: 0 <= i < |s| && p(s[i]) ==> s[i] in r
  {
    if s == [] then [] else (if p(s[0]) then [s[0]] else []) + Filter(s[1..], p)
  }

  /** Filtering `s + [x]` filters `s` and then keeps or drops `x`. */
  lemma {:induction false} FilterSnoc<T>(s: seq<T>, x: T, p: T -> bool)
    ensures Filter(s + [x], p) == Filter(s, p) + (if p(x) then [x] else [])
    decreases |s|
  {
    if s == [] {
      assert [x][1..] == [];
    } else {
      assert (s + [x])[1..] == s[1..] + [x];
      FilterSnoc(s[1..], x, p);
    }
  }

  /** `array.some(p)`: whether some element satisfies `p`. */
  function Any<T>(s: seq<T>, p: T -> bool): (b: bool)
    ensures b <==> exists i :: 0 <= i < |s| && p(s[i])
  {
    if s == [] then false
    else if p(s[0]) then true
    else
      var b := Any(s[1..], p);
      assert forall i :: 1 <= i < |s| ==> s[i] == s[1..][i - 1];
      b
  }

  /** `array.map(f)`: `f` applied to every element, in order. */
  function Map<T, U>(s: seq<T>, f: T -> U): (r: seq<U>)
    ensures |r| == |s|
    ensures forall i :: 0 <= i < |s| ==> r[i] == f(s[i])
  {
    if s == [] then [] else Map(s[..|s| - 1], f) + [f(s[|s| - 1])]
  }

  lemma MapSnoc<T, U>(s: seq<T>, x: T, f: T -> U)
    ensures Map(s + [x], f) == Map(s, f) + [f(x)]
  {
    assert (s + [x])[..|s|] == s;
  }

  /** An element of a filtered-then-mapped sequence is the image of an element that passes the filter. */
  lemma MapFilterMembership<T, U>(s: seq<T>, p: T -> bool, f: T -> U, y: U)
    ensures y in Map(Filter(s, p), f) <==> exists i :: 0 <= i < |s| && p(s[i]) && f(s[i]) == y
  {
    var kept := Filter(s, p);
    if y in Map(kept, f) {
      var j :| 0 <= j < |kept| && Map(kept, f)[j] == y;
      var i :| 0 <= i < |s| && s[i] == kept[j];
      assert p(s[i]) && f(s[i]) == y;
    }
    if exists i :: 0 <= i < |s| && p(s[i]) && f(s[i]) == y {
      var i :| 0 <= i < |s| && p(s[i]) && f(s[i]) == y;
      var j :| 0 <= j < |kept| && kept[j] == s[i];
      assert Map(kept, f)[j] == y;
    }
  }

  datatype Direction = Asc | Desc

  /**
   * A comparator key: a number or a (lower-cased) string. One sort draws all
   * its keys from one of the two kinds; numbers are put before strings only so
   * that `ValueLess` is a total order.
   */
  datatype SortValue = Num(number: real) | Text(text: string)

  /** JavaScript's `<` on two keys of the same kind. */
  predicate ValueLess(a: SortValue, b: SortValue) {
    match (a, b)
    case (Num(x), Num(y)) => x < y
    case (Text(x), Text(y)) => LexLess(x, y)
    case (Num(_), Text(_)) => true
    case (Text(_), Num(_)) => false
  }

  /** The comparator returns a negative number: `a` goes strictly before `b`. */
  predicate Before(dir: Direction, a: SortValue, b: SortValue) {
    if dir == Asc then ValueLess(a, b) else ValueLess(b, a)
  }

  lemma BeforeIrreflexive(dir: Direction, a: SortValue)
    ensures !Before(dir, a, a)
  {
    if a.Text? { LexLessIrreflexive(a.text); }
  }

  lemma BeforeTransitive(dir: Direction, a: SortValue, b: SortValue, c: SortValue)
    requires Before(dir, a, b) && Before(dir, b, c)
    ensures Before(dir, a, c)
  {
    if a.Text? && b.Text? && c.Text? {
      if dir == Asc { LexLessTransitive(a.text, b.text, c.text); }
      else { LexLessTransitive(c.text, b.text, a.text); }
    }
  }

  lemma BeforeTotal(dir: Direction, a: SortValue, b: SortValue)
    ensures a == b || Before(dir, a, b) || Before(dir, b, a)
  {
    if a.Text? && b.Text? { LexLessTotal(a.text, b.text); }
  }

  /** "Not strictly after" is transitive. */
  lemma NotBeforeTransitive(dir: Direction, a: SortValue, b: SortValue, c: SortValue)
    requires !Before(dir, b, a) && !Before(dir, c, b)
    ensures !Before(dir, c, a)
  {
    BeforeTotal(dir, a, b);
    BeforeTotal(dir, b, c);
    if Before(dir, c, a) {
      if a == b {
      } else if b == c {
      } else {
        BeforeTransitive(dir, c, a, b);
      }
    }
  }

  /** No element of `s` is strictly before an earlier one. */
  ghost predicate SortedBy<T>(s: seq<T>, key: T -> SortValue, dir: Direction) {
    forall i, j :: 0 <= i < j < |s| ==> !Before(dir, key(s[j]), key(s[i]))
  }

  /**
   * `s` with `x` inserted after every element it is not strictly before: the
   * step of a stable insertion sort.
   */
  function Insert<T>(s: seq<T>, x: T, key: T -> SortValue, dir: Direction): (r: seq<T>)
    ensures |r| == |s| + 1
  {
    if s == [] then [x]
    else if Before(dir, key(x), key(s[|s| - 1])) then
      var r := Insert(s[..|s| - 1], x, key, dir) + [s[|s| - 1]];
      assert s == s[..|s| - 1] + [s[|s| - 1]];
      r
    else s + [x]
  }

  /** The stable sort of `s` by `key` in direction `dir`. */
  function SortBy<T>(s: seq<T>, key: T -> SortValue, dir: Direction): (r: seq<T>)
    ensures |r| == |s|
  {
    if s == [] then []
    else
      var r := Insert(SortBy(s[..|s| - 1], key, dir), s[|s| - 1], key, dir);
      assert s == s[..|s| - 1] + [s[|s| - 1]];
      r
  }

  /** Insertion adds exactly `x`. */
  lemma {:induction false} InsertPermutes<T>(s: seq<T>, x: T, key: T -> SortValue, dir: Direction)
    ensures multiset(Insert(s, x, key, dir)) == multiset(s) + multiset{x}
    decreases |s|
  {
    if s != [] && Before(dir, key(x), key(s[|s| - 1])) {
      InsertPermutes(s[..|s| - 1], x, key, dir);
      assert s == s[..|s| - 1] + [s[|s| - 1]];
    }
  }

  /** The sort returns a permutation of its input. */
  lemma {:induction false} SortByPermutes<T>(s: seq<T>, key: T -> SortValue, dir: Direction)
    ensures multiset(SortBy(s, key, dir)) == multiset(s)
    decreases |s|
  {
    if s != [] {
      SortByPermutes(s[..|s| - 1], key, dir);
      InsertPermutes(SortBy(s[..|s| - 1], key, dir), s[|s| - 1], key, dir);
      assert s == s[..|s| - 1] + [s[|s| - 1]];
    }
  }

  lemma SortBySnoc<T>(s: seq<T>, x: T, key: T -> SortValue, dir: Direction)
    ensures SortBy(s + [x], key, dir) == Insert(SortBy(s, key, dir), x, key, dir)
  {
    assert (s + [x])[..|s|] == s;
  }

  /** The elements of `s` whose key is `v`, in order. */
  function Select<T>(s: seq<T>, key: T -> SortValue, v: SortValue): (r: seq<T>)
    ensures |r| <= |s|
  {
    if s == [] then []
    else Select(s[..|s| - 1], key, v) + (if key(s[|s| - 1]) == v then [s[|s| - 1]] else [])
  }

  lemma {:induction false} SelectConcat<T>(a: seq<T>, b: seq<T>, key: T -> SortValue, v: SortValue)
    ensures Select(a + b, key, v) == Select(a, key, v) + Select(b, key, v)
    decreases |b|
  {
    if b == [] {
      assert a + b == a;
    } else {
      var b' := b[..|b| - 1];
      assert (a + b)[..|a + b| - 1] == a + b';
      SelectConcat(a, b', key, v);
    }
  }

  lemma {:induction false} InsertSorted<T>(s: seq<T>, x: T, key: T -> SortValue, dir: Direction)
    requires SortedBy(s, key, dir)
    ensures SortedBy(Insert(s, x, key, dir), key, dir)
    decreases |s|
  {
    if s == [] {
    } else {
      var last := s[|s| - 1];
      var init := s[..|s| - 1];
      if Before(dir, key(x), key(last)) {
        InsertSorted(init, x, key, dir);
        InsertPermutes(init, x, key, dir);
        var ins := Insert(init, x, key, dir);
        var r := ins + [last];
        forall i, j | 0 <= i < j < |r|
          ensures !Before(dir, key(r[j]), key(r[i]))
        {
          if j == |r| - 1 {
            assert r[i] in multiset(ins);
            assert r[i] in multiset(init) + multiset{x};
            if r[i] == x {
              BeforeIrreflexive(dir, key(x));
              if Before(dir, key(last), key(x)) {
                BeforeTransitive(dir, key(x), key(last), key(x));
              }
            } else {
              assert r[i] in init;
              var m :| 0 <= m < |init| && init[m] == r[i];
              assert s[m] == r[i] && s[|s| - 1] == last;
            }
          } else {
            assert r[i] == ins[i] && r[j] == ins[j];
          }
        }
      } else {
        var r := s + [x];
        forall i, j | 0 <= i < j < |r|
          ensures !Before(dir, key(r[j]), key(r[i]))
        {
          if j == |s| && i < |s| - 1 {
            NotBeforeTransitive(dir, key(s[i]), key(last), key(x));
          }
        }
      }
    }
  }

  /** The sort returns its input in order. */
  lemma {:induction false} SortBySorted<T>(s: seq<T>, key: T -> SortValue, dir: Direction)
    ensures SortedBy(SortBy(s, key, dir), key, dir)
    decreases |s|
  {
    if s != [] {
      SortBySorted(s[..|s| - 1], key, dir);
      InsertSorted(SortBy(s[..|s| - 1], key, dir), s[|s| - 1], key, dir);
    }
  }

  /** Selecting from `t + [y]` adds `y` when its key is `v`. */
  lemma SelectSnoc<T>(t: seq<T>, y: T, key: T -> SortValue, v: SortValue)
    ensures Select(t + [y], key, v) == Select(t, key, v) + (if key(y) == v then [y] else [])
  {
    assert (t + [y])[..|t + [y]| - 1] == t;
  }

  /** Insertion moves `x` only past elements with a different key. */
  lemma {:induction false} InsertStable<T>(s: seq<T>, x: T, key: T -> SortValue, dir: Direction, v: SortValue)
    ensures Select(Insert(s, x, key, dir), key, v) == Select(s + [x], key, v)
    decreases |s|
  {
    if s != [] {
      var last := s[|s| - 1];
      var init := s[..|s| - 1];
      if Before(dir, key(x), key(last)) {
        BeforeIrreflexive(dir, key(x));
        var pickX := if key(x) == v then [x] else [];
        var pickLast := if key(last) == v then [last] else [];
        assert pickX == [] || pickLast == [];
        calc {
          Select(Insert(s, x, key, dir), key, v);
          Select(Insert(init, x, key, dir) + [last], key, v);
          { SelectSnoc(Insert(init, x, key, dir), last, key, v); }
          Select(Insert(init, x, key, dir), key, v) + pickLast;
          { InsertStable(init, x, key, dir, v); }
          Select(init + [x], key, v) + pickLast;
          { SelectSnoc(init, x, key, v); }
          Select(init, key, v) + pickX + pickLast;
          Select(init, key, v) + pickLast + pickX;
          { SelectSnoc(init, last, key, v); assert init + [last] == s; }
          Select(s, key, v) + pickX;
          { SelectSnoc(s, x, key, v); }
          Select(s + [x], key, v);
        }
      }
    }
  }

  /** Elements with equal keys keep their relative order: the sort is stable. */
  lemma {:induction false} SortByStable<T>(s: seq<T>, key: T -> SortValue, dir: Direction, v: SortValue)
    ensures Select(SortBy(s, key, dir), key, v) == Select(s, key, v)
    decreases |s|
  {
    if s != [] {
      var init := s[..|s| - 1];
      SortByStable(init, key, dir, v);
      InsertStable(SortBy(init, key, dir), s[|s| - 1], key, dir, v);
      SelectConcat(SortBy(init, key, dir), [s[|s| - 1]], key, v);
      SelectConcat(init, [s[|s| - 1]], key, v);
      assert s == init + [s[|s| - 1]];
    }
  }

  /** Sorting a sequence that is already in order changes nothing. */
  lemma {:induction false} SortBySortedIsIdentity<T>(s: seq<T>, key: T -> SortValue, dir: Direction)
    requires SortedBy(s, key, dir)
    ensures SortBy(s, key, dir) == s
    decreases |s|
  {
    if s != [] {
      var init := s[..|s| - 1];
      assert SortedBy(init, key, dir);
      SortBySortedIsIdentity(init, key, dir);
      assert s == init + [s[|s| - 1]];
      if init != [] {
        assert init[|init| - 1] == s[|s| - 2];
      }
    }
  }

  /**
   * Two sequences in order with the same elements for every key, in the same
   * order, are equal: order plus stability fixes the result.
   */
  lemma {:induction false} SortedStableUnique<T>(t: seq<T>, u: seq<T>, key: T -> SortValue, dir: Direction)
    requires SortedBy(t, key, dir) && SortedBy(u, key, dir)
    requires multiset(t) == multiset(u)
    requires forall v :: Select(t, key, v) == Select(u, key, v)
    ensures t == u
    decreases |t|
  {
    assert |t| == |u| by {
      assert |t| == |multiset(t)| && |u| == |multiset(u)|;
    }
    if t != [] {
      var n := |t|;
      LastKeysEqual(t, u, key, dir);
      SameLast(t, u, key);
      var t', u' := t[..n - 1], u[..n - 1];
      assert t == t' + [t[n - 1]] && u == u' + [t[n - 1]];
      DropLastAgrees(t', u', t[n - 1], key);
      SortedPrefix(t, key, dir);
      SortedPrefix(u, key, dir);
      SortedStableUnique(t', u', key, dir);
    }
  }

  /** Two permutations of each other that are both in order end with elements of equal key. */
  lemma LastKeysEqual<T>(t: seq<T>, u: seq<T>, key: T -> SortValue, dir: Direction)
    requires t != [] && |t| == |u|
    requires SortedBy(t, key, dir) && SortedBy(u, key, dir)
    requires multiset(t) == multiset(u)
    ensures key(t[|t| - 1]) == key(u[|u| - 1])
  {
    var a, b := t[|t| - 1], u[|u| - 1];
    assert b in multiset(t) && a in multiset(u);
    LastIsMaximal(t, b, key, dir);
    LastIsMaximal(u, a, key, dir);
    BeforeTotal(dir, key(a), key(b));
  }

  /** With equal last keys and equal subsequences for that key, the last elements agree. */
  lemma SameLast<T>(t: seq<T>, u: seq<T>, key: T -> SortValue)
    requires t != [] && u != [] && key(t[|t| - 1]) == key(u[|u| - 1])
    requires Select(t, key, key(t[|t| - 1])) == Select(u, key, key(t[|t| - 1]))
    ensures t[|t| - 1] == u[|u| - 1]
  {
    var a, b := t[|t| - 1], u[|u| - 1];
    var x, y := Select(t[..|t| - 1], key, key(a)), Select(u[..|u| - 1], key, key(a));
    assert Select(t, key, key(a)) == x + [a];
    assert Select(u, key, key(a)) == y + [b];
    SnocInjective(x, a, y, b);
  }

  /** Removing the same last element keeps two sequences permutations with equal key subsequences. */
  lemma DropLastAgrees<T>(t: seq<T>, u: seq<T>, a: T, key: T -> SortValue)
    requires multiset(t + [a]) == multiset(u + [a])
    requires forall v :: Select(t + [a], key, v) == Select(u + [a], key, v)
    ensures multiset(t) == multiset(u)
    ensures forall v :: Select(t, key, v) == Select(u, key, v)
  {
    assert multiset(t) == multiset(t + [a]) - multiset{a};
    assert multiset(u) == multiset(u + [a]) - multiset{a};
    forall w
      ensures Select(t, key, w) == Select(u, key, w)
    {
      SelectDropLastAt(t, u, a, key, w);
    }
  }

  lemma SelectDropLastAt<T>(t: seq<T>, u: seq<T>, a: T, key: T -> SortValue, w: SortValue)
    requires Select(t + [a], key, w) == Select(u + [a], key, w)
    ensures Select(t, key, w) == Select(u, key, w)
  {
    var x, y := Select(t, key, w), Select(u, key, w);
    SelectSnoc(t, a, key, w);
    SelectSnoc(u, a, key, w);
    if key(a) == w {
      SnocInjective(x, a, y, a);
    } else {
      assert x + [] == x && y + [] == y;
    }
  }

  lemma SnocInjective<T>(x: seq<T>, a: T, y: seq<T>, b: T)
    requires x + [a] == y + [b]
    ensures x == y && a == b
  {
    assert |x| == |y|;
    assert (x + [a])[|x|] == a && (y + [b])[|y|] == b;
    assert x == (x + [a])[..|x|] && y == (y + [b])[..|y|];
  }

  /** Dropping the last element keeps a sequence in order. */
  lemma SortedPrefix<T>(s: seq<T>, key: T -> SortValue, dir: Direction)
    requires s != [] && SortedBy(s, key, dir)
    ensures SortedBy(s[..|s| - 1], key, dir)
  {
    var p := s[..|s| - 1];
    forall i, j | 0 <= i < j < |p|
      ensures !Before(dir, key(p[j]), key(p[i]))
    {
      assert p[i] == s[i] && p[j] == s[j];
    }
  }

  /** No element of a sequence in order is strictly after its last element. */
  lemma LastIsMaximal<T>(s: seq<T>, x: T, key: T -> SortValue, dir: Direction)
    requires SortedBy(s, key, dir) && x in multiset(s)
    ensures !Before(dir, key(s[|s| - 1]), key(x))
  {
    var i :| 0 <= i < |s| && s[i] == x;
    if i == |s| - 1 {
      BeforeIrreflexive(dir, key(x));
    }
  }

  /**
   * Any stable sort gives `SortBy`'s order: a permutation of `s` that is in
   * order and keeps every equal-key subsequence of `s` is `SortBy(s)`.
   */
  lemma SortByUnique<T>(s: seq<T>, r: seq<T>, key: T -> SortValue, dir: Direction)
    requires multiset(r) == multiset(s) && SortedBy(r, key, dir)
    requires forall v :: Select(r, key, v) == Select(s, key, v)
    ensures r == SortBy(s, key, dir)
  {
    SortByPermutes(s, key, dir);
    SortBySorted(s, key, dir);
    forall v
      ensures Select(SortBy(s, key, dir), key, v) == Select(s, key, v)
    {
      SortByStable(s, key, dir, v);
    }
    SortedStableUnique(r, SortBy(s, key, dir), key, dir);
  }

  /** Sorting twice gives the result of sorting once. */
  lemma SortByIdempotent<T>(s: seq<T>, key: T -> SortValue, dir: Direction)
    ensures SortBy(SortBy(s, key, dir), key, dir) == SortBy(s, key, dir)
  {
    SortBySorted(s, key, dir);
    SortBySortedIsIdentity(SortBy(s, key, dir), key, dir);
  }

  /** Mapping commutes with insertion when the map keeps every sort key. */
  lemma {:induction false} InsertMap<T, U>(s: seq<T>, x: T, key: T -> SortValue, f: T -> U, mappedKey: U -> SortValue, dir: Direction)
    requires forall y :: mappedKey(f(y)) == key(y)
    ensures Map(Insert(s, x, key, dir), f) == Insert(Map(s, f), f(x), mappedKey, dir)
    decreases |s|
  {
    if s != [] {
      var init, last := s[..|s| - 1], s[|s| - 1];
      assert Map(s, f) == Map(init, f) + [f(last)];
      assert Map(s, f)[..|s| - 1] == Map(init, f);
      if Before(dir, key(x), key(last)) {
        InsertMap(init, x, key, f, mappedKey, dir);
        assert Map(Insert(init, x, key, dir) + [last], f) == Map(Insert(init, x, key, dir), f) + [f(last)];
      } else {
        assert Map(s + [x], f) == Map(s, f) + [f(x)];
      }
    }
  }

  /** Mapping commutes with the sort when the map keeps every sort key. */
  lemma {:induction false} SortByMap<T, U>(s: seq<T>, key: T -> SortValue, f: T -> U, mappedKey: U -> SortValue, dir: Direction)
    requires forall y :: mappedKey(f(y)) == key(y)
    ensures Map(SortBy(s, key, dir), f) == SortBy(Map(s, f), mappedKey, dir)
    decreases |s|
  {
    if s != [] {
      var init, last := s[..|s| - 1], s[|s| - 1];
      SortByMap(init, key, f, mappedKey, dir);
      InsertMap(SortBy(init, key, dir), last, key, f, mappedKey, dir);
      assert Map(s, f) == Map(init, f) + [f(last)];
      assert Map(s, f)[..|s| - 1] == Map(init, f);
    }
  }

  /** Inserting `x` puts it after `s[..j]` when exactly `s[j..]` is strictly after it. */
  lemma {:induction false} InsertAt<T>(s: seq<T>, x: T, key: T -> SortValue, dir: Direction, j: nat)
    requires j <= |s|
    requires j == 0 || !Before(dir, key(x), key(s[j - 1]))
    requires forall k :: j <= k < |s| ==> Before(dir, key(x), key(s[k]))
    ensures Insert(s, x, key, dir) == s[..j] + [x] + s[j..]
    decreases |s|
  {
    if j < |s| {
      var init := s[..|s| - 1];
      assert init[..j] == s[..j];
      if j > 0 { assert init[j - 1] == s[j - 1]; }
      InsertAt(init, x, key, dir, j);
      assert init[j..] + [s[|s| - 1]] == s[j..];
    } else if j > 0 {
      assert s[..j] == s;
    }
  }

  /**
   * The loop of the insertion step: shifts right, by one place, the elements
   * before index `i` that `x` is strictly before, and returns the hole left.
   */
  method ShiftAfter<T>(a: array<T>, i: nat, x: T, key: T -> SortValue, dir: Direction) returns (j: nat)
    requires i < a.Length
    modifies a
    ensures j <= i
    ensures forall k :: 0 <= k < j ==> a[k] == old(a[k])
    ensures forall k :: j < k <= i ==> a[k] == old(a[k - 1])
    ensures forall k :: i < k < a.Length ==> a[k] == old(a[k])
    ensures j == 0 || !Before(dir, key(x), key(old(a[j - 1])))
    ensures forall k :: j <= k < i ==> Before(dir, key(x), key(old(a[k])))
  {
    j := i;
    while j > 0 && Before(dir, key(x), key(a[j - 1]))
      invariant j <= i
      invariant forall k :: 0 <= k < j ==> a[k] == old(a[k])
      invariant forall k :: j < k <= i ==> a[k] == old(a[k - 1])
      invariant forall k :: i < k < a.Length ==> a[k] == old(a[k])
      invariant forall k :: j <= k < i ==> Before(dir, key(x), key(old(a[k])))
    {
      a[j] := a[j - 1];
      j := j - 1;
    }
  }

  /** Moves `a[i]` left past the elements of `a[..i]` it is strictly before. */
  method InsertInPlace<T>(a: array<T>, i: nat, key: T -> SortValue, dir: Direction)
    requires i < a.Length
    modifies a
    ensures a[..i + 1] == Insert(old(a[..i]), old(a[i]), key, dir)
    ensures forall k :: i < k < a.Length ==> a[k] == old(a[k])
  {
    var x := a[i];
    ghost var sorted := a[..i];
    var j := ShiftAfter(a, i, x, key, dir);
    InsertAt(sorted, x, key, dir, j);
    a[j] := x;
    ghost var inserted := sorted[..j] + [x] + sorted[j..];
    forall k | 0 <= k <= i
      ensures a[k] == inserted[k]
    {
      if k < j {
        assert inserted[k] == sorted[k];
      } else if j < k {
        assert inserted[k] == sorted[k - 1];
      }
    }
    assert a[..i + 1] == inserted;
  }

  /** `a.sort(comparator)` in place: a stable insertion sort. */
  method SortInPlace<T>(a: array<T>, key: T -> SortValue, dir: Direction)
    modifies a
    ensures a[..] == SortBy(old(a[..]), key, dir)
  {
    var i := 0;
    while i < a.Length
      invariant 0 <= i <= a.Length
      invariant a[..i] == SortBy(old(a[..i]), key, dir)
      invariant forall k :: i <= k < a.Length ==> a[k] == old(a[k])
    {
      SortBySnoc(old(a[..i]), a[i], key, dir);
      assert old(a[..i + 1]) == old(a[..i]) + [a[i]];
      InsertInPlace(a, i, key, dir);
      i := i + 1;
    }
    assert a[..] == a[..a.Length];
    assert old(a[..]) == old(a[..a.Length]);
  }

  /** Copies `s` into an array, sorts the array in place and returns its contents. */
  method SortCopy<T>(s: seq<T>, key: T -> SortValue, dir: Direction) returns (r: seq<T>)
    ensures r == SortBy(s, key, dir)
  {
    var a := new T[|s|](k requires 0 <= k < |s| => s[k]);
    assert a[..] == s;
    SortInPlace(a, key, dir);
    r := a[..];
  }
}
