/** Sequence helpers behind Python idioms the source uses: `list(set(xs))` in first-occurrence
    order, and `sorted(set(xs))` under Python 2's ordering of hashable atoms. */
module Seqs {
  import Strings

  predicate Distinct<T(==)>(s: seq<T>) {
    forall i, j :: 0 <= i < j < |s| ==> s[i] != s[j]
  }

  /** Appends to `seen`, in order, each element of `xs` not already present. */
  function DedupFrom<T(==,!new)>(seen: seq<T>, xs: seq<T>): (r: seq<T>)
    requires Distinct(seen)
    ensures Distinct(r)
    ensures |seen| <= |r| && r[..|seen|] == seen
    ensures forall x :: x in r <==> x in seen || x in xs
    decreases |xs|
  {
    if xs == [] then seen
    else if xs[0] in seen then DedupFrom(seen, xs[1..])
    else DedupFrom(seen + [xs[0]], xs[1..])
  }

  /** The distinct elements of `xs` in the order of their first occurrence. */
  function Dedup<T(==,!new)>(xs: seq<T>): (r: seq<T>)
    ensures Distinct(r)
    ensures forall x :: x in r <==> x in xs
  {
    DedupFrom([], xs)
  }

  lemma {:induction false} DedupFromSnoc<T(!new)>(seen: seq<T>, xs: seq<T>, x: T)
    requires Distinct(seen)
    ensures DedupFrom(seen, xs + [x]) ==
      (var d := DedupFrom(seen, xs); if x in d then d else d + [x])
    decreases |xs|
  {
    if xs == [] {
      assert xs + [x] == [x];
      assert ([x])[1..] == [];
    } else {
      assert (xs + [x])[0] == xs[0];
      assert (xs + [x])[1..] == xs[1..] + [x];
      if xs[0] in seen {
        DedupFromSnoc(seen, xs[1..], x);
      } else {
        DedupFromSnoc(seen + [xs[0]], xs[1..], x);
      }
    }
  }

  /** First-occurrence order: a new element goes to the end, a repeated one changes nothing. */
  lemma DedupSnoc<T(!new)>(xs: seq<T>, x: T)
    ensures Dedup(xs + [x]) == if x in xs then Dedup(xs) else Dedup(xs) + [x]
  {
    DedupFromSnoc([], xs, x);
  }

  /** The key under which Python 2 hashes and orders an atom: None, a number (a boolean counts
      as 0 or 1, so `True == 1`), or a string. */
  datatype AtomKey = KNone | KNum(n: int) | KStr(s: string)

  /** Python 2's `<` across atoms: None before numbers, numbers before strings. */
  predicate KeyLess(a: AtomKey, b: AtomKey) {
    match (a, b)
    case (KNone, KNone) => false
    case (KNone, _) => true
    case (KNum(m), KNum(n)) => m < n
    case (KNum(_), KStr(_)) => true
    case (KStr(s), KStr(t)) => Strings.Less(s, t)
    case _ => false
  }

  lemma KeyLessIrreflexive(a: AtomKey)
    ensures !KeyLess(a, a)
  {
    if a.KStr? {
      Strings.LessIrreflexive(a.s);
    }
  }

  lemma KeyLessTransitive(a: AtomKey, b: AtomKey, c: AtomKey)
    requires KeyLess(a, b) && KeyLess(b, c)
    ensures KeyLess(a, c)
  {
    if a.KStr? && b.KStr? && c.KStr? {
      Strings.LessTransitive(a.s, b.s, c.s);
    }
  }

  lemma KeyLessTotal(a: AtomKey, b: AtomKey)
    ensures a == b || KeyLess(a, b) || KeyLess(b, a)
  {
    if a.KStr? && b.KStr? {
      Strings.LessTotal(a.s, b.s);
    }
  }

  predicate StrictlySorted<T>(s: seq<T>, key: T -> AtomKey) {
    forall i, j :: 0 <= i < j < |s| ==> KeyLess(key(s[i]), key(s[j]))
  }

  ghost function Keys<T>(s: seq<T>, key: T -> AtomKey): set<AtomKey> {
    set i | 0 <= i < |s| :: key(s[i])
  }

  /** Adds `x` to a strictly sorted sequence unless an element with the same key is already
      there, in which case the element already present is kept (a Python set keeps the first
      of two equal members). */
  function InsertUnique<T>(x: T, s: seq<T>, key: T -> AtomKey): (r: seq<T>)
    requires StrictlySorted(s, key)
    ensures StrictlySorted(r, key)
    ensures Keys(r, key) == Keys(s, key) + {key(x)}
    ensures forall y :: y in r ==> y in s || y == x
    ensures key(x) in Keys(s, key) ==> r == s
    decreases |s|
  {
    if s == [] then
      KeysCons(x, s, key);
      assert [x] + s == [x];
      [x]
    else if key(x) == key(s[0]) then s
    else if KeyLess(key(x), key(s[0])) then
      KeyLessBelow(x, s, key);
      KeysCons(x, s, key);
      [x] + s
    else
      KeyLessTotal(key(x), key(s[0]));
      var t := InsertUnique(x, s[1..], key);
      ConsSorted(s, t, x, key);
      KeysCons(s[0], t, key);
      KeysCons(s[0], s[1..], key);
      assert s == [s[0]] + s[1..];
      [s[0]] + t
  }

  lemma KeysCons<T>(x: T, s: seq<T>, key: T -> AtomKey)
    ensures Keys([x] + s, key) == {key(x)} + Keys(s, key)
  {
    var r := [x] + s;
    forall k | k in Keys(s, key)
      ensures k in Keys(r, key)
    {
      var i :| 0 <= i < |s| && key(s[i]) == k;
      assert r[i + 1] == s[i];
    }
    assert r[0] == x;
  }

  /** The head of a sorted `s` stays below the result of inserting a larger `x` into its tail. */
  lemma ConsSorted<T>(s: seq<T>, t: seq<T>, x: T, key: T -> AtomKey)
    requires s != [] && StrictlySorted(s, key) && StrictlySorted(t, key)
    requires KeyLess(key(s[0]), key(x))
    requires forall y :: y in t ==> y in s[1..] || y == x
    ensures StrictlySorted([s[0]] + t, key)
  {
    var r := [s[0]] + t;
    forall i, j | 0 <= i < j < |r|
      ensures KeyLess(key(r[i]), key(r[j]))
    {
      if i == 0 {
        var y := r[j];
        assert y in t;
        if y != x {
          var k :| 0 <= k < |s[1..]| && s[1..][k] == y;
          assert s[k + 1] == y;
        }
      }
    }
  }

  lemma KeyLessBelow<T>(x: T, s: seq<T>, key: T -> AtomKey)
    requires s != [] && StrictlySorted(s, key)
    requires KeyLess(key(x), key(s[0]))
    ensures StrictlySorted([x] + s, key)
    ensures key(x) !in Keys(s, key)
  {
    forall j | 0 < j < |s|
      ensures KeyLess(key(x), key(s[j]))
    {
      KeyLessTransitive(key(x), key(s[0]), key(s[j]));
    }
    if key(x) in Keys(s, key) {
      var k :| 0 <= k < |s| && key(s[k]) == key(x);
      if k == 0 {
        KeyLessIrreflexive(key(x));
      } else {
        KeyLessIrreflexive(key(x));
      }
    }
  }

  /** `sorted(set(xs))`: one element per key, the first of `xs` with that key, in key order. */
  function SortUnique<T>(xs: seq<T>, key: T -> AtomKey): (r: seq<T>)
    ensures StrictlySorted(r, key)
    ensures Keys(r, key) == Keys(xs, key)
    ensures forall y :: y in r ==> y in xs
    decreases |xs|
  {
    if xs == [] then []
    else
      var init := xs[..|xs| - 1];
      var r := InsertUnique(xs[|xs| - 1], SortUnique(init, key), key);
      assert Keys(xs, key) == Keys(init, key) + {key(xs[|xs| - 1])};
      r
  }
}
