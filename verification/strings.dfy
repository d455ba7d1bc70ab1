/** Text operations the source takes from Python's `str`/`unicode`: prefix tests, ordering,
    ASCII case mapping, whitespace splitting and joining. */
module Strings {

  predicate StartsWith(s: string, prefix: string) {
    |prefix| <= |s| && s[..|prefix|] == prefix
  }

  predicate EndsWith(s: string, suffix: string) {
    |suffix| <= |s| && s[|s| - |suffix|..] == suffix
  }

  /** Python 2's `<` on unicode strings: lexicographic on code points, a proper prefix first. */
  predicate Less(a: string, b: string)
    decreases |a|
  {
    if a == [] then b != []
    else if b == [] then false
    else if a[0] != b[0] then a[0] < b[0]
    else Less(a[1..], b[1..])
  }

  lemma LessIrreflexive(a: string)
    ensures !Less(a, a)
    decreases |a|
  {
    if a != [] {
      LessIrreflexive(a[1..]);
    }
  }

  lemma LessTransitive(a: string, b: string, c: string)
    requires Less(a, b) && Less(b, c)
    ensures Less(a, c)
    decreases |a|
  {
    if a != [] && b != [] && c != [] && a[0] == b[0] && b[0] == c[0] {
      LessTransitive(a[1..], b[1..], c[1..]);
    }
  }

  lemma LessTotal(a: string, b: string)
    ensures a == b || Less(a, b) || Less(b, a)
    decreases |a|
  {
    if a != [] && b != [] && a[0] == b[0] {
      LessTotal(a[1..], b[1..]);
      if a[1..] == b[1..] {
        assert a == [a[0]] + a[1..] && b == [b[0]] + b[1..];
      }
    }
  }

  lemma LessAsymmetric(a: string, b: string)
    requires Less(a, b)
    ensures !Less(b, a)
  {
    if Less(b, a) {
      LessTransitive(a, b, a);
      LessIrreflexive(a);
    }
  }

  /** The characters `unicode.isspace()` accepts in Python 2.7 (Unicode 5.2). */
  predicate IsSpace(c: char) {
    || ('\t' <= c <= '\r')
    || ('\U{1C}' <= c <= '\U{1F}')
    || c == ' ' || c == '\U{85}' || c == '\U{A0}' || c == '\U{1680}' || c == '\U{180E}'
    || ('\U{2000}' <= c <= '\U{200A}')
    || c == '\U{2028}' || c == '\U{2029}' || c == '\U{202F}' || c == '\U{205F}' || c == '\U{3000}'
  }

  /** A piece `split()` can return: non-empty and free of whitespace. */
  predicate IsWord(w: string) {
    w != [] && forall k :: 0 <= k < |w| ==> !IsSpace(w[k])
  }

  function LowerChar(c: char): char {
    if 'A' <= c <= 'Z' then (c as int + 32) as char else c
  }

  function UpperChar(c: char): char {
    if 'a' <= c <= 'z' then (c as int - 32) as char else c
  }

  /** `s.lower()` on the ASCII letters. */
  function Lower(s: string): (r: string)
    ensures |r| == |s|
    ensures forall i :: 0 <= i < |s| ==> r[i] == LowerChar(s[i])
  {
    seq(|s|, i requires 0 <= i < |s| => LowerChar(s[i]))
  }

  /** `s.upper()` on the ASCII letters. */
  function Upper(s: string): (r: string)
    ensures |r| == |s|
    ensures forall i :: 0 <= i < |s| ==> r[i] == UpperChar(s[i])
  {
    seq(|s|, i requires 0 <= i < |s| => UpperChar(s[i]))
  }

  /** The end of the word that starts at `i`: the first whitespace at or after `i`, or `|s|`. */
  function WordEnd(s: string, i: nat): (j: nat)
    requires i <= |s|
    ensures i <= j <= |s|
    ensures forall k :: i <= k < j ==> !IsSpace(s[k])
    ensures j < |s| ==> IsSpace(s[j])
    decreases |s| - i
  {
    if i == |s| || IsSpace(s[i]) then i else WordEnd(s, i + 1)
  }

  /** Python's `s.split()` with no separator: the maximal runs of non-whitespace, in order. */
  function Split(s: string): (ws: seq<string>)
    ensures forall i :: 0 <= i < |ws| ==> IsWord(ws[i])
    decreases |s|
  {
    if s == [] then []
    else if IsSpace(s[0]) then Split(s[1..])
    else
      var n := WordEnd(s, 0);
      [s[..n]] + Split(s[n..])
  }

  /** Python's `sep.join(ws)`. */
  function Join(ws: seq<string>, sep: string): string
  {
    if ws == [] then ""
    else if |ws| == 1 then ws[0]
    else ws[0] + sep + Join(ws[1..], sep)
  }

  /** `w` occurs in `s` starting at index `k`. */
  predicate OccursAt(w: string, s: string, k: nat) {
    k + |w| <= |s| && s[k..k + |w|] == w
  }

  /** `w in s` on strings: `w` occurs somewhere in `s`. */
  predicate Infix(w: string, s: string) {
    exists k: nat | k <= |s| :: OccursAt(w, s, k)
  }

  lemma OccursAfter(w: string, a: string, b: string, k: nat)
    requires OccursAt(w, b, k)
    ensures OccursAt(w, a + b, |a| + k)
  {
    assert (a + b)[|a| + k..|a| + k + |w|] == b[k..k + |w|];
  }

  /** Every joined string occurs in the joined text. */
  lemma {:induction false} JoinHas(ws: seq<string>, sep: string, i: nat)
    requires i < |ws|
    ensures Infix(ws[i], Join(ws, sep))
    decreases |ws|
  {
    var s := Join(ws, sep);
    if |ws| == 1 {
      assert OccursAt(ws[0], s, 0);
    } else {
      var rest := Join(ws[1..], sep);
      assert s == ws[0] + (sep + rest);
      if i == 0 {
        assert OccursAt(ws[0], s, 0);
      } else {
        JoinHas(ws[1..], sep, i - 1);
        assert ws[1..][i - 1] == ws[i];
        var k: nat :| k <= |rest| && OccursAt(ws[i], rest, k);
        OccursAfter(ws[i], ws[0] + sep, rest, k);
        assert ws[0] + sep + rest == s;
      }
    }
  }

  function LowerAll(ws: seq<string>): (r: seq<string>)
    ensures |r| == |ws|
    ensures forall i :: 0 <= i < |ws| ==> r[i] == Lower(ws[i])
  {
    seq(|ws|, i requires 0 <= i < |ws| => Lower(ws[i]))
  }

  lemma WordEndOfWord(w: string, t: string)
    requires IsWord(w)
    requires t == [] || IsSpace(t[0])
    ensures WordEnd(w + t, 0) == |w|
  {
    var s := w + t;
    assert forall k :: 0 <= k < |w| ==> s[k] == w[k];
    if t != [] {
      assert s[|w|] == t[0];
    }
  }

  /** Splitting text made of words joined by single spaces gives the words back. */
  lemma {:induction false} SplitJoin(ws: seq<string>)
    requires forall i :: 0 <= i < |ws| ==> IsWord(ws[i])
    ensures Split(Join(ws, " ")) == ws
    decreases |ws|
  {
    if ws == [] {
    } else if |ws| == 1 {
      var w := ws[0];
      WordEndOfWord(w, []);
      assert w + [] == w;
      assert w[|w|..] == [];
      assert w[..|w|] == w;
    } else {
      var w := ws[0];
      var rest := Join(ws[1..], " ");
      var s := w + " " + rest;
      assert Join(ws, " ") == s;
      WordEndOfWord(w, " " + rest);
      assert s == w + (" " + rest);
      assert s[..|w|] == w;
      assert s[|w|..] == " " + rest;
      assert (" " + rest)[1..] == rest;
      SplitJoin(ws[1..]);
      assert ws == [w] + ws[1..];
    }
  }

  /** Lower-casing before or after splitting gives the same words: ASCII case mapping
      neither creates nor removes whitespace. */
  lemma {:induction false} SplitLower(s: string)
    ensures Split(Lower(s)) == LowerAll(Split(s))
    decreases |s|
  {
    var l := Lower(s);
    if s == [] {
    } else if IsSpace(s[0]) {
      assert Lower(s)[1..] == Lower(s[1..]);
      SplitLower(s[1..]);
    } else {
      var n := WordEnd(s, 0);
      WordEndLower(s, 0);
      assert l[..n] == Lower(s[..n]);
      assert l[n..] == Lower(s[n..]);
      SplitLower(s[n..]);
      assert LowerAll([s[..n]] + Split(s[n..])) == [Lower(s[..n])] + LowerAll(Split(s[n..]));
    }
  }

  lemma WordEndLower(s: string, i: nat)
    requires i <= |s|
    ensures WordEnd(Lower(s), i) == WordEnd(s, i)
    decreases |s| - i
  {
    if i < |s| {
      assert IsSpace(Lower(s)[i]) == IsSpace(s[i]);
      WordEndLower(s, i + 1);
    }
  }
}
