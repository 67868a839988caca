/**
 * String helpers shared by the Go commands and the Node scripts.
 *
 * Strings are sequences of code points. Go compares strings byte by byte;
 * on UTF-8 text that is the same as comparing code points, so `Less` below
 * is Go's `<` on strings and the order `sort.Strings` sorts by.
 */
module Strings {

  /** Go's `a < b` on strings: lexicographic order of code points. */
  predicate Less(a: string, b: string)
  {
    if a == [] then b != []
    else if b == [] then false
    else if a[0] != b[0] then a[0] < b[0]
    else Less(a[1..], b[1..])
  }

  predicate LessEq(a: string, b: string)
  {
    a == b || Less(a, b)
  }

  lemma {:induction false} LessIrreflexive(a: string)
    ensures !Less(a, a)
  {
    if a != [] {
      LessIrreflexive(a[1..]);
    }
  }

  lemma {:induction false} LessTransitive(a: string, b: string, c: string)
    requires Less(a, b) && Less(b, c)
    ensures Less(a, c)
  {
    if a != [] && a[0] == b[0] && b[0] == c[0] {
      LessTransitive(a[1..], b[1..], c[1..]);
    }
  }

  /** Any two different strings are ordered one way or the other. */
  lemma {:induction false} LessTotal(a: string, b: string)
    ensures a == b || Less(a, b) || Less(b, a)
  {
    if a != [] && b != [] && a[0] == b[0] {
      LessTotal(a[1..], b[1..]);
      if a[1..] == b[1..] {
        assert a == [a[0]] + a[1..] && b == [b[0]] + b[1..];
      }
    }
  }

  lemma {:induction false} LessAsymmetric(a: string, b: string)
    requires Less(a, b)
    ensures !Less(b, a)
  {
    if a != [] && a[0] == b[0] {
      LessAsymmetric(a[1..], b[1..]);
    }
  }

  /** Strings agreeing before position `k` and smaller at `k` are ordered. */
  lemma {:induction false} LessAt(a: string, b: string, k: nat)
    requires k < |a| && k < |b| && a[k] < b[k]
    requires forall j :: 0 <= j < k ==> a[j] == b[j]
    ensures Less(a, b)
  {
    if k > 0 {
      LessAt(a[1..], b[1..], k - 1);
    }
  }

  /** Ascending and duplicate-free: what `sort.Strings` yields on distinct strings. */
  ghost predicate StrictlySorted(s: seq<string>)
  {
    forall i, j :: 0 <= i < j < |s| ==> Less(s[i], s[j])
  }

  /** Ascending, duplicates allowed: what `sort.Strings` yields. */
  ghost predicate Sorted(s: seq<string>)
  {
    forall i, j :: 0 <= i < j < |s| ==> LessEq(s[i], s[j])
  }

  ghost predicate Distinct<T>(s: seq<T>)
  {
    forall i, j :: 0 <= i < j < |s| ==> s[i] != s[j]
  }

  /**
   * Two strictly sorted sequences with the same elements are equal: a
   * sorted, duplicate-free list is determined by the set it holds.
   */
  lemma {:induction false} StrictlySortedUnique(a: seq<string>, b: seq<string>)
    requires StrictlySorted(a) && StrictlySorted(b)
    requires forall x :: x in a <==> x in b
    ensures a == b
  {
    assert a != [] ==> a[0] in a;
    assert b != [] ==> b[0] in b;
    if a != [] && b != [] {
      if a[0] != b[0] {
        // a[0] is in b, so b[0] < a[0]; symmetrically a[0] < b[0]
        assert a[0] in a && b[0] in b;
        var i :| 0 <= i < |b| && b[i] == a[0];
        var j :| 0 <= j < |a| && a[j] == b[0];
        assert i != 0 && j != 0;
        assert Less(b[0], a[0]) && Less(a[0], b[0]);
        LessAsymmetric(a[0], b[0]);
      }
      forall x ensures x in a[1..] <==> x in b[1..] {
        if x in a[1..] {
          var k :| 1 <= k < |a| && a[k] == x;
          LessIrreflexive(a[0]);
          assert x != a[0] && x in b;
          assert b == [b[0]] + b[1..];
        }
        if x in b[1..] {
          var k :| 1 <= k < |b| && b[k] == x;
          LessIrreflexive(b[0]);
          assert x != b[0] && x in a;
          assert a == [a[0]] + a[1..];
        }
      }
      StrictlySortedUnique(a[1..], b[1..]);
      assert a == [a[0]] + a[1..] && b == [b[0]] + b[1..];
    }
  }

  /** Inserting one string into an ascending sequence, as an insertion sort does. */
  function Insert(s: seq<string>, x: string): (r: seq<string>)
    ensures multiset(r) == multiset(s) + multiset{x}
  {
    if s == [] || LessEq(x, s[0]) then
      [x] + s
    else
      assert s == [s[0]] + s[1..];
      [s[0]] + Insert(s[1..], x)
  }

  /** Insertion keeps a sorted sequence sorted, and strictly so for a new element. */
  lemma {:induction false} InsertKeepsOrder(s: seq<string>, x: string)
    requires Sorted(s)
    ensures Sorted(Insert(s, x))
    ensures StrictlySorted(s) && x !in s ==> StrictlySorted(Insert(s, x))
  {
    if s == [] {
    } else if LessEq(x, s[0]) {
      assert Insert(s, x) == [x] + s;
      PrependKeepsOrder(s, x);
    } else {
      InsertKeepsOrder(s[1..], x);
      InsertAfterHeadKeepsOrder(s, x);
    }
  }

  /** An element at most the head, put in front, keeps the order. */
  lemma PrependKeepsOrder(s: seq<string>, x: string)
    requires Sorted(s) && s != [] && LessEq(x, s[0])
    ensures Sorted([x] + s)
    ensures StrictlySorted(s) && x !in s ==> StrictlySorted([x] + s)
  {
    var r := [x] + s;
    forall j | 0 < j < |r| ensures LessEq(x, r[j]) {
      if j > 1 && x != s[0] && s[0] != s[j - 1] {
        LessTransitive(x, s[0], s[j - 1]);
      }
    }
  }

  /** An element after the head, inserted into the tail, keeps the head first. */
  lemma InsertAfterHeadKeepsOrder(s: seq<string>, x: string)
    requires Sorted(s) && s != [] && !LessEq(x, s[0])
    requires Sorted(Insert(s[1..], x))
    requires StrictlySorted(s[1..]) && x !in s[1..] ==> StrictlySorted(Insert(s[1..], x))
    ensures Sorted(Insert(s, x))
    ensures StrictlySorted(s) && x !in s ==> StrictlySorted(Insert(s, x))
  {
    var rest := Insert(s[1..], x);
    var r := [s[0]] + rest;
    assert Insert(s, x) == r;
    LessTotal(x, s[0]);
    forall j | 0 < j < |r| ensures Less(s[0], r[j]) || (s[0] == r[j] && !StrictlySorted(s)) {
      assert r[j] in multiset(rest);
      if r[j] != x {
        assert r[j] in multiset(s[1..]);
        var k :| 0 <= k < |s[1..]| && s[1..][k] == r[j];
        assert s[k + 1] == r[j];
      }
    }
  }

  /** `sort.Strings`, modelled as an insertion sort over a sequence. */
  method SortStrings(xs: seq<string>) returns (r: seq<string>)
    ensures Sorted(r) && multiset(r) == multiset(xs)
    ensures Distinct(xs) ==> StrictlySorted(r)
  {
    r := [];
    var i := 0;
    while i < |xs|
      invariant 0 <= i <= |xs|
      invariant Sorted(r) && multiset(r) == multiset(xs[..i])
      invariant Distinct(xs) ==> StrictlySorted(r)
    {
      assert xs[..i + 1] == xs[..i] + [xs[i]];
      assert Distinct(xs) ==> xs[i] !in xs[..i];
      assert xs[i] in r <==> xs[i] in multiset(xs[..i]);
      InsertKeepsOrder(r, xs[i]);
      r := Insert(r, xs[i]);
      i := i + 1;
    }
    assert xs[..i] == xs;
  }

  /** `strings.ReplaceAll(s, old, new)` for one-character `old` and `new` strings. */
  function ReplaceChar(s: string, from: char, to: char): (r: string)
    ensures |r| == |s|
    ensures forall i :: 0 <= i < |s| ==> r[i] == (if s[i] == from then to else s[i])
  {
    if s == [] then [] else [if s[0] == from then to else s[0]] + ReplaceChar(s[1..], from, to)
  }

  lemma ReplaceCharRemoves(s: string, from: char, to: char)
    requires from != to
    ensures from !in ReplaceChar(s, from, to)
    ensures from !in s ==> ReplaceChar(s, from, to) == s
  {
  }

  /** U+212A KELVIN SIGN, whose lower case is the ASCII 'k'. */
  const KelvinSign: char := '\U{212A}'
  /** U+0130, whose lower case is 'i' followed by U+0307 COMBINING DOT ABOVE. */
  const CapitalIWithDot: char := '\U{0130}'

  /**
   * The lower case of one character under `String.prototype.toLowerCase`,
   * for the characters whose lower case holds an ASCII letter: 'A'..'Z',
   * the Kelvin sign and the capital I with dot. Every other character is
   * kept as it is.
   */
  function LowerChar(c: char): (r: string)
    ensures 'A' <= c <= 'Z' ==> r == [(c - 'A' + 'a') as char]
    ensures c == KelvinSign ==> r == "k"
    ensures c == CapitalIWithDot ==> r == "i\U{0307}"
    ensures !('A' <= c <= 'Z') && c != KelvinSign && c != CapitalIWithDot ==> r == [c]
  {
    if 'A' <= c <= 'Z' then [(c - 'A' + 'a') as char]
    else if c == KelvinSign then "k"
    else if c == CapitalIWithDot then "i\U{0307}"
    else [c]
  }

  /** `s.toLowerCase()`, character by character. */
  function Lower(s: string): (r: string)
    ensures (forall i :: 0 <= i < |s| ==> s[i] != KelvinSign && s[i] != CapitalIWithDot) ==>
      && |r| == |s|
      && forall i :: 0 <= i < |s| ==> r[i] == (if 'A' <= s[i] <= 'Z' then (s[i] - 'A' + 'a') as char else s[i])
  {
    if s == [] then [] else LowerChar(s[0]) + Lower(s[1..])
  }

  /** `w` is made of lower-case ASCII letters other than 'i' and 'k'. */
  predicate PlainLowerWord(w: string)
  {
    forall i :: 0 <= i < |w| ==> 'a' <= w[i] <= 'z' && w[i] != 'i' && w[i] != 'k'
  }

  function UpperAscii(c: char): char
    requires 'a' <= c <= 'z'
  {
    (c - 'a' + 'A') as char
  }

  /**
   * A text lower-cases to such a word exactly when it spells the word
   * letter by letter, each letter in either case.
   */
  lemma {:induction false} LowerIsWord(s: string, w: string)
    requires PlainLowerWord(w)
    ensures Lower(s) == w <==>
      |s| == |w| && forall i :: 0 <= i < |s| ==> s[i] == w[i] || s[i] == UpperAscii(w[i])
  {
    if s != [] {
      var first, rest := LowerChar(s[0]), Lower(s[1..]);
      assert Lower(s) == first + rest;
      if w == [] {
        assert |first| >= 1;
      } else if s[0] == CapitalIWithDot {
        assert (first + rest)[0] == 'i' != w[0];
      } else {
        assert |first| == 1;
        LowerIsWord(s[1..], w[1..]);
        assert first[0] == w[0] <==> s[0] == w[0] || s[0] == UpperAscii(w[0]);
        if Lower(s) == w {
          assert rest == w[1..];
        }
        if |s| == |w| && forall i :: 0 <= i < |s| ==> s[i] == w[i] || s[i] == UpperAscii(w[i]) {
          assert forall i :: 0 <= i < |s| - 1 ==> s[1..][i] == w[1..][i] || s[1..][i] == UpperAscii(w[1..][i]) by {
            forall i | 0 <= i < |s| - 1
              ensures s[1..][i] == w[1..][i] || s[1..][i] == UpperAscii(w[1..][i])
            {
              assert s[1..][i] == s[i + 1] && w[1..][i] == w[i + 1];
            }
          }
          assert w == [w[0]] + w[1..];
        }
      }
    }
  }

  /** `s.includes(p)`: `p` occurs in `s` as a contiguous substring. */
  predicate Contains(s: string, p: string)
  {
    exists i | 0 <= i <= |s| - |p| :: OccursAt(s, p, i)
  }

  predicate OccursAt(s: string, p: string, i: int)
  {
    0 <= i <= |s| - |p| && s[i..i + |p|] == p
  }
}
