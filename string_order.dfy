/**
 * Python compares `str` values by code point, lexicographically. Dafny's `<`
 * on sequences means "proper prefix", so the order is defined here, together
 * with the sorted, duplicate-free lists that `sort_index()` produces.
 */
module StringOrder {

  /** `a < b` on Python strings: code-point lexicographic order. */
  predicate Below(a: string, b: string)
    decreases |a|
  {
    if |a| == 0 then |b| > 0
    else if |b| == 0 then false
    else if a[0] != b[0] then a[0] < b[0]
    else Below(a[1..], b[1..])
  }

  lemma {:induction false} BelowIrreflexive(a: string)
    ensures !Below(a, a)
    decreases |a|
  {
    if |a| > 0 {
      BelowIrreflexive(a[1..]);
    }
  }

  lemma {:induction false} BelowTransitive(a: string, b: string, c: string)
    requires Below(a, b) && Below(b, c)
    ensures Below(a, c)
    decreases |a|
  {
    if |a| > 0 && a[0] == b[0] && b[0] == c[0] {
      BelowTransitive(a[1..], b[1..], c[1..]);
    }
  }

  lemma {:induction false} BelowTotal(a: string, b: string)
    ensures a == b || Below(a, b) || Below(b, a)
    decreases |a|
  {
    if |a| > 0 && |b| > 0 && a[0] == b[0] {
      BelowTotal(a[1..], b[1..]);
      if a[1..] == b[1..] {
        assert a == [a[0]] + a[1..] && b == [b[0]] + b[1..];
      }
    }
  }

  lemma BelowAsymmetric(a: string, b: string)
    requires Below(a, b)
    ensures !Below(b, a)
  {
    if Below(b, a) {
      BelowTransitive(a, b, a);
      BelowIrreflexive(a);
    }
  }

  /** `a` and `b` agree before index `i` and differ first there, with the smaller code point in `a`. */
  predicate FirstDifferenceBelow(a: string, b: string, i: nat)
  {
    i < |a| && i < |b| && a[..i] == b[..i] && a[i] < b[i]
  }

  lemma FirstDifferenceAfterHead(a: string, b: string, i: nat)
    requires FirstDifferenceBelow(a, b, i)
    ensures i == 0 || a[0] == b[0]
  {
    if i > 0 {
      assert a[..i][0] == a[0] && b[..i][0] == b[0];
    }
  }

  /**
   * The order is Python's: `a < b` exactly when `a` is a proper prefix of `b`
   * or the first differing character of `a` has the smaller code point.
   */
  lemma {:induction false} BelowIff(a: string, b: string)
    ensures Below(a, b) <==>
      (|a| < |b| && a == b[..|a|]) || exists i: nat :: FirstDifferenceBelow(a, b, i)
    decreases |a|
  {
    if |a| == 0 || |b| == 0 {
    } else if a[0] != b[0] {
      assert FirstDifferenceBelow(a, b, 0) <==> a[0] < b[0];
      forall i: nat | FirstDifferenceBelow(a, b, i) ensures i == 0 {
        FirstDifferenceAfterHead(a, b, i);
      }
      assert !(|a| < |b| && a == b[..|a|]) by {
        if |a| < |b| {
          assert b[..|a|][0] == b[0];
        }
      }
    } else {
      var a', b' := a[1..], b[1..];
      BelowIff(a', b');
      assert (|a| < |b| && a == b[..|a|]) <==> (|a'| < |b'| && a' == b'[..|a'|]) by {
        if |a| < |b| {
          assert b[..|a|] == [b[0]] + b'[..|a'|];
          assert a == [a[0]] + a';
        }
      }
      forall i: nat | FirstDifferenceBelow(a', b', i) ensures FirstDifferenceBelow(a, b, i + 1) {
        assert a[..i + 1] == [a[0]] + a'[..i];
        assert b[..i + 1] == [b[0]] + b'[..i];
      }
      forall i: nat | FirstDifferenceBelow(a, b, i) && i > 0 ensures FirstDifferenceBelow(a', b', i - 1) {
        assert a'[..i - 1] == a[..i][1..];
        assert b'[..i - 1] == b[..i][1..];
      }
      assert !FirstDifferenceBelow(a, b, 0);
    }
  }

  /** Sorted ascending with no element repeated. */
  predicate StrictlyAscending(s: seq<string>)
  {
    forall i, j :: 0 <= i < j < |s| ==> Below(s[i], s[j])
  }

  lemma AscendingHasNoDuplicates(s: seq<string>)
    requires StrictlyAscending(s)
    ensures forall i, j :: 0 <= i < |s| && 0 <= j < |s| && i != j ==> s[i] != s[j]
  {
    forall i, j | 0 <= i < |s| && 0 <= j < |s| && i != j
      ensures s[i] != s[j]
    {
      if i < j { BelowIrreflexive(s[i]); } else { BelowIrreflexive(s[j]); }
    }
  }

  lemma AscendingCons(x: string, s: seq<string>)
    requires StrictlyAscending(s)
    requires forall y :: y in s ==> Below(x, y)
    ensures StrictlyAscending([x] + s)
  {
    var t := [x] + s;
    forall i, j | 0 <= i < j < |t| ensures Below(t[i], t[j]) {
      if i == 0 { assert t[j] in s; }
    }
  }

  lemma BelowHeadBelowAll(x: string, s: seq<string>)
    requires StrictlyAscending(s) && s != [] && Below(x, s[0])
    ensures forall y :: y in s ==> Below(x, y)
  {
    forall y | y in s ensures Below(x, y) {
      var j :| 0 <= j < |s| && s[j] == y;
      if j > 0 { BelowTransitive(x, s[0], y); }
    }
  }

  /** Adds `x` to an ascending list, keeping it ascending and duplicate-free. */
  function Insert(x: string, s: seq<string>): (r: seq<string>)
    requires StrictlyAscending(s)
    ensures StrictlyAscending(r)
    ensures forall y :: y in r <==> y == x || y in s
  {
    if s == [] then [x]
    else if x == s[0] then s
    else if Below(x, s[0]) then
      BelowHeadBelowAll(x, s);
      AscendingCons(x, s);
      [x] + s
    else
      BelowTotal(x, s[0]);
      var t := Insert(x, s[1..]);
      assert forall y :: y in t ==> Below(s[0], y);
      AscendingCons(s[0], t);
      [s[0]] + t
  }

  /**
   * The distinct values of `names` in ascending order: the index of
   * `value_counts().sort_index()` over a column of names.
   */
  function SortedUnique(names: seq<string>): (r: seq<string>)
    ensures StrictlyAscending(r)
    ensures forall y :: y in r <==> y in names
  {
    if names == [] then [] else Insert(names[0], SortedUnique(names[1..]))
  }

  lemma HeadIsElement(s: seq<string>)
    requires s != []
    ensures s[0] in s
  {
  }

  /**
   * A strictly ascending list is determined by its elements: whatever
   * algorithm sorts and de-duplicates a column, the result is this one.
   */
  lemma {:induction false} AscendingIsUnique(a: seq<string>, b: seq<string>)
    requires StrictlyAscending(a) && StrictlyAscending(b)
    requires forall y :: y in a <==> y in b
    ensures a == b
    decreases |a|
  {
    if a == [] {
      if b != [] {
        HeadIsElement(b);
      }
    } else {
      assert a[0] in b;
      var j :| 0 <= j < |b| && b[j] == a[0];
      assert b[0] in a;
      var i :| 0 <= i < |a| && a[i] == b[0];
      if i > 0 && j > 0 {
        BelowAsymmetric(a[0], b[0]);
      }
      assert a[0] == b[0];
      forall y ensures y in a[1..] <==> y in b[1..] {
        if y in a[1..] {
          var i :| 1 <= i < |a| && a[i] == y;
          BelowIrreflexive(a[0]);
          assert y != a[0];
          assert y in b;
        }
        if y in b[1..] {
          var j :| 1 <= j < |b| && b[j] == y;
          BelowIrreflexive(b[0]);
          assert y != b[0];
          assert y in a;
        }
      }
      AscendingIsUnique(a[1..], b[1..]);
      assert a == [a[0]] + a[1..] && b == [b[0]] + b[1..];
    }
  }
}
