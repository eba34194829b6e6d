/**
 * The emissions table. The merged frame still carries the raw column names
 * of the two CSV files; the prepared frame carries the canonical ones. The
 * emission values are never computed with, so their type is a parameter.
 */
module Table {

  /** A row of the merged frame, one field per raw column. */
  datatype RawRow<V> = RawRow(entity: string, code: string, year: int, annualTonnes: V, perCapitaTonnes: V)

  /** A row of the prepared frame, one field per canonical column. */
  datatype Row<V> = Row(country: string, code: string, year: int, annual: V, perCapita: V)

  /** The raw column labels, in the order of the fields of `RawRow`. */
  const RawColumns: seq<string> := [
    "Entity", "Code", "Year",
    "Annual CO\U{2082} emissions (tonnes )",
    "Per capita CO\U{2082} emissions (tonnes per capita)"
  ]

  /** The canonical column labels, in the order of the fields of `Row`. */
  const CanonicalColumns: seq<string> := [
    "Country", "Country Code", "Year", "Annual_CO2_Emissions", "Per_Capita_CO2_Emissions"
  ]

  /** `df[mask]`: the rows that satisfy `p`, in table order. */
  function Filter<T>(s: seq<T>, p: T -> bool): (r: seq<T>)
    ensures |r| <= |s|
    ensures forall k :: 0 <= k < |r| ==> r[k] in s && p(r[k])
    ensures forall k :: 0 <= k < |s| && p(s[k]) ==> s[k] in r
  {
    if s == [] then [] else (if p(s[0]) then [s[0]] else []) + Filter(s[1..], p)
  }

  /** Helper: one step of the filter, the first row kept or dropped and then the rest filtered. */
  lemma FilterCons<T>(s: seq<T>, p: T -> bool)
    requires s != []
    ensures Filter(s, p) == if p(s[0]) then [s[0]] + Filter(s[1..], p) else Filter(s[1..], p)
  {
  }

  /** Filtering distributes over concatenation: order is kept and nothing is lost. */
  lemma {:induction false} FilterAppend<T>(a: seq<T>, b: seq<T>, p: T -> bool)
    ensures Filter(a + b, p) == Filter(a, p) + Filter(b, p)
  {
    if a == [] {
      assert a + b == b;
    } else {
      assert (a + b)[1..] == a[1..] + b;
      FilterAppend(a[1..], b, p);
    }
  }

  /** A filter keeps everything exactly when every row satisfies the mask. */
  lemma {:induction false} FilterKeepsAll<T>(s: seq<T>, p: T -> bool)
    ensures Filter(s, p) == s <==> forall x :: x in s ==> p(x)
  {
    if s != [] {
      FilterKeepsAll(s[1..], p);
      if !p(s[0]) {
        assert |Filter(s, p)| < |s|;
      }
    }
  }

  /** A filter that rejects some row is strictly shorter than the table. */
  lemma {:induction false} FilterShorter<T>(s: seq<T>, p: T -> bool, k: nat)
    requires k < |s| && !p(s[k])
    ensures |Filter(s, p)| < |s|
  {
    if k > 0 {
      FilterShorter(s[1..], p, k - 1);
    }
  }

  /** A filter yields nothing exactly when no row satisfies the mask. */
  lemma FilterEmpty<T>(s: seq<T>, p: T -> bool)
    ensures Filter(s, p) == [] <==> forall x :: x in s ==> !p(x)
  {
    if Filter(s, p) != [] {
      assert Filter(s, p)[0] in Filter(s, p);
    }
  }

  /** The selection `column` of a frame: `f` applied to every row, in order. */
  function Column<T, U>(s: seq<T>, f: T -> U): (r: seq<U>)
    ensures |r| == |s|
    ensures forall k :: 0 <= k < |s| ==> r[k] == f(s[k])
  {
    seq(|s|, k requires 0 <= k < |s| => f(s[k]))
  }

  lemma ColumnAppend<T, U>(a: seq<T>, b: seq<T>, f: T -> U)
    ensures Column(a + b, f) == Column(a, f) + Column(b, f)
  {
  }
}
