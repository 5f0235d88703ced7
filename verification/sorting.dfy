/**
 * Sorting of distinct node names by `String.compareTo`, as used for the
 * version list (descending) and the group list (ascending).
 */
module NameSort {

  import opened JavaString

  /** Strictly increasing under `compareTo`; for names this also means no duplicates. */
  ghost predicate Ascending(xs: seq<string>) {
    forall i, j | 0 <= i < j < |xs| :: LexLess(xs[i], xs[j])
  }

  /** Strictly decreasing under `compareTo`. */
  ghost predicate Descending(xs: seq<string>) {
    forall i, j | 0 <= i < j < |xs| :: LexLess(xs[j], xs[i])
  }

  /** Places `x` into an ascending list that does not hold it yet. */
  function Insert(x: string, xs: seq<string>): (r: seq<string>)
    requires Ascending(xs) && x !in xs
    ensures Ascending(r)
    ensures |r| == |xs| + 1
    ensures forall y :: y in r <==> y == x || y in xs
  {
    if |xs| == 0 then [x]
    else if LexLess(x, xs[0]) then
      assert forall j | 0 < j < |xs| :: LexLess(x, xs[j]) by {
        forall j | 0 < j < |xs| ensures LexLess(x, xs[j]) {
          LexLessTransitive(x, xs[0], xs[j]);
        }
      }
      [x] + xs
    else
      LexLessTotal(x, xs[0]);
      var tail := Insert(x, xs[1..]);
      assert forall y | y in tail :: LexLess(xs[0], y) by {
        forall y | y in tail ensures LexLess(xs[0], y) {
          if y != x {
            var j :| 1 <= j < |xs| && xs[j] == y;
          }
        }
      }
      [xs[0]] + tail
  }

  /** The elements of `names` in ascending `compareTo` order. */
  method SortAscending(names: set<string>) returns (r: seq<string>)
    ensures Ascending(r)
    ensures forall y :: y in r <==> y in names
    ensures |r| == |names|
  {
    r := [];
    var todo := names;
    while todo != {}
      invariant todo <= names
      invariant Ascending(r)
      invariant forall y :: y in r <==> y in names && y !in todo
      invariant |r| + |todo| == |names|
      decreases |todo|
    {
      var x :| x in todo;
      r := Insert(x, r);
      todo := todo - {x};
    }
  }

  function Reverse(xs: seq<string>): (r: seq<string>)
    ensures |r| == |xs|
    ensures forall i | 0 <= i < |xs| :: r[i] == xs[|xs| - 1 - i]
  {
    if |xs| == 0 then [] else [xs[|xs| - 1]] + Reverse(xs[..|xs| - 1])
  }

  /** The elements of `names` in descending order: a `reversed()` comparator over distinct names. */
  method SortDescending(names: set<string>) returns (r: seq<string>)
    ensures Descending(r)
    ensures forall y :: y in r <==> y in names
    ensures |r| == |names|
  {
    var up := SortAscending(names);
    r := Reverse(up);
    forall y ensures y in r <==> y in names {
      if y in up {
        var i :| 0 <= i < |up| && up[i] == y;
        assert r[|up| - 1 - i] == y;
      }
    }
  }
}
