/** What `SELECT * FROM t WHERE cond ORDER BY key` returns from a table held
    as a map from rowid to row: the rows are scanned in rowid order, the
    matching ones kept, and the result sorted by the key. The database leaves
    the order of rows with equal keys unspecified; the model puts the earlier
    rowid first. */
module Query {

  /** The rows of `m` whose rowid lies in [lo, hi) and which satisfy `p`, in rowid order. */
  function Scan<T(==,!new)>(m: map<int, T>, lo: int, hi: int, p: T -> bool): (r: seq<T>)
    ensures forall t :: t in r <==> exists k :: lo <= k < hi && k in m && m[k] == t && p(t)
    ensures |r| == |InRange(m, lo, hi, p)|
    decreases hi - lo
  {
    if lo >= hi then
      assert InRange(m, lo, hi, p) == {};
      []
    else
      var rest := Scan(m, lo + 1, hi, p);
      var here := if lo in m && p(m[lo]) then [m[lo]] else [];
      InRangeStep(m, lo, hi, p);
      here + rest
  }

  /** The rowids in [lo, hi) of the rows of `m` that satisfy `p`. */
  ghost function InRange<T(!new)>(m: map<int, T>, lo: int, hi: int, p: T -> bool): set<int> {
    set k | k in m && lo <= k < hi && p(m[k])
  }

  /** Splitting the lowest rowid off a non-empty range. */
  lemma InRangeStep<T(!new)>(m: map<int, T>, lo: int, hi: int, p: T -> bool)
    requires lo < hi
    ensures InRange(m, lo, hi, p) == (if lo in m && p(m[lo]) then {lo} else {}) + InRange(m, lo + 1, hi, p)
    ensures lo !in InRange(m, lo + 1, hi, p)
  {
  }

  /** The rowids of the rows of `m` that satisfy `p`. */
  ghost function Matching<T(!new)>(m: map<int, T>, p: T -> bool): set<int> {
    set k | k in m && p(m[k])
  }

  /** `s` is ordered non-decreasing by `key`. */
  predicate SortedBy<T>(s: seq<T>, key: T -> int) {
    forall i, j :: 0 <= i < j < |s| ==> key(s[i]) <= key(s[j])
  }

  /** Inserts `x` into a sorted `s` ahead of the first element whose key is not smaller. */
  function InsertByKey<T(==,!new)>(x: T, s: seq<T>, key: T -> int): (r: seq<T>)
    requires SortedBy(s, key)
    ensures SortedBy(r, key)
    ensures multiset(r) == multiset(s) + multiset{x}
    ensures forall y :: y in r ==> y == x || y in s
  {
    if s == [] then [x]
    else if key(x) <= key(s[0]) then [x] + s
    else
      var rest := InsertByKey(x, s[1..], key);
      assert s == [s[0]] + s[1..];
      HeadBelowRest(x, s, rest, key);
      SortedCons(s[0], rest, key);
      [s[0]] + rest
  }

  /** The head of a sorted `s` is below every element of a sequence made
      of `x` and the tail of `s`, when it is below `x`. */
  lemma HeadBelowRest<T>(x: T, s: seq<T>, rest: seq<T>, key: T -> int)
    requires SortedBy(s, key) && |s| > 0 && key(s[0]) < key(x)
    requires forall y :: y in rest ==> y == x || y in s[1..]
    ensures forall i :: 0 <= i < |rest| ==> key(s[0]) <= key(rest[i])
  {
    forall i | 0 <= i < |rest| ensures key(s[0]) <= key(rest[i]) {
      assert rest[i] in rest;
      if rest[i] != x {
        var j :| 0 <= j < |s[1..]| && s[1..][j] == rest[i];
        assert s[j + 1] == rest[i];
      }
    }
  }

  /** A sorted sequence stays sorted below a head no larger than its elements. */
  lemma SortedCons<T>(h: T, rest: seq<T>, key: T -> int)
    requires SortedBy(rest, key)
    requires forall i :: 0 <= i < |rest| ==> key(h) <= key(rest[i])
    ensures SortedBy([h] + rest, key)
  {
    var r := [h] + rest;
    forall i, j | 0 <= i < j < |r| ensures key(r[i]) <= key(r[j]) {
      assert r[j] == rest[j - 1];
      if i > 0 {
        assert r[i] == rest[i - 1];
      }
    }
  }

  /** A permutation of `s` ordered by `key` (insertion sort). */
  function SortByKey<T(==,!new)>(s: seq<T>, key: T -> int): (r: seq<T>)
    ensures SortedBy(r, key)
    ensures multiset(r) == multiset(s)
  {
    if s == [] then []
    else
      assert s == [s[0]] + s[1..];
      InsertByKey(s[0], SortByKey(s[1..], key), key)
  }

  /** The query result: every row of `m` that satisfies `p`, each once,
      ordered by `key`. The table's rowids must all be below `hi`. */
  function Select<T(==,!new)>(m: map<int, T>, hi: int, p: T -> bool, key: T -> int): (r: seq<T>)
    requires forall k :: k in m ==> 1 <= k < hi
    ensures SortedBy(r, key)
    ensures forall t :: t in r <==> (exists k :: k in m && m[k] == t) && p(t)
    ensures |r| == |Matching(m, p)|
  {
    var scanned := Scan(m, 1, hi, p);
    assert InRange(m, 1, hi, p) == Matching(m, p);
    var r := SortByKey(scanned, key);
    forall t ensures t in r <==> t in scanned {
      assert t in r <==> multiset(r)[t] > 0;
      assert t in scanned <==> multiset(scanned)[t] > 0;
    }
    r
  }
}
