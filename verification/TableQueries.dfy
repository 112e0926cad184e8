/** The aggregate and ordering clauses of the queries that the stores issue. */
module TableQueries {

  lemma HasMember(s: set<int>)
    requires s != {}
    ensures exists x :: x in s
  {
    assert (forall x :: x !in s) ==> s == {};
  }

  lemma {:induction false} HasLeast(s: set<int>)
    requires s != {}
    ensures exists m :: m in s && forall x :: x in s ==> m <= x
    decreases |s|
  {
    HasMember(s);
    var y :| y in s;
    var rest := s - {y};
    if rest == {} {
      forall x | x in s ensures y <= x {
        assert x in rest || x == y;
      }
    } else {
      HasLeast(rest);
      var m :| m in rest && forall x :: x in rest ==> m <= x;
      LeastWith(s, rest, y, m);
    }
  }

  lemma LeastWith(s: set<int>, rest: set<int>, y: int, m: int)
    requires y in s && rest == s - {y} && m in rest && forall x :: x in rest ==> m <= x
    ensures exists k :: k in s && forall x :: x in s ==> k <= x
  {
    var k := if y < m then y else m;
    forall x | x in s ensures k <= x {
      assert x in rest || x == y;
    }
    assert k in s;
  }

  lemma HasGreatest(s: set<int>)
    requires s != {}
    ensures exists m :: m in s && forall x :: x in s ==> x <= m
  {
    var negated := set x | x in s :: -x;
    HasMember(s);
    var y :| y in s;
    assert -y in negated;
    HasLeast(negated);
    var m :| m in negated && forall x :: x in negated ==> m <= x;
    assert -m in s;
    forall x | x in s ensures x <= -m {
      assert -x in negated;
    }
  }

  /** ORDER BY ... ASC LIMIT 1 */
  function Least(s: set<int>): (m: int)
    requires s != {}
    ensures m in s && forall x :: x in s ==> m <= x
  {
    HasLeast(s);
    var m :| m in s && forall x :: x in s ==> m <= x;
    m
  }

  /** ORDER BY ... DESC LIMIT 1 */
  function Greatest(s: set<int>): (m: int)
    requires s != {}
    ensures m in s && forall x :: x in s ==> x <= m
  {
    HasGreatest(s);
    var m :| m in s && forall x :: x in s ==> x <= m;
    m
  }

  /** COALESCE(MAX(...) + 1, 0) */
  function NextIndex(s: set<int>): int {
    if s == {} then 0 else Greatest(s) + 1
  }

  /** ORDER BY ... ASC */
  function InOrder(s: set<int>): seq<int>
    decreases |s|
  {
    if s == {} then [] else
      var m := Least(s);
      assert |s - {m}| < |s|;
      [m] + InOrder(s - {m})
  }

  lemma {:induction false} InOrderMembers(s: set<int>)
    ensures forall k :: 0 <= k < |InOrder(s)| ==> InOrder(s)[k] in s
    decreases |s|
  {
    if s != {} {
      var m := Least(s);
      assert |s - {m}| < |s|;
      InOrderMembers(s - {m});
    }
  }

  /** InOrder lists exactly the members of the set, from the least to the greatest. */
  lemma {:induction false} InOrderIsSorted(s: set<int>)
    ensures |InOrder(s)| == |s| && forall x :: x in InOrder(s) <==> x in s
    ensures forall i, j :: 0 <= i < j < |InOrder(s)| ==> InOrder(s)[i] < InOrder(s)[j]
    decreases |s|
  {
    if s != {} {
      var m := Least(s);
      var rest := s - {m};
      assert |rest| < |s|;
      InOrderIsSorted(rest);
      PrependLeast(s, m, InOrder(rest));
    }
  }

  lemma PrependLeast(s: set<int>, m: int, order: seq<int>)
    requires m in s && forall x :: x in s ==> m <= x
    requires forall x :: x in order <==> x in s && x != m
    requires forall i, j :: 0 <= i < j < |order| ==> order[i] < order[j]
    ensures forall x :: x in [m] + order <==> x in s
    ensures forall i, j :: 0 <= i < j < |order| + 1 ==> ([m] + order)[i] < ([m] + order)[j]
  {
    forall i | 0 <= i < |order| ensures m < order[i] {
      assert order[i] in order;
    }
  }

  function Range(low: int, high: int): (s: set<int>)
    ensures forall k :: k in s <==> low <= k < high
    decreases high - low
  {
    if low >= high then {} else {low} + Range(low + 1, high)
  }

  lemma {:induction false} RangeSize(low: int, high: int)
    requires low <= high
    ensures |Range(low, high)| == high - low
    decreases high - low
  {
    if low == high {
      assert Range(low, high) == {};
    } else {
      RangeSize(low + 1, high);
      assert Range(low, high) == {low} + Range(low + 1, high);
    }
  }

  lemma NextIndexOfRange(n: nat)
    ensures NextIndex(Range(0, n)) == n
  {
    if n > 0 { assert n - 1 in Range(0, n); }
  }

  /** Rows with contiguous indices come out in index order, each at the position of its index. */
  lemma {:induction false} InOrderOfRange(low: int, high: int)
    requires low <= high
    ensures |InOrder(Range(low, high))| == high - low
    ensures forall k :: 0 <= k < high - low ==> InOrder(Range(low, high))[k] == low + k
    decreases high - low
  {
    if low < high {
      assert low in Range(low, high);
      assert Least(Range(low, high)) == low;
      assert Range(low, high) - {low} == Range(low + 1, high);
      InOrderOfRange(low + 1, high);
    }
  }
}
