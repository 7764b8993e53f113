/** Extremes of finite sets of ids and their enumeration in descending order,
    used for "the first matching row" and for `ORDER BY id DESC`. */
module NatSets {

  /** A non-empty set of naturals has a least element: from any element,
      step down to a smaller one while there is one. */
  lemma LeastExists(s: set<nat>, x: nat)
    requires x in s
    ensures exists m :: m in s && forall y :: y in s ==> m <= y
    decreases x
  {
    if y :| y in s && y < x {
      LeastExists(s, y);
    } else {
      assert forall y :: y in s ==> x <= y;
    }
  }

  function Least(s: set<nat>): (m: nat)
    requires s != {}
    ensures m in s && forall x :: x in s ==> m <= x
  {
    var x :| x in s;
    LeastExists(s, x);
    var m :| m in s && forall y :: y in s ==> m <= y;
    m
  }

  predicate StrictlyDecreasing(r: seq<nat>) {
    forall i, j :: 0 <= i < j < |r| ==> r[i] > r[j]
  }

  /** The elements of `s`, largest first: the rest in that order, then the least. */
  function Descending(s: set<nat>): (r: seq<nat>)
    ensures |r| == |s|
    ensures forall x :: x in r <==> x in s
    ensures StrictlyDecreasing(r)
    decreases |s|
  {
    if s == {} then []
    else
      var m := Least(s);
      var rest := Descending(s - {m});
      AppendBelow(rest, m);
      rest + [m]
  }

  lemma AppendBelow(r: seq<nat>, m: nat)
    requires StrictlyDecreasing(r)
    requires forall x :: x in r ==> m < x
    ensures StrictlyDecreasing(r + [m])
    ensures forall x :: x in r + [m] <==> x in r || x == m
  {
    var r' := r + [m];
    assert forall i :: 0 <= i < |r| ==> r'[i] == r[i] && r[i] in r;
  }

  lemma PrependAbove(m: nat, r: seq<nat>)
    requires StrictlyDecreasing(r)
    requires forall x :: x in r ==> x < m
    ensures StrictlyDecreasing([m] + r)
    ensures forall x :: x in [m] + r <==> x == m || x in r
  {
    var r' := [m] + r;
    assert forall i :: 0 < i < |r'| ==> r'[i] == r[i - 1] && r[i - 1] in r;
  }

  lemma LastIsLeast(s: set<nat>, r: seq<nat>)
    requires r != [] && StrictlyDecreasing(r)
    requires forall x :: x in r <==> x in s
    ensures s != {} && Least(s) == r[|r| - 1]
  {
    var last := r[|r| - 1];
    assert last in s;
    forall x | x in s
      ensures last <= x
    {
      var i :| 0 <= i < |r| && r[i] == x;
      assert i == |r| - 1 || r[i] > last;
    }
  }

  lemma FrontEnumeratesRest(s: set<nat>, r: seq<nat>, front: seq<nat>, last: nat)
    requires r == front + [last] && StrictlyDecreasing(r)
    requires forall x :: x in r <==> x in s
    ensures StrictlyDecreasing(front)
    ensures forall x :: x in front <==> x in s - {last}
  {
    assert forall i :: 0 <= i < |front| ==> front[i] == r[i];
    assert r[|r| - 1] == last;
    forall x
      ensures x in front <==> x in s - {last}
    {
      if x in front {
        var i :| 0 <= i < |front| && front[i] == x;
        assert r[i] > last;
      }
      if x in s - {last} {
        var i :| 0 <= i < |r| && r[i] == x;
        assert i != |r| - 1;
        assert front[i] == x;
      }
    }
  }

  /** A strictly decreasing enumeration of a set is the one `Descending` gives. */
  lemma {:induction false} DescendingUnique(s: set<nat>, r: seq<nat>)
    requires StrictlyDecreasing(r)
    requires forall x :: x in r <==> x in s
    ensures r == Descending(s)
    decreases |r|
  {
    if r == [] {
      assert s == {};
    } else {
      var front, last := r[..|r| - 1], r[|r| - 1];
      assert r == front + [last];
      LastIsLeast(s, r);
      FrontEnumeratesRest(s, r, front, last);
      DescendingUnique(s - {last}, front);
    }
  }

  /** Adding an element above all others puts it first. */
  lemma DescendingAddGreatest(s: set<nat>, m: nat)
    requires forall x :: x in s ==> x < m
    ensures Descending(s + {m}) == [m] + Descending(s)
  {
    var d := Descending(s);
    PrependAbove(m, d);
    DescendingUnique(s + {m}, [m] + d);
  }
}
