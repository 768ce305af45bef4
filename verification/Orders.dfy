/** Ordered sets of numbers: iterating a set in increasing order, as `BTreeSet` does. */
module Orders {
  predicate Increasing(s: seq<nat>) {
    forall i, j :: 0 <= i < j < |s| ==> s[i] < s[j]
  }

  /** A set with an element at or below n has a least element. */
  lemma {:induction false} LeastExists(s: set<nat>, n: nat)
    requires exists x :: x in s && x <= n
    ensures exists m :: m in s && forall y :: y in s ==> m <= y
  {
    if x :| x in s && x < n {
      LeastExists(s, n - 1);
    } else {
      assert n in s;
    }
  }

  function MinOf(s: set<nat>): (m: nat)
    requires s != {}
    ensures m in s && forall y :: y in s ==> m <= y
  {
    assert exists m :: m in s && forall y :: y in s ==> m <= y by {
      var x :| x in s;
      LeastExists(s, x);
    }
    var m :| m in s && forall y :: y in s ==> m <= y;
    m
  }

  function InOrder(s: set<nat>): (r: seq<nat>)
    ensures Increasing(r)
    ensures forall x :: x in r <==> x in s
  {
    if s == {} then []
    else
      var m := MinOf(s);
      [m] + InOrder(s - {m})
  }

  lemma HasElement(s: seq<nat>)
    ensures s != [] ==> exists x :: x in s
  {
    if s != [] {
      assert s[0] in s;
    }
  }

  /** An increasing sequence is determined by its elements. */
  lemma {:induction false} IncreasingUnique(a: seq<nat>, b: seq<nat>)
    requires Increasing(a) && Increasing(b)
    requires forall x :: x in a <==> x in b
    ensures a == b
  {
    if a == [] || b == [] {
      HasElement(a);
      HasElement(b);
    } else {
      assert a[0] in b && b[0] in a;
      assert a[0] == b[0];
      forall x ensures x in a[1..] <==> x in b[1..] {
        assert x in a[1..] <==> x in a && x != a[0];
        assert x in b[1..] <==> x in b && x != b[0];
      }
      IncreasingUnique(a[1..], b[1..]);
      assert a == [a[0]] + a[1..] && b == [b[0]] + b[1..];
    }
  }
}
