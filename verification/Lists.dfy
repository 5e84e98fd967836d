/** Lists without duplicates, as the linked lists of the kernel are used. */
module Lists {

  datatype Option<T> = None | Some(value: T)

  ghost predicate Distinct(s: seq<nat>) {
    forall i, j :: 0 <= i < j < |s| ==> s[i] != s[j]
  }

  /** list_del */
  function Without(s: seq<nat>, x: nat): seq<nat> {
    if s == [] then [] else if s[0] == x then s[1..] else [s[0]] + Without(s[1..], x)
  }

  lemma {:induction false} WithoutIs(s: seq<nat>, x: nat)
    requires Distinct(s)
    ensures Distinct(Without(s, x)) && forall y :: y in Without(s, x) <==> y in s && y != x
    ensures |Without(s, x)| == |s| - if x in s then 1 else 0
  {
    if s != [] {
      assert Distinct(s[1..]) && s == [s[0]] + s[1..];
      if s[0] == x {
        assert x !in s[1..];
      } else {
        WithoutIs(s[1..], x);
        assert s[0] !in s[1..];
        DistinctCons(s[0], Without(s[1..], x));
      }
    }
  }

  lemma WithoutHead(s: seq<nat>)
    requires s != []
    ensures Without(s, s[0]) == s[1..]
  {
  }

  lemma DistinctCons(x: nat, s: seq<nat>)
    requires Distinct(s) && x !in s
    ensures Distinct([x] + s)
  {
  }

  lemma DistinctSnoc(s: seq<nat>, x: nat)
    requires Distinct(s) && x !in s
    ensures Distinct(s + [x])
  {
  }

  /** In the list x comes before y. */
  ghost predicate Ahead(s: seq<nat>, x: nat, y: nat) {
    exists i, j :: 0 <= i < j < |s| && s[i] == x && s[j] == y
  }

  lemma AheadSnoc(s: seq<nat>, x: nat, y: nat, z: nat)
    requires if y == z then x in s else Ahead(s, x, y)
    ensures Ahead(s + [z], x, y)
  {
    var t := s + [z];
    if y == z {
      var i :| 0 <= i < |s| && s[i] == x;
      assert t[i] == x && t[|s|] == y;
    } else {
      var i, j :| 0 <= i < j < |s| && s[i] == x && s[j] == y;
      assert t[i] == x && t[j] == y;
    }
  }

  lemma AheadCons(s: seq<nat>, x: nat, y: nat, z: nat)
    requires if x == z then y in s else Ahead(s, x, y)
    ensures Ahead([z] + s, x, y)
  {
    var t := [z] + s;
    if x == z {
      var j :| 0 <= j < |s| && s[j] == y;
      assert t[0] == x && t[j + 1] == y;
    } else {
      var i, j :| 0 <= i < j < |s| && s[i] == x && s[j] == y;
      assert t[i + 1] == x && t[j + 1] == y;
    }
  }

  /** Taking out another element keeps the order. */
  lemma {:induction false} AheadWithout(s: seq<nat>, x: nat, y: nat, z: nat)
    requires Distinct(s) && Ahead(s, x, y) && z != x && z != y
    ensures Ahead(Without(s, z), x, y)
  {
    var i, j :| 0 <= i < j < |s| && s[i] == x && s[j] == y;
    assert Distinct(s[1..]) && s[1..][j - 1] == y;
    if s[0] == z {
      assert s[1..][i - 1] == x;
    } else {
      if i == 0 {
        WithoutIs(s[1..], z);
        assert y in s[1..];
      } else {
        assert s[1..][i - 1] == x;
        AheadWithout(s[1..], x, y, z);
      }
      AheadCons(Without(s[1..], z), x, y, s[0]);
    }
  }

  /** A set of numbers below n has at most n of them. */
  lemma {:induction false} BoundedSet(s: set<nat>, n: nat)
    requires forall y :: y in s ==> y < n
    ensures |s| <= n
    decreases n
  {
    if n == 0 {
      assert s == {};
    } else {
      BoundedSet(s - {n - 1}, n - 1);
      assert |s| <= |s - {n - 1}| + 1;
    }
  }
}
