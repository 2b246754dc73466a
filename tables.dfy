/** Primary keys of a SQLite table whose `id INTEGER PRIMARY KEY` is an alias of the rowid:
    a scan meets rows in increasing key order, a row inserted without a key gets one
    more than the largest key present (1 in an empty table), and inserting an existing
    key is a constraint violation. */
module Tables {
  import opened Models

  lemma {:induction false} LeastExists(s: set<int>)
    requires s != {}
    ensures exists m :: m in s && forall x :: x in s ==> m <= x
  {
    if forall x :: x !in s { assert false; }
    var y :| y in s;
    var rest := s - {y};
    if rest != {} {
      LeastExists(rest);
      var m :| m in rest && forall x :: x in rest ==> m <= x;
      var least := if y < m then y else m;
      forall x | x in s ensures least <= x {
        if x != y { assert x in rest; }
      }
    } else {
      assert s == {y};
    }
  }

  /** The greatest element of `s` is the negation of the least element of its negation. */
  lemma GreatestExists(s: set<int>)
    requires s != {}
    ensures exists m :: m in s && forall x :: x in s ==> x <= m
  {
    var negated := set x | x in s :: -x;
    if forall x :: x !in s { assert false; }
    var y :| y in s;
    assert -y in negated;
    LeastExists(negated);
    var m :| m in negated && forall x :: x in negated ==> m <= x;
    forall x | x in s ensures x <= -m {
      assert -x in negated;
    }
    assert -m in s;
  }

  /** The least key of a non-empty key set: the row a scan meets first. */
  function Least(s: set<int>): (m: int)
    requires s != {}
    ensures m in s && forall x :: x in s ==> m <= x
  {
    LeastExists(s);
    var m :| m in s && forall x :: x in s ==> m <= x; m
  }

  /** The greatest key of a non-empty key set. */
  function Greatest(s: set<int>): (m: int)
    requires s != {}
    ensures m in s && forall x :: x in s ==> x <= m
  {
    GreatestExists(s);
    var m :| m in s && forall x :: x in s ==> x <= m; m
  }

  /** The key SQLite assigns to a row inserted without one. */
  function FreshKey(keys: set<int>): (k: int)
    ensures k !in keys && forall x :: x in keys ==> x < k
    ensures keys == {} ==> k == 1
  {
    if keys == {} then 1 else Greatest(keys) + 1
  }

  /** The key an insert uses: the requested one, unless it is taken (then the insert
      fails), or a fresh one when none is requested. */
  function AllocateKey(keys: set<int>, requested: Option<int>): (r: Option<int>)
    ensures r.None? <==> requested.Some? && requested.value in keys
    ensures r.Some? ==> r.value !in keys
    ensures r.Some? && requested.Some? ==> r == requested
    ensures requested.None? ==> r == Some(FreshKey(keys))
  {
    match requested
    case None => Some(FreshKey(keys))
    case Some(k) => if k in keys then None else Some(k)
  }

  /** Deleting the row with the largest key, when the keys below it are 1, 2, ... without
      a gap, hands that same key to the next row inserted without one. */
  lemma {:induction false} DeletedGreatestKeyIsReused(keys: set<int>, k: int)
    requires k in keys
    requires forall x :: x in keys ==> 1 <= x <= k
    requires forall x :: 1 <= x <= k ==> x in keys
    ensures FreshKey(keys - {k}) == k
  {
    var rest := keys - {k};
    if rest == {} {
      assert 1 in keys;
    } else {
      var g := Greatest(rest);
      assert k - 1 in rest;
      assert g == k - 1;
    }
  }
}
