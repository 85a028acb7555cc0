/**
  The three table queries the handlers make, stated once over any table:
  `filter_by(col=k).first()` is FirstIndex, `filter_by(col=k).all()` is Where,
  and deleting the row that `.first()` found is RemoveFirst. A column is a
  key function from a row to its value; a table is a sequence of rows in
  insertion order.
*/
module Queries {

  datatype Option<+T> = None | Some(value: T)

  /** Some row of `s` has `k` in the column `key`. */
  predicate HasKey<T, K(==)>(s: seq<T>, key: T -> K, k: K)
  {
    exists j :: 0 <= j < |s| && key(s[j]) == k
  }

  /** No two rows of `s` agree on the column `key` (a UNIQUE column). */
  ghost predicate Distinct<T, K>(s: seq<T>, key: T -> K)
  {
    forall i, j :: 0 <= i < j < |s| ==> key(s[i]) != key(s[j])
  }

  /** The position of the row `filter_by(key=k).first()` returns, if any. */
  function FirstIndex<T, K(==)>(s: seq<T>, key: T -> K, k: K): (r: Option<nat>)
    ensures r.Some? ==> r.value < |s| && key(s[r.value]) == k
    ensures r.Some? ==> forall j :: 0 <= j < r.value ==> key(s[j]) != k
    ensures r.None? <==> !HasKey(s, key, k)
  {
    if |s| == 0 then None
    else if key(s[0]) == k then Some(0)
    else
      match FirstIndex(s[1..], key, k)
      case None =>
        assert forall j :: 1 <= j < |s| ==> s[j] == s[1..][j - 1];
        None
      case Some(i) => Some(i + 1)
  }

  /** The rows `filter_by(key=k).all()` returns, in table order. */
  function Where<T(!new), K(==)>(s: seq<T>, key: T -> K, k: K): (r: seq<T>)
    ensures |r| <= |s|
    ensures multiset(r) <= multiset(s)
    ensures forall x :: x in r ==> key(x) == k
  {
    if |s| == 0 then []
    else
      assert s == [s[0]] + s[1..];
      (if key(s[0]) == k then [s[0]] else []) + Where(s[1..], key, k)
  }

  /** The filter returns exactly the rows keyed `k`. */
  lemma {:induction false} WhereMembers<T(!new), K>(s: seq<T>, key: T -> K, k: K)
    ensures forall x :: x in Where(s, key, k) <==> x in s && key(x) == k
  {
    if |s| > 0 {
      assert s == [s[0]] + s[1..];
      WhereMembers(s[1..], key, k);
    }
  }

  /** The table after deleting the row `filter_by(key=k).first()` found; unchanged when there is none. */
  function RemoveFirst<T(!new), K(==)>(s: seq<T>, key: T -> K, k: K): (r: seq<T>)
    ensures HasKey(s, key, k) ==> |r| == |s| - 1
    ensures !HasKey(s, key, k) ==> r == s
  {
    match FirstIndex(s, key, k)
    case None => s
    case Some(i) => s[..i] + s[i + 1..]
  }

  /**
    Deleting the first row keyed `k` deletes nothing else: the rows left are
    rows of the table, and every row keyed otherwise keeps its multiplicity.
  */
  lemma RemoveFirstKeepsOthers<T(!new), K>(s: seq<T>, key: T -> K, k: K)
    ensures multiset(RemoveFirst(s, key, k)) <= multiset(s)
    ensures forall x :: x in RemoveFirst(s, key, k) ==> x in s
    ensures forall x :: key(x) != k ==> multiset(RemoveFirst(s, key, k))[x] == multiset(s)[x]
  {
    match FirstIndex(s, key, k)
    case None =>
    case Some(i) =>
      var r := s[..i] + s[i + 1..];
      SplitAt(s, i);
      assert multiset(s) == multiset(r) + multiset{s[i]};
      forall x | x in r
        ensures x in s
      {
        assert x in multiset(r);
      }
  }

  lemma {:induction false} WhereAppend<T(!new), K>(s: seq<T>, t: seq<T>, key: T -> K, k: K)
    ensures Where(s + t, key, k) == Where(s, key, k) + Where(t, key, k)
  {
    if |s| == 0 {
      assert s + t == t;
    } else {
      var head := if key(s[0]) == k then [s[0]] else [];
      assert (s + t)[0] == s[0];
      assert (s + t)[1..] == s[1..] + t;
      assert Where(s + t, key, k) == head + Where(s[1..] + t, key, k);
      WhereAppend(s[1..], t, key, k);
      assert Where(s, key, k) == head + Where(s[1..], key, k);
    }
  }

  /** `[x for x in s if key(x) == k][0]` is the row `.first()` finds. */
  lemma {:induction false} WhereHeadIsFirst<T(!new), K>(s: seq<T>, key: T -> K, k: K)
    requires HasKey(s, key, k)
    ensures |Where(s, key, k)| > 0
    ensures Where(s, key, k)[0] == s[FirstIndex(s, key, k).value]
  {
    if key(s[0]) == k {
      assert Where(s, key, k) == [s[0]] + Where(s[1..], key, k);
    } else {
      var j :| 0 <= j < |s| && key(s[j]) == k;
      assert s[1..][j - 1] == s[j];
      WhereHeadIsFirst(s[1..], key, k);
      var i := FirstIndex(s[1..], key, k).value;
      assert FirstIndex(s, key, k) == Some(i + 1);
      assert Where(s, key, k) == Where(s[1..], key, k);
      assert s[1..][i] == s[i + 1];
    }
  }

  /** Appending a row that matches to a table with no match: `.first()` finds the new row. */
  lemma FirstIndexOfAppended<T, K>(s: seq<T>, x: T, key: T -> K, k: K)
    requires !HasKey(s, key, k) && key(x) == k
    ensures FirstIndex(s + [x], key, k) == Some(|s|)
  {
    assert (s + [x])[|s|] == x;
    assert forall j :: 0 <= j < |s| ==> (s + [x])[j] == s[j];
  }

  /** A row with a key not yet present keeps a UNIQUE column unique. */
  lemma DistinctAppend<T, K>(s: seq<T>, x: T, key: T -> K)
    requires Distinct(s, key) && !HasKey(s, key, key(x))
    ensures Distinct(s + [x], key)
  {
  }

  /** Deleting any one row keeps every UNIQUE column unique. */
  lemma DistinctRemoveFirst<T(!new), K, L>(s: seq<T>, key: T -> K, col: T -> L, k: L)
    requires Distinct(s, key)
    ensures Distinct(RemoveFirst(s, col, k), key)
  {
  }

  /** With a UNIQUE column, deleting the row keyed `k` leaves exactly the rows keyed otherwise. */
  lemma RemoveFirstExactly<T(!new), K>(s: seq<T>, key: T -> K, k: K)
    requires Distinct(s, key)
    ensures forall x :: x in RemoveFirst(s, key, k) <==> x in s && key(x) != k
  {
  }

  lemma SplitAt<T>(s: seq<T>, i: nat)
    requires i < |s|
    ensures s == s[..i] + [s[i]] + s[i + 1..]
  {
  }

  /** Deleting a row that the filter `key == k` would not return leaves that filter's result as it was. */
  lemma WhereAfterRemove<T(!new), K, L>(s: seq<T>, key: T -> K, k: K, col: T -> L, c: L)
    requires forall j :: 0 <= j < |s| && col(s[j]) == c ==> key(s[j]) != k
    ensures Where(RemoveFirst(s, col, c), key, k) == Where(s, key, k)
  {
    match FirstIndex(s, col, c)
    case None =>
    case Some(i) =>
      assert key(s[i]) != k;
      SplitAt(s, i);
      WhereDropOne(s[..i], s[i], s[i + 1..], key, k);
  }

  lemma WhereDropOne<T(!new), K>(before: seq<T>, x: T, after: seq<T>, key: T -> K, k: K)
    requires key(x) != k
    ensures Where(before + [x] + after, key, k) == Where(before + after, key, k)
  {
    WhereAppend(before, after, key, k);
    WhereAfterAppend(before, x, key, k);
    WhereAppend(before + [x], after, key, k);
  }

  /** Appending a row adds it at the end of the filter's result when it matches, and changes nothing otherwise. */
  lemma WhereAfterAppend<T(!new), K>(s: seq<T>, x: T, key: T -> K, k: K)
    ensures Where(s + [x], key, k) == Where(s, key, k) + (if key(x) == k then [x] else [])
  {
    assert Where([x], key, k) == (if key(x) == k then [x] else []) by {
      assert [x][1..] == [];
    }
    WhereAppend(s, [x], key, k);
  }

  /** Two tables that hold the same rows keyed `k`, counted with multiplicity, agree on whether one exists. */
  lemma HasKeySameRows<T(!new), K>(s: seq<T>, t: seq<T>, key: T -> K, k: K)
    requires forall x :: key(x) == k ==> multiset(s)[x] == multiset(t)[x]
    ensures HasKey(s, key, k) <==> HasKey(t, key, k)
  {
  }
}
