/** Regrouping the flat rows of a left join into nested objects. Both read paths that do
    this (the account sets with their accounts, and the posts with their statuses) fill a
    JavaScript `Map` keyed by the parent's id: the first row with a new key creates the
    entry, every row whose joined child is present appends that child, and the result is
    the map's values in insertion order. */
module Grouping {
  import opened Common

  /** One joined row: the parent's key and columns, and the child, absent when the left
      join found none. */
  datatype Row<P, C> = Row(key: int, parent: P, child: Option<C>)

  /** A parent with the children gathered under it. */
  datatype Group<P, C> = Group(key: int, parent: P, children: seq<C>)

  /** Some row carries key `key`. */
  ghost predicate Occurs<P, C>(rows: seq<Row<P, C>>, key: int) {
    exists i :: 0 <= i < |rows| && rows[i].key == key
  }

  /** The distinct keys of `rows`, each where it first appears. */
  function Keys<P, C>(rows: seq<Row<P, C>>): seq<int>
  {
    if rows == [] then []
    else
      var init := Keys(rows[..|rows| - 1]);
      var key := rows[|rows| - 1].key;
      if key in init then init else init + [key]
  }

  /** The children joined to key `key`, in row order. */
  function Children<P, C>(rows: seq<Row<P, C>>, key: int): seq<C>
  {
    if rows == [] then []
    else
      var last := rows[|rows| - 1];
      Children(rows[..|rows| - 1], key) + (if last.key == key && last.child.Some? then [last.child.value] else [])
  }

  /** Where key `key` first appears. */
  function FirstIndex<P, C>(rows: seq<Row<P, C>>, key: int): (i: nat)
    requires key in Keys(rows)
    ensures i < |rows| && rows[i].key == key
    ensures forall j :: 0 <= j < i ==> rows[j].key != key
  {
    var init := rows[..|rows| - 1];
    if key in Keys(init) then
      FirstIndex(init, key)
    else
      KeysOccur(init);
      |rows| - 1
  }

  /** The grouping the loop below computes: one group per key, in first-seen order, with
      the parent columns of the key's first row and the children of all its rows. */
  function Grouped<P, C>(rows: seq<Row<P, C>>): seq<Group<P, C>>
  {
    var keys := Keys(rows);
    seq(|keys|, i requires 0 <= i < |keys| =>
      Group(keys[i], rows[FirstIndex(rows, keys[i])].parent, Children(rows, keys[i])))
  }

  /** The `Map`-filling loop, then `Array.from(map.values())`. */
  method GroupRows<P, C>(rows: seq<Row<P, C>>) returns (groups: seq<Group<P, C>>)
    ensures groups == Grouped(rows)
  {
    var order: seq<int> := [];
    var byKey: map<int, Group<P, C>> := map[];
    for i := 0 to |rows|
      invariant order == Keys(rows[..i])
      invariant forall k :: k in byKey <==> k in order
      invariant forall k :: k in byKey ==>
        byKey[k] == Group(k, rows[FirstIndex(rows[..i], k)].parent, Children(rows[..i], k))
    {
      var row := rows[i];
      assert rows[..i + 1][..i] == rows[..i];
      if row.key !in byKey {
        UnseenHasNoChildren(rows[..i], row.key);
        byKey := byKey[row.key := Group(row.key, row.parent, [])];
        order := order + [row.key];
      }
      if row.child.Some? {
        var g := byKey[row.key];
        byKey := byKey[row.key := g.(children := g.children + [row.child.value])];
      }
    }
    assert rows[..|rows|] == rows;
    forall j | 0 <= j < |order|
      ensures order[j] in byKey
    {
      assert order[j] in order;
      assert forall k :: k in order ==> k in byKey;
    }
    groups := seq(|order|, j requires 0 <= j < |order| => byKey[order[j]]);
  }

  /** The children of a key are exactly the children present in its rows. */
  lemma {:induction false} ChildrenMembers<P, C>(rows: seq<Row<P, C>>, key: int)
    ensures forall c :: c in Children(rows, key) <==>
      exists i :: 0 <= i < |rows| && rows[i].key == key && rows[i].child == Some(c)
  {
    if rows != [] {
      var init := rows[..|rows| - 1];
      ChildrenMembers(init, key);
      forall c
        ensures c in Children(rows, key) <==>
          exists i :: 0 <= i < |rows| && rows[i].key == key && rows[i].child == Some(c)
      {
        if exists i :: 0 <= i < |rows| && rows[i].key == key && rows[i].child == Some(c) {
          var i :| 0 <= i < |rows| && rows[i].key == key && rows[i].child == Some(c);
          if i < |init| {
            assert init[i] == rows[i];
          }
        }
        if c in Children(init, key) {
          var i :| 0 <= i < |init| && init[i].key == key && init[i].child == Some(c);
          assert rows[i] == init[i];
        }
      }
    }
  }

  /** A key that never appears has no children. */
  lemma {:induction false} UnseenHasNoChildren<P, C>(rows: seq<Row<P, C>>, key: int)
    requires key !in Keys(rows)
    ensures Children(rows, key) == []
  {
    if rows != [] {
      var init := rows[..|rows| - 1];
      assert key !in Keys(init);
      UnseenHasNoChildren(init, key);
    }
  }

  /** The keys are exactly the keys that occur in the rows: a row without a child still
      creates its parent's entry. */
  lemma {:induction false} KeysOccur<P, C>(rows: seq<Row<P, C>>)
    ensures forall k :: k in Keys(rows) <==> Occurs(rows, k)
  {
    if rows != [] {
      var init := rows[..|rows| - 1];
      KeysOccur(init);
      forall k
        ensures k in Keys(rows) <==> Occurs(rows, k)
      {
        if Occurs(rows, k) {
          var i :| 0 <= i < |rows| && rows[i].key == k;
          if i < |init| {
            assert init[i].key == k;
          }
        }
        if k in Keys(init) {
          var i :| 0 <= i < |init| && init[i].key == k;
          assert rows[i].key == k;
        }
      }
    }
  }

  /** No key is listed twice. */
  lemma {:induction false} KeysDistinct<P, C>(rows: seq<Row<P, C>>)
    ensures forall i, j :: 0 <= i < j < |Keys(rows)| ==> Keys(rows)[i] != Keys(rows)[j]
  {
    if rows != [] {
      KeysDistinct(rows[..|rows| - 1]);
    }
  }

  /** Keys are listed in the order of their first appearance. */
  lemma {:induction false} KeysInFirstSeenOrder<P, C>(rows: seq<Row<P, C>>)
    ensures forall i, j :: 0 <= i < j < |Keys(rows)| ==>
      FirstIndex(rows, Keys(rows)[i]) < FirstIndex(rows, Keys(rows)[j])
  {
    if rows != [] {
      var init := rows[..|rows| - 1];
      KeysInFirstSeenOrder(init);
      forall k | k in Keys(init)
        ensures FirstIndex(rows, k) == FirstIndex(init, k)
      {
      }
    }
  }

  /** Children keep row order: the rows of a prefix contribute before those after it. */
  lemma {:induction false} ChildrenAppend<P, C>(front: seq<Row<P, C>>, back: seq<Row<P, C>>, key: int)
    ensures Children(front + back, key) == Children(front, key) + Children(back, key)
  {
    if back != [] {
      var rows := front + back;
      var init := back[..|back| - 1];
      assert rows[..|rows| - 1] == front + init;
      ChildrenAppend(front, init, key);
    } else {
      assert front + back == front;
    }
  }

  /** There are never more groups than rows. */
  lemma {:induction false} GroupedNoLonger<P, C>(rows: seq<Row<P, C>>)
    ensures |Grouped(rows)| <= |rows|
  {
    if rows != [] {
      GroupedNoLonger(rows[..|rows| - 1]);
    }
  }
}
