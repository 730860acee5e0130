/** The child tables of categories and entries (`flavors`, `entries_flavors`, `entries_extras`,
    `photos`): inserting a list for an owner, deleting an owner's rows, selecting them back, and
    the "replace only when the incoming list is non-empty" rule of the update helpers. */
module ChildTables {
  import opened Schema

  /** The rows a `foreach` of single-row INSERTs adds for `owner`, in list order. */
  function Owned<T>(owner: int, items: seq<T>): seq<Child<T>>
  {
    seq(|items|, k requires 0 <= k < |items| => Child(owner, items[k]))
  }

  /** `DELETE FROM <table> WHERE <owner> = ?`. */
  function WithoutOwner<T(==,!new)>(rows: seq<Child<T>>, owner: int): (r: seq<Child<T>>)
    ensures forall c :: c in r <==> c in rows && c.owner != owner
  {
    if rows == [] then []
    else
      var rest := WithoutOwner(rows[1..], owner);
      assert forall c :: c in rows <==> c == rows[0] || c in rows[1..];
      if rows[0].owner == owner then rest else [rows[0]] + rest
  }

  /** `SELECT <columns> FROM <table> WHERE <owner> = ?`, fetched in table order. */
  function OwnedItems<T>(rows: seq<Child<T>>, owner: int): seq<T>
  {
    if rows == [] then []
    else (if rows[0].owner == owner then [rows[0].data] else []) + OwnedItems(rows[1..], owner)
  }

  /** An update helper (`updateEntryFlavors`, `updateEntryPhotos`, `updateCatFlavors`, ...):
      an empty incoming list returns early; otherwise the owner's rows are deleted and the
      list is inserted. */
  function Replace<T(==,!new)>(rows: seq<Child<T>>, owner: int, items: seq<T>): seq<Child<T>>
  {
    if items == [] then rows else WithoutOwner(rows, owner) + Owned(owner, items)
  }

  lemma {:induction false} OwnedItemsAppend<T>(a: seq<Child<T>>, b: seq<Child<T>>, owner: int)
    ensures OwnedItems(a + b, owner) == OwnedItems(a, owner) + OwnedItems(b, owner)
  {
    if a != [] {
      assert (a + b)[1..] == a[1..] + b;
      OwnedItemsAppend(a[1..], b, owner);
    } else {
      assert a + b == b;
    }
  }

  lemma {:induction false} OwnedItemsOfOwned<T>(owner: int, items: seq<T>, other: int)
    ensures OwnedItems(Owned(owner, items), other) == if other == owner then items else []
  {
    if items != [] {
      assert Owned(owner, items)[1..] == Owned(owner, items[1..]);
      OwnedItemsOfOwned(owner, items[1..], other);
      assert items == [items[0]] + items[1..];
    }
  }

  lemma {:induction false} OwnedItemsWithoutOwner<T(!new)>(rows: seq<Child<T>>, owner: int, other: int)
    ensures OwnedItems(WithoutOwner(rows, owner), other) == if other == owner then [] else OwnedItems(rows, other)
  {
    if rows != [] {
      OwnedItemsWithoutOwner(rows[1..], owner, other);
      var rest := WithoutOwner(rows[1..], owner);
      if rows[0].owner != owner {
        assert WithoutOwner(rows, owner) == [rows[0]] + rest;
        assert ([rows[0]] + rest)[1..] == rest;
      }
    }
  }

  /** Reading an owner's children back after an update helper gives the incoming list when it
      was non-empty, and the stored children when it was empty. */
  lemma ReplaceThenSelect<T(!new)>(rows: seq<Child<T>>, owner: int, items: seq<T>)
    ensures OwnedItems(Replace(rows, owner, items), owner)
         == if items == [] then OwnedItems(rows, owner) else items
  {
    if items != [] {
      OwnedItemsAppend(WithoutOwner(rows, owner), Owned(owner, items), owner);
      OwnedItemsWithoutOwner(rows, owner, owner);
      OwnedItemsOfOwned(owner, items, owner);
    }
  }

  /** An update helper leaves the children of every other owner as they were. */
  lemma ReplaceKeepsOthers<T(!new)>(rows: seq<Child<T>>, owner: int, items: seq<T>, other: int)
    requires other != owner
    ensures OwnedItems(Replace(rows, owner, items), other) == OwnedItems(rows, other)
  {
    if items != [] {
      OwnedItemsAppend(WithoutOwner(rows, owner), Owned(owner, items), other);
      OwnedItemsWithoutOwner(rows, owner, other);
      OwnedItemsOfOwned(owner, items, other);
    }
  }

  /** The `while($stmt->fetch())` loop of a child SELECT, appending one record per row. */
  method SelectOwned<T>(rows: seq<Child<T>>, owner: int) returns (items: seq<T>)
    ensures items == OwnedItems(rows, owner)
  {
    items := [];
    var i := 0;
    while i < |rows|
      invariant 0 <= i <= |rows|
      invariant items == OwnedItems(rows[..i], owner)
    {
      OwnedItemsAppend(rows[..i], [rows[i]], owner);
      assert rows[..i + 1] == rows[..i] + [rows[i]];
      if rows[i].owner == owner {
        items := items + [rows[i].data];
      }
      i := i + 1;
    }
    assert rows[..|rows|] == rows;
  }
}
