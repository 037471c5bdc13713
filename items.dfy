/**
 The value side of the item API: the `Item` record, the two request bodies
 (`ItemCreate`, `ItemUpdate`) with the field constraints the request
 validator enforces, the first-match scan by id, and the registry invariant
 stated over a plain sequence of items, with the lemmas that every registry
 operation keeps it.
 */
module Items {

  datatype Option<+T> = None | Some(value: T) {
    /** The carried value, or `default` when there is none (a dictionary `get` with a default). */
    function GetOr(default: T): (r: T) {
      match this
      case Some(v) => v
      case None => default
    }
  }

  /** A stored item. Its `id` is assigned by the registry and never changes. */
  datatype Item = Item(id: int, name: string, quantity: int)

  /** Body of a create request: both fields are required. */
  datatype ItemCreate = ItemCreate(name: string, quantity: int)

  /** Body of an update request: `None` means the field was omitted. */
  datatype ItemUpdate = ItemUpdate(name: Option<string>, quantity: Option<int>)

  const MinNameLength: nat := 1
  const MaxNameLength: nat := 100

  predicate ValidName(name: string) {
    MinNameLength <= |name| <= MaxNameLength
  }

  predicate ValidQuantity(quantity: int) {
    quantity >= 0
  }

  predicate ValidItem(x: Item) {
    ValidName(x.name) && ValidQuantity(x.quantity)
  }

  /**
   The create body passes validation: name length in [1,100], quantity not
   negative. These are exactly the constraints a stored item must meet.
   */
  predicate CreateAccepted(c: ItemCreate)
    ensures CreateAccepted(c) <==> ValidItem(Item(0, c.name, c.quantity))
  {
    ValidName(c.name) && ValidQuantity(c.quantity)
  }

  /** The update body passes validation: each supplied field meets the create constraint. */
  predicate UpdateAccepted(u: ItemUpdate)
    ensures u.name == None && u.quantity == None ==> UpdateAccepted(u)
    ensures u.name.Some? && u.quantity.Some? ==>
      (UpdateAccepted(u) <==> CreateAccepted(ItemCreate(u.name.value, u.quantity.value)))
  {
    (u.name.Some? ==> ValidName(u.name.value)) &&
    (u.quantity.Some? ==> ValidQuantity(u.quantity.value))
  }

  /**
   The position of the first item whose id is `id`, or `None` when no item
   has it. This is the scan the get, update and delete handlers run.
   */
  function IndexOf(items: seq<Item>, id: int): (r: Option<nat>)
    ensures r.Some? ==> r.value < |items| && items[r.value].id == id
    ensures r.Some? ==> forall k :: 0 <= k < r.value ==> items[k].id != id
    ensures r.None? <==> forall k :: 0 <= k < |items| ==> items[k].id != id
  {
    if |items| == 0 then None
    else if items[0].id == id then Some(0)
    else match IndexOf(items[1..], id)
      case None => None
      case Some(j) => Some(j + 1)
  }

  /** A position holding `id` with no earlier position holding it is what `IndexOf` returns. */
  lemma IndexOfIsFirst(items: seq<Item>, id: int, i: nat)
    requires i < |items| && items[i].id == id
    requires forall k :: 0 <= k < i ==> items[k].id != id
    ensures IndexOf(items, id) == Some(i)
  {
  }

  /** The item passed to an update with every supplied field overwritten and the id kept. */
  function ApplyUpdate(x: Item, u: ItemUpdate): (r: Item)
    ensures r.id == x.id
    ensures u.name == None ==> r.name == x.name
    ensures u.name.Some? ==> r.name == u.name.value
    ensures u.quantity == None ==> r.quantity == x.quantity
    ensures u.quantity.Some? ==> r.quantity == u.quantity.value
    ensures ValidItem(x) && UpdateAccepted(u) ==> ValidItem(r)
  {
    Item(x.id, u.name.GetOr(x.name), u.quantity.GetOr(x.quantity))
  }

  /** The sequence with position `i` taken out and the rest kept in order (a list `pop(i)`). */
  function RemoveAt(s: seq<Item>, i: nat): (r: seq<Item>)
    requires i < |s|
    ensures |r| == |s| - 1
    ensures forall k :: 0 <= k < i ==> r[k] == s[k]
    ensures forall k :: i <= k < |r| ==> r[k] == s[k + 1]
    ensures multiset(r) + multiset{s[i]} == multiset(s)
  {
    assert s == s[..i] + [s[i]] + s[i + 1..];
    s[..i] + s[i + 1..]
  }

  ghost predicate DistinctIds(items: seq<Item>) {
    forall a, b :: 0 <= a < b < |items| ==> items[a].id != items[b].id
  }

  /**
   The registry invariant: ids are pairwise distinct, every id is below the
   next id to hand out, and every stored item meets the field constraints.
   */
  ghost predicate WellFormed(items: seq<Item>, nextId: int) {
    DistinctIds(items) &&
    (forall k :: 0 <= k < |items| ==> items[k].id < nextId) &&
    (forall k :: 0 <= k < |items| ==> ValidItem(items[k]))
  }

  /** The three items the registry starts with. */
  function SeedItems(): (s: seq<Item>) {
    [Item(1, "Apple", 42), Item(2, "Banana", 25), Item(3, "Orange", 30)]
  }

  const SeedNextId: int := 4

  /** The seed state meets the invariant. */
  lemma SeedWellFormed()
    ensures WellFormed(SeedItems(), SeedNextId)
  {
  }

  /** With the invariant, the scan for an id that some item holds finds that very item. */
  lemma IndexOfStored(items: seq<Item>, nextId: int, i: nat)
    requires WellFormed(items, nextId) && i < |items|
    ensures IndexOf(items, items[i].id) == Some(i)
  {
  }

  /** The next id is held by no stored item, so a create never reuses a live id. */
  lemma NextIdAbsent(items: seq<Item>, nextId: int)
    requires WellFormed(items, nextId)
    ensures IndexOf(items, nextId) == None
  {
  }

  /**
   Appending a valid item that carries the next id and then advancing the
   counter keeps the invariant, and the scan for the new id finds it at the end.
   */
  lemma AppendKeepsWellFormed(items: seq<Item>, nextId: int, x: Item)
    requires WellFormed(items, nextId)
    requires x.id == nextId && ValidItem(x)
    ensures WellFormed(items + [x], nextId + 1)
    ensures IndexOf(items + [x], x.id) == Some(|items|)
  {
    var s := items + [x];
    forall k | 0 <= k < |items| ensures s[k].id != x.id {
      assert s[k] == items[k];
    }
    IndexOfIsFirst(s, x.id, |items|);
  }

  /** Overwriting position `i` with a valid item of the same id keeps the invariant. */
  lemma ReplaceKeepsWellFormed(items: seq<Item>, nextId: int, i: nat, x: Item)
    requires WellFormed(items, nextId) && i < |items|
    requires x.id == items[i].id && ValidItem(x)
    ensures WellFormed(items[i := x], nextId)
  {
  }

  /** Overwriting an item with one of the same id moves no id: every scan returns what it did. */
  lemma ReplaceKeepsIndexOf(items: seq<Item>, i: nat, x: Item, id: int)
    requires i < |items| && x.id == items[i].id
    ensures IndexOf(items[i := x], id) == IndexOf(items, id)
  {
    var s := items[i := x];
    assert forall k :: 0 <= k < |items| ==> s[k].id == items[k].id;
    match IndexOf(items, id)
    case None =>
    case Some(j) => IndexOfIsFirst(s, id, j);
  }

  /** Removing position `i` keeps the invariant. */
  lemma RemoveKeepsWellFormed(items: seq<Item>, nextId: int, i: nat)
    requires WellFormed(items, nextId) && i < |items|
    ensures WellFormed(RemoveAt(items, i), nextId)
  {
  }

  /** After removing the item at position `i`, no item holds its id any more. */
  lemma RemoveDropsId(items: seq<Item>, nextId: int, i: nat)
    requires WellFormed(items, nextId) && i < |items|
    ensures IndexOf(RemoveAt(items, i), items[i].id) == None
  {
  }

  /**
   Removing position `i` leaves every other id where the scan finds the same
   item as before, one place earlier when it stood after `i`.
   */
  lemma RemoveKeepsOtherIndexOf(items: seq<Item>, i: nat, id: int)
    requires i < |items| && items[i].id != id
    ensures IndexOf(items, id).None? ==> IndexOf(RemoveAt(items, i), id).None?
    ensures IndexOf(items, id).Some? ==>
      var j := IndexOf(items, id).value;
      IndexOf(RemoveAt(items, i), id) == Some(if j < i then j else j - 1)
  {
    var s := RemoveAt(items, i);
    match IndexOf(items, id)
    case None =>
      forall k | 0 <= k < |s| ensures s[k].id != id {
        assert s[k] == items[if k < i then k else k + 1];
      }
    case Some(j) =>
      var j' := if j < i then j else j - 1;
      assert s[j'] == items[j];
      forall k | 0 <= k < j' ensures s[k].id != id {
        assert s[k] == items[if k < i then k else k + 1];
      }
      IndexOfIsFirst(s, id, j');
  }

  /** Applying the same update twice gives what applying it once gave. */
  lemma ApplyUpdateIdempotent(x: Item, u: ItemUpdate)
    ensures ApplyUpdate(ApplyUpdate(x, u), u) == ApplyUpdate(x, u)
  {
  }
}
