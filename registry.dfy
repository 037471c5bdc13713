/**
 The in-memory item registry behind the HTTP handlers: an ordered list of
 items and the counter that hands out ids. The five handlers (list, create,
 get, update, delete) are methods of `Registry`; request validation, which
 the framework runs before a handler, is the first step of create and update.
 */
module Store {
  import opened Items

  /** What a handler call comes to: a value, a 404 or a 422. */
  datatype Outcome<+T> = Ok(value: T) | NotFound | ValidationError

  /** The five item endpoints. */
  datatype Endpoint = ListItems | CreateItem | GetItem | UpdateItem | DeleteItem

  /** The status code a success on `e` is reported with. */
  function SuccessCode(e: Endpoint): (code: int)
    ensures 200 <= code < 300
    ensures code == 201 <==> e == CreateItem
    ensures code == 204 <==> e == DeleteItem
    ensures e != CreateItem && e != DeleteItem ==> code == 200
  {
    match e
    case CreateItem => 201
    case DeleteItem => 204
    case _ => 200
  }

  /** The HTTP status code of outcome `r` of a call to endpoint `e`. */
  function StatusCode<T>(e: Endpoint, r: Outcome<T>): (code: int)
    ensures r.Ok? <==> 200 <= code < 300
    ensures r.Ok? ==> code == SuccessCode(e)
    ensures r.NotFound? <==> code == 404
    ensures r.ValidationError? <==> code == 422
  {
    match r
    case Ok(_) => SuccessCode(e)
    case NotFound => 404
    case ValidationError => 422
  }

  class Registry {
    /** The live items in insertion order. */
    var items: seq<Item>
    /** The id the next created item is given. */
    var nextId: int
    /** Every id ever handed out, including those of items since deleted. */
    ghost var issued: set<int>

    ghost predicate Valid()
      reads this
    {
      WellFormed(items, nextId) &&
      (forall k :: 0 <= k < |items| ==> items[k].id in issued) &&
      (forall x :: x in issued ==> x < nextId)
    }

    /** The registry as the process starts: the three seed items, next id 4. */
    constructor ()
      ensures Valid()
      ensures items == SeedItems() && nextId == SeedNextId
      ensures issued == {1, 2, 3}
    {
      items := SeedItems();
      nextId := SeedNextId;
      issued := {1, 2, 3};
      SeedWellFormed();
    }

    /** The health check's item count. */
    method ItemsCount() returns (n: nat)
      ensures n == |items|
    {
      n := |items|;
    }

    /** List: every live item, in insertion order, unmodified. */
    method GetAll() returns (r: seq<Item>)
      ensures r == items
    {
      r := items;
    }

    /** The first-match scan by id. */
    method FindIndex(id: int) returns (r: Option<nat>)
      ensures r == IndexOf(items, id)
    {
      var i := 0;
      while i < |items|
        invariant 0 <= i <= |items|
        invariant forall k :: 0 <= k < i ==> items[k].id != id
      {
        if items[i].id == id {
          IndexOfIsFirst(items, id, i);
          return Some(i);
        }
        i := i + 1;
      }
      r := None;
    }

    /** Get: the first item with id `id`, or NotFound when there is none. */
    method Get(id: int) returns (r: Outcome<Item>)
      ensures r.Ok? || r.NotFound?
      ensures r.NotFound? <==> forall k :: 0 <= k < |items| ==> items[k].id != id
      ensures r.Ok? ==> r.value.id == id && r.value == items[IndexOf(items, id).value]
      ensures Valid() ==> forall k :: 0 <= k < |items| && items[k].id == id ==> r == Ok(items[k])
    {
      forall k | Valid() && 0 <= k < |items| ensures IndexOf(items, items[k].id) == Some(k) {
        IndexOfStored(items, nextId, k);
      }
      var idx := FindIndex(id);
      match idx
      case None => r := NotFound;
      case Some(i) => r := Ok(items[i]);
    }

    /**
     Create: a 422 for a body that fails validation; otherwise the new item
     gets the current counter as its id, goes to the end, and the counter
     moves up by one.
     */
    method Create(body: ItemCreate) returns (r: Outcome<Item>)
      requires Valid()
      modifies this
      ensures Valid()
      ensures !CreateAccepted(body) ==>
        r == ValidationError && items == old(items) && nextId == old(nextId) && issued == old(issued)
      ensures CreateAccepted(body) ==>
        && r == Ok(Item(old(nextId), body.name, body.quantity))
        && items == old(items) + [r.value]
        && nextId == old(nextId) + 1
        && old(nextId) !in old(issued)
        && issued == old(issued) + {old(nextId)}
        && (forall x :: x in old(issued) ==> x < r.value.id)
      ensures CreateAccepted(body) ==> old(IndexOf(items, nextId)).None?
      ensures CreateAccepted(body) ==> IndexOf(items, r.value.id) == Some(|old(items)|)
    {
      if !CreateAccepted(body) {
        return ValidationError;
      }
      NextIdAbsent(items, nextId);
      var item := Item(nextId, body.name, body.quantity);
      AppendKeepsWellFormed(items, nextId, item);
      items := items + [item];
      issued := issued + {nextId};
      nextId := nextId + 1;
      r := Ok(item);
    }

    /**
     Update: a 422 for a body that fails validation (checked before the
     lookup), a 404 for an absent id, and otherwise the first item with the
     id is rebuilt in place with the supplied fields and its own id.
     */
    method Update(id: int, body: ItemUpdate) returns (r: Outcome<Item>)
      requires Valid()
      modifies this
      ensures Valid()
      ensures nextId == old(nextId) && issued == old(issued)
      ensures !UpdateAccepted(body) ==> r == ValidationError && items == old(items)
      ensures UpdateAccepted(body) && old(IndexOf(items, id)).None? ==>
        r == NotFound && items == old(items)
      ensures UpdateAccepted(body) && old(IndexOf(items, id)).Some? ==>
        var i := old(IndexOf(items, id)).value;
        && r == Ok(ApplyUpdate(old(items)[i], body))
        && items == old(items)[i := r.value]
      ensures forall x :: IndexOf(items, x) == old(IndexOf(items, x))
    {
      if !UpdateAccepted(body) {
        return ValidationError;
      }
      var idx := FindIndex(id);
      if idx.None? {
        return NotFound;
      }
      var i := idx.value;
      var updated := ApplyUpdate(items[i], body);
      ReplaceKeepsWellFormed(items, nextId, i, updated);
      forall x ensures IndexOf(items[i := updated], x) == IndexOf(items, x) {
        ReplaceKeepsIndexOf(items, i, updated, x);
      }
      items := items[i := updated];
      r := Ok(updated);
    }

    /**
     Delete: a 404 for an absent id; otherwise the first item with the id is
     taken out, the others keep their order, and the counter stays, so the
     freed id is never handed out again.
     */
    method Delete(id: int) returns (r: Outcome<()>)
      requires Valid()
      modifies this
      ensures Valid()
      ensures nextId == old(nextId) && issued == old(issued)
      ensures r.Ok? || r.NotFound?
      ensures old(IndexOf(items, id)).None? ==> r == NotFound && items == old(items)
      ensures old(IndexOf(items, id)).Some? ==>
        && r == Ok(())
        && items == RemoveAt(old(items), old(IndexOf(items, id)).value)
        && id in issued
        && IndexOf(items, id).None?
      ensures forall x :: x != id ==> (IndexOf(items, x).None? <==> old(IndexOf(items, x)).None?)
      ensures forall x :: x != id && IndexOf(items, x).Some? ==>
        items[IndexOf(items, x).value] == old(items)[old(IndexOf(items, x)).value]
    {
      var idx := FindIndex(id);
      if idx.None? {
        return NotFound;
      }
      var i := idx.value;
      RemoveKeepsWellFormed(items, nextId, i);
      RemoveDropsId(items, nextId, i);
      forall x | x != id
        ensures IndexOf(RemoveAt(items, i), x).None? <==> IndexOf(items, x).None?
        ensures IndexOf(RemoveAt(items, i), x).Some? ==>
          RemoveAt(items, i)[IndexOf(RemoveAt(items, i), x).value] == items[IndexOf(items, x).value]
      {
        RemoveKeepsOtherIndexOf(items, i, x);
      }
      items := RemoveAt(items, i);
      r := Ok(());
    }
  }

  /**
   A client session from the seed state: create "Test Item" with quantity 10,
   read it back, change its quantity to 20, delete it and read it again.
   */
  method SeedScenario() {
    var reg := new Registry();
    var created := reg.Create(ItemCreate("Test Item", 10));
    assert created == Ok(Item(4, "Test Item", 10));
    assert StatusCode(CreateItem, created) == 201;

    var got := reg.Get(4);
    assert got == Ok(Item(4, "Test Item", 10));

    var updated := reg.Update(4, ItemUpdate(None, Some(20)));
    assert updated == Ok(Item(4, "Test Item", 20));

    var deleted := reg.Delete(4);
    assert StatusCode(DeleteItem, deleted) == 204;

    var gone := reg.Get(4);
    assert StatusCode(GetItem, gone) == 404;
  }

  /**
   A client session of the rejections: an empty name and a negative quantity are
   refused without touching the registry, an id never handed out is not
   found, and the next create still gets the next id.
   */
  method RejectionScenario() {
    var reg := new Registry();
    var empty := reg.Create(ItemCreate("", 10));
    assert empty == ValidationError;
    var negative := reg.Create(ItemCreate("Test", -1));
    assert negative == ValidationError;
    var missing := reg.Delete(99999);
    assert missing == NotFound;
    var next := reg.Create(ItemCreate("Next", 1));
    assert next == Ok(Item(4, "Next", 1));
  }
}
