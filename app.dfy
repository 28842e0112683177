/**
 * The in-memory item store: the module-level list `items_db` and counter
 * `item_id_counter`, and the five handlers that read and change them.
 */
module App {

  import opened Wrappers
  import opened Items
  import opened History
  import Decimal

  class ItemStore {
    /** `items_db`: the records, in insertion order. */
    var items: seq<Item>
    /** `item_id_counter`: the id the next create hands out. */
    var counter: int
    /** Every mutating call made since process start, found or not. */
    ghost var Requests: seq<Request>

    /**
     * The store's invariant: ids ascend in list order and stay below the
     * counter, the counter is one more than the creates so far, and the list
     * holds exactly the keyed collection the request log leaves behind.
     */
    ghost predicate Valid()
      reads this
    {
      counter == Creates(Requests) + 1
      && Ascending(items)
      && (forall i :: 0 <= i < |items| ==> items[i].id < counter)
      && Listing(items) == Model(Requests)
    }

    /** Process start: an empty list and a counter of 1. */
    constructor ()
      ensures Valid()
      ensures items == [] && counter == 1 && Requests == []
    {
      items := [];
      counter := 1;
      Requests := [];
    }

    /** The linear scan for the first slot holding `id`. */
    method FindIndex(id: int) returns (r: Option<nat>)
      ensures r == FirstIndex(items, id)
    {
      var i := 0;
      while i < |items|
        invariant 0 <= i <= |items|
        invariant forall j :: 0 <= j < i ==> items[j].id != id
      {
        if items[i].id == id {
          return Some(i);
        }
        i := i + 1;
      }
      return None;
    }

    /** `read_items`: the whole list, which is the log's collection in id order. */
    method ReadItems() returns (r: Response<seq<Item>>)
      requires Valid()
      ensures r == Success(Ok, items)
      ensures Ascending(r.body) && Listing(r.body) == Model(Requests)
    {
      r := Success(Ok, items);
    }

    /** `read_item`: the item with that id, or not-found naming the id. */
    method ReadItem(id: int) returns (r: Response<Item>)
      requires Valid()
      ensures r.Success? ==> r.status == Ok && r.body.id == id && r.body in items
      ensures r.NotFound? ==>
                r.detail == NotFoundDetail(id) && forall i :: 0 <= i < |items| ==> items[i].id != id
      ensures r.Success? <==> id in Model(Requests)
      ensures r.Success? ==> r.body == Model(Requests)[id]
    {
      var index := FindIndex(id);
      FirstIndexListing(items, id);
      match index
      case None =>
        r := NotFound(NotFoundDetail(id));
      case Some(i) =>
        r := Success(Ok, items[i]);
    }

    /**
     * `create_item`: the new record takes the current counter as its id, goes
     * at the end, and the counter moves on by one.
     */
    method CreateItem(item: ItemCreate) returns (r: Response<Item>)
      requires Valid()
      modifies this
      ensures Valid()
      ensures r == Success(Created, Item(old(counter), item.name, item.description))
      ensures items == old(items) + [r.body] && counter == old(counter) + 1
      ensures Requests == old(Requests) + [Create(item.name, item.description)]
      ensures forall i :: 0 <= i < |old(items)| ==> old(items)[i].id < r.body.id
      ensures Model(Requests) == Model(old(Requests))[r.body.id := r.body]
    {
      var newItem := Item(counter, item.name, item.description);
      ListingAppend(items, newItem);
      ModelStep(Requests, Create(item.name, item.description));
      items := items + [newItem];
      counter := counter + 1;
      Requests := Requests + [Create(item.name, item.description)];
      r := Success(Created, newItem);
    }

    /**
     * `update_item`: an absent id is not-found and nothing changes; a present
     * one has just its slot overwritten with the same id and the new fields.
     */
    method UpdateItem(id: int, item: ItemCreate) returns (r: Response<Item>)
      requires Valid()
      modifies this
      ensures Valid()
      ensures counter == old(counter)
      ensures Requests == old(Requests) + [Update(id, item.name, item.description)]
      ensures match FirstIndex(old(items), id)
              case None => r == NotFound(NotFoundDetail(id)) && items == old(items)
              case Some(i) =>
                r == Success(Ok, Item(id, item.name, item.description))
                && items == old(items)[i := r.body]
      ensures r.Success? <==> id in Model(old(Requests))
      ensures r.Success? ==> Model(Requests) == Model(old(Requests))[id := r.body]
      ensures r.NotFound? ==> Model(Requests) == Model(old(Requests))
    {
      var index := FindIndex(id);
      FirstIndexListing(items, id);
      ModelStep(Requests, Update(id, item.name, item.description));
      Requests := Requests + [Update(id, item.name, item.description)];
      match index
      case None =>
        r := NotFound(NotFoundDetail(id));
      case Some(i) =>
        var updated := Item(id, item.name, item.description);
        ListingReplace(items, i, updated);
        items := items[i := updated];
        r := Success(Ok, updated);
    }

    /**
     * `delete_item`: an absent id is not-found and nothing changes; a present
     * one has just its slot popped, the others keeping their order.
     */
    method DeleteItem(id: int) returns (r: Response<()>)
      requires Valid()
      modifies this
      ensures Valid()
      ensures counter == old(counter)
      ensures Requests == old(Requests) + [Delete(id)]
      ensures match FirstIndex(old(items), id)
              case None => r == NotFound(NotFoundDetail(id)) && items == old(items)
              case Some(i) => r == Success(NoContent, ()) && items == old(items)[..i] + old(items)[i + 1..]
      ensures r.Success? <==> id in Model(old(Requests))
      ensures id !in Model(Requests) && Model(Requests) == Model(old(Requests)) - {id}
    {
      var index := FindIndex(id);
      FirstIndexListing(items, id);
      ModelStep(Requests, Delete(id));
      Requests := Requests + [Delete(id)];
      match index
      case None =>
        r := NotFound(NotFoundDetail(id));
      case Some(i) =>
        ListingRemove(items, i);
        RemovedAt(items, i);
        items := items[..i] + items[i + 1..];
        r := Success(NoContent, ());
    }
  }

  /**
   * What `read_items` returns depends on the request log alone: two stores
   * that saw the same calls hold the same list, in the same order.
   */
  lemma SameLogSameList(a: ItemStore, b: ItemStore)
    requires a.Valid() && b.Valid() && a.Requests == b.Requests
    ensures a.items == b.items
  {
    ListingDeterminesList(a.items, b.items);
  }

  /**
   * A client run: create, read, update, delete and read again, with the
   * statuses and bodies a caller of the service sees.
   */
  method Scenario() {
    assert Decimal.NatToString(1) == "1";
    assert NotFoundDetail(1) == "Item with id 1 not found";
    var store := new ItemStore();
    var created := store.CreateItem(ItemCreate("A", "d1"));
    assert created == Success(Created, Item(1, "A", "d1")) && created.Code() == 201;
    var got := store.ReadItem(1);
    assert got == Success(Ok, Item(1, "A", "d1"));
    var updated := store.UpdateItem(1, ItemCreate("B", "d2"));
    assert updated == Success(Ok, Item(1, "B", "d2")) && updated.Code() == 200;
    got := store.ReadItem(1);
    assert got == Success(Ok, Item(1, "B", "d2"));
    var deleted := store.DeleteItem(1);
    assert deleted.Code() == 204;
    got := store.ReadItem(1);
    assert got == NotFound("Item with id 1 not found") && got.Code() == 404;
    var again := store.CreateItem(ItemCreate("C", "d3"));
    assert again.body.id == 2;
  }
}
