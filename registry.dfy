/**
 * The item registry: the module-level list `items_db` and the handlers that
 * read and change it in place. Calls are taken one at a time.
 */
module Registry {
  import opened Items
  import opened Store

  /** The payload of the metrics endpoint. */
  datatype Metrics = Metrics(totalItems: nat, uptime: string, requestsTotal: string)

  class ItemRegistry<Price, Time> {
    /** `items_db`, in insertion order. */
    var items: seq<Item<Price, Time>>
    /** The `created_at` default, evaluated once; every record the handlers build carries it. */
    const stamp: Time

    ghost predicate Valid()
      reads this
    {
      WellFormed(items, stamp)
    }

    /** The store as the service starts: Laptop with id 1 and Mouse with id 2. */
    constructor (stamp: Time, laptopPrice: Price, mousePrice: Price)
      ensures Valid()
      ensures this.stamp == stamp
      ensures items == Seed(laptopPrice, mousePrice, stamp)
    {
      this.stamp := stamp;
      items := Seed(laptopPrice, mousePrice, stamp);
    }

    /** get_items: the whole list, in insertion order. */
    method GetItems() returns (r: seq<Item<Price, Time>>)
      ensures r == items
    {
      r := items;
    }

    /** The search loop of get, update and delete: stops at the first entry with `id`. */
    method Find(id: int) returns (k: Option<nat>)
      ensures k == FirstIndex(items, id)
    {
      var i := 0;
      while i < |items|
        invariant 0 <= i <= |items|
        invariant forall j :: 0 <= j < i ==> items[j].id != id
      {
        if items[i].id == id {
          return Some(i);
        }
        i := i + 1;
      }
      return None;
    }

    /** get_item: the item with `id`, or not-found. */
    method GetItem(id: int) returns (r: Result<Item<Price, Time>>)
      ensures r == Get(items, id)
    {
      var k := Find(id);
      match k
      case None => r := NotFound;
      case Some(i) => r := Ok(items[i]);
    }

    /** `max([i.id for i in items_db], default=0)`. */
    method HighestId() returns (m: int)
      ensures m == MaxId(items)
    {
      if |items| == 0 {
        return 0;
      }
      m := items[0].id;
      var i := 1;
      while i < |items|
        invariant 1 <= i <= |items|
        invariant m == MaxId(items[..i])
      {
        assert items[..i + 1][..i] == items[..i];
        if items[i].id > m {
          m := items[i].id;
        }
        i := i + 1;
      }
      assert items[..i] == items;
    }

    /** create_item: a record with id `max + 1` and the request's fields, appended. */
    method CreateItem(req: ItemCreate<Price>) returns (r: Item<Price, Time>)
      requires Valid()
      modifies this
      ensures Valid()
      ensures r == NewItem(old(items), req, stamp)
      ensures items == old(items) + [r]
    {
      var top := HighestId();
      r := FromRequest(top + 1, req, stamp);
      CreateKeepsWellFormed(items, req, stamp);
      items := items + [r];
    }

    /** update_item: overwrite the slot holding `id`, or answer not-found. */
    method UpdateItem(id: int, req: ItemCreate<Price>) returns (r: Result<Item<Price, Time>>)
      requires Valid()
      modifies this
      ensures Valid()
      ensures items == Updated(old(items), id, req, stamp)
      ensures r == UpdateReply(old(items), id, req, stamp)
    {
      var k := Find(id);
      match k
      case None =>
        r := NotFound;
      case Some(i) =>
        UpdateOverwrites(items, id, req, stamp, i);
        var updated := FromRequest(id, req, stamp);
        items := items[i := updated];
        r := Ok(updated);
    }

    /** delete_item: pop the entry holding `id` and return it, or answer not-found. */
    method DeleteItem(id: int) returns (r: Result<Item<Price, Time>>)
      requires Valid()
      modifies this
      ensures Valid()
      ensures items == Deleted(old(items), id)
      ensures r == Get(old(items), id)
    {
      var k := Find(id);
      match k
      case None =>
        r := NotFound;
      case Some(i) =>
        DeleteRemoves(items, id, stamp, i);
        r := Ok(items[i]);
        items := items[..i] + items[i + 1..];
    }

    /** metrics: `total_items` is the length of the list; the other two fields are fixed text. */
    method ReadMetrics() returns (m: Metrics)
      ensures m.totalItems == |items|
      ensures m.uptime == "healthy" && m.requestsTotal == "counter_value_here"
    {
      m := Metrics(|items|, "healthy", "counter_value_here");
    }
  }
}
