/**
 * Properties of sequences of handler calls, each applied to the list left by
 * the one before, and the behaviour of the store the service starts with.
 * Reads (list, get, metrics) do not change the list and are not part of a
 * sequence of calls.
 */
module Traces {
  import opened Items
  import opened Store

  /** A call that changes the list. */
  datatype Call<Price> =
    | Create(req: ItemCreate<Price>)
    | Update(id: int, req: ItemCreate<Price>)
    | Delete(id: int)

  function Step<Price, Time>(s: seq<Item<Price, Time>>, c: Call<Price>, stamp: Time): seq<Item<Price, Time>>
  {
    match c
    case Create(req) => Created(s, req, stamp)
    case Update(id, req) => Updated(s, id, req, stamp)
    case Delete(id) => Deleted(s, id)
  }

  /** The list after the calls, in order. */
  function Run<Price, Time>(s: seq<Item<Price, Time>>, calls: seq<Call<Price>>, stamp: Time): seq<Item<Price, Time>>
    decreases |calls|
  {
    if calls == [] then s else Run(Step(s, calls[0], stamp), calls[1..], stamp)
  }

  /** How many of the calls are creates (each always succeeds). */
  function Creates<Price>(calls: seq<Call<Price>>): nat
  {
    if calls == [] then 0 else (if calls[0].Create? then 1 else 0) + Creates(calls[1..])
  }

  /** How many of the calls are deletes that found their id. */
  function DeletesDone<Price, Time>(s: seq<Item<Price, Time>>, calls: seq<Call<Price>>, stamp: Time): nat
    decreases |calls|
  {
    if calls == [] then 0
    else
      (if calls[0].Delete? && Get(s, calls[0].id).Ok? then 1 else 0)
      + DeletesDone(Step(s, calls[0], stamp), calls[1..], stamp)
  }

  /** An update or delete addressed to `id`. */
  predicate Touches<Price>(c: Call<Price>, id: int)
  {
    (c.Update? || c.Delete?) && c.id == id
  }

  /** Every handler keeps the ids distinct and positive. */
  lemma StepKeepsWellFormed<Price, Time>(s: seq<Item<Price, Time>>, c: Call<Price>, stamp: Time)
    requires WellFormed(s, stamp)
    ensures WellFormed(Step(s, c, stamp), stamp)
  {
    match c
    case Create(req) =>
      CreateKeepsWellFormed(s, req, stamp);
    case Update(id, req) =>
      var k := FirstIndex(s, id);
      if k.Some? {
        UpdateOverwrites(s, id, req, stamp, k.value);
      }
    case Delete(id) =>
      var k := FirstIndex(s, id);
      if k.Some? {
        DeleteRemoves(s, id, stamp, k.value);
      }
  }

  /** Whatever the calls, the ids in the list stay pairwise distinct and positive. */
  lemma {:induction false} RunKeepsWellFormed<Price, Time>(s: seq<Item<Price, Time>>, calls: seq<Call<Price>>, stamp: Time)
    requires WellFormed(s, stamp)
    ensures WellFormed(Run(s, calls, stamp), stamp)
    decreases |calls|
  {
    if calls != [] {
      StepKeepsWellFormed(s, calls[0], stamp);
      RunKeepsWellFormed(Step(s, calls[0], stamp), calls[1..], stamp);
    }
  }

  /** One call grows the list by one for a create and shrinks it by one for a delete that found its id. */
  lemma StepLength<Price, Time>(s: seq<Item<Price, Time>>, c: Call<Price>, stamp: Time)
    ensures |Step(s, c, stamp)| + (if c.Delete? && Get(s, c.id).Ok? then 1 else 0)
         == |s| + (if c.Create? then 1 else 0)
  {
    if c.Delete? {
      var k := FirstIndex(s, c.id);
      if k.Some? {
        assert |s[..k.value] + s[k.value + 1..]| == |s| - 1;
      }
    }
  }

  /**
   * The length of the list (what list returns and metrics reports) is the
   * starting length plus the creates minus the deletes that found their id.
   */
  lemma {:induction false} RunLength<Price, Time>(s: seq<Item<Price, Time>>, calls: seq<Call<Price>>, stamp: Time)
    ensures |Run(s, calls, stamp)| + DeletesDone(s, calls, stamp) == |s| + Creates(calls)
    decreases |calls|
  {
    if calls != [] {
      StepLength(s, calls[0], stamp);
      RunLength(Step(s, calls[0], stamp), calls[1..], stamp);
    }
  }

  /** A call not addressed to `x.id` leaves the record `x` in the list. */
  lemma StepKeepsUntouched<Price, Time>(s: seq<Item<Price, Time>>, c: Call<Price>, stamp: Time, x: Item<Price, Time>)
    requires WellFormed(s, stamp)
    requires x in s && !Touches(c, x.id)
    ensures x in Step(s, c, stamp)
  {
    var i :| 0 <= i < |s| && s[i] == x;
    match c
    case Create(req) =>
      assert Step(s, c, stamp)[i] == x;
    case Update(id, req) =>
      var k := FirstIndex(s, id);
      if k.Some? {
        UpdateOverwrites(s, id, req, stamp, k.value);
        assert Step(s, c, stamp)[i] == x;
      }
    case Delete(id) =>
      var k := FirstIndex(s, id);
      if k.Some? {
        DeleteRemoves(s, id, stamp, k.value);
        var j := if i < k.value then i else i - 1;
        assert Step(s, c, stamp)[j] == x;
      }
  }

  /** A record stays in the list through any calls none of which addresses its id. */
  lemma {:induction false} UntouchedStays<Price, Time>(s: seq<Item<Price, Time>>, calls: seq<Call<Price>>, stamp: Time, x: Item<Price, Time>)
    requires WellFormed(s, stamp)
    requires x in s
    requires forall i :: 0 <= i < |calls| ==> !Touches(calls[i], x.id)
    ensures x in Run(s, calls, stamp)
    decreases |calls|
  {
    if calls != [] {
      StepKeepsWellFormed(s, calls[0], stamp);
      StepKeepsUntouched(s, calls[0], stamp, x);
      UntouchedStays(Step(s, calls[0], stamp), calls[1..], stamp, x);
    }
  }

  /**
   * Get after Create returns the created record, however many calls come in
   * between, as long as none of them updates or deletes that id.
   */
  lemma GetAfterCreateAndCalls<Price, Time>(s: seq<Item<Price, Time>>, req: ItemCreate<Price>, calls: seq<Call<Price>>, stamp: Time)
    requires WellFormed(s, stamp)
    requires forall i :: 0 <= i < |calls| ==> !Touches(calls[i], NewItem(s, req, stamp).id)
    ensures Get(Run(Created(s, req, stamp), calls, stamp), NewItem(s, req, stamp).id) == Ok(NewItem(s, req, stamp))
  {
    var x := NewItem(s, req, stamp);
    var s1 := Created(s, req, stamp);
    CreateKeepsWellFormed(s, req, stamp);
    assert s1[|s|] == x;
    UntouchedStays(s1, calls, stamp, x);
    RunKeepsWellFormed(s1, calls, stamp);
    var t := Run(s1, calls, stamp);
    var i :| 0 <= i < |t| && t[i] == x;
    GetFindsUnique(t, i);
  }

  /**
   * The starting store: two well-formed items, ids 1 and 2. A create of
   * "Keyboard" without description gets id 3 and no description; deleting
   * id 1 makes Get on 1 not-found; an update of id 2 keeps id 2 and takes the
   * request's name and price.
   */
  lemma SeedScenarios<Price, Time>(laptopPrice: Price, mousePrice: Price, stamp: Time, keyboardPrice: Price, mouseProPrice: Price)
    ensures var s := Seed(laptopPrice, mousePrice, stamp);
      && WellFormed(s, stamp)
      && |s| == 2 && s[0].id == 1 && s[1].id == 2
      && s[0].name == "Laptop" && s[0].price == laptopPrice
      && s[1].name == "Mouse" && s[1].price == mousePrice
    ensures var x := NewItem(Seed(laptopPrice, mousePrice, stamp), ItemCreate("Keyboard", None, keyboardPrice), stamp);
      x.id == 3 && x.description == None && x.price == keyboardPrice
    ensures Get(Deleted(Seed(laptopPrice, mousePrice, stamp), 1), 1) == NotFound
    ensures var r := UpdateReply(Seed(laptopPrice, mousePrice, stamp), 2, ItemCreate("Mouse Pro", None, mouseProPrice), stamp);
      r.Ok? && r.value.id == 2 && r.value.name == "Mouse Pro" && r.value.price == mouseProPrice
  {
    var s := Seed(laptopPrice, mousePrice, stamp);
    DeleteRemoves(s, 1, stamp, 0);
    UpdateOverwrites(s, 2, ItemCreate("Mouse Pro", None, mouseProPrice), stamp, 1);
  }

  /**
   * Ids are not reserved: after the item with the highest id is deleted, the
   * next create hands out that id again (from the starting store: delete 2,
   * then create, and the new item has id 2).
   */
  lemma IdReusedAfterDelete<Price, Time>(laptopPrice: Price, mousePrice: Price, stamp: Time, req: ItemCreate<Price>)
    ensures var s := Deleted(Seed(laptopPrice, mousePrice, stamp), 2);
      Get(s, 2) == NotFound && NewItem(s, req, stamp).id == 2
  {
    var s := Seed(laptopPrice, mousePrice, stamp);
    DeleteRemoves(s, 2, stamp, 1);
    assert Deleted(s, 2) == [s[0]];
  }
}
