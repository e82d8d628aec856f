/**
 * The item list as a value, and what each handler does to it. The handlers of
 * the registry class are proved against these functions; the lemmas here
 * state what the service promises about them.
 */
module Store {
  import opened Items

  /** No two entries of the list share an id. */
  ghost predicate IdsDistinct<Price, Time>(s: seq<Item<Price, Time>>)
  {
    forall i, j :: 0 <= i < j < |s| ==> s[i].id != s[j].id
  }

  /**
   * The invariant of every list the service can reach: ids pairwise distinct
   * and positive, and every `created_at` the one default value `stamp`.
   */
  ghost predicate WellFormed<Price, Time>(s: seq<Item<Price, Time>>, stamp: Time)
  {
    && IdsDistinct(s)
    && (forall i :: 0 <= i < |s| ==> s[i].id > 0 && s[i].createdAt == stamp)
  }

  ghost predicate HasId<Price, Time>(s: seq<Item<Price, Time>>, id: int)
  {
    exists i :: 0 <= i < |s| && s[i].id == id
  }

  /** `max([i.id for i in s], default=0)`. */
  function MaxId<Price, Time>(s: seq<Item<Price, Time>>): (m: int)
    ensures forall i :: 0 <= i < |s| ==> s[i].id <= m
    ensures s == [] ==> m == 0
    ensures s != [] ==> exists i :: 0 <= i < |s| && s[i].id == m
  {
    if |s| == 0 then 0
    else if |s| == 1 then s[0].id
    else
      var m := MaxId(s[..|s| - 1]);
      if s[|s| - 1].id > m then s[|s| - 1].id else m
  }

  /** Where the search loops of get, update and delete stop: the first index holding `id`. */
  function FirstIndex<Price, Time>(s: seq<Item<Price, Time>>, id: int): (k: Option<nat>)
    ensures k.Some? ==> k.value < |s| && s[k.value].id == id
    ensures k.Some? ==> forall j :: 0 <= j < k.value ==> s[j].id != id
    ensures k.None? ==> forall j :: 0 <= j < |s| ==> s[j].id != id
  {
    if s == [] then None
    else if s[0].id == id then Some(0)
    else
      match FirstIndex(s[1..], id)
      case None => None
      case Some(k) => Some(k + 1)
  }

  /** get_item (and the item delete_item pops): the first item with `id`, or not-found. */
  function Get<Price, Time>(s: seq<Item<Price, Time>>, id: int): (r: Result<Item<Price, Time>>)
    ensures r.Ok? <==> HasId(s, id)
    ensures r.Ok? ==> r.value.id == id && r.value in s
    ensures r.Ok? ==> exists k :: 0 <= k < |s| && r.value == s[k] && forall j :: 0 <= j < k ==> s[j].id != id
  {
    match FirstIndex(s, id)
    case None => NotFound
    case Some(k) => Ok(s[k])
  }

  /** The record create_item builds: id `max + 1`, fields from the request. */
  function NewItem<Price, Time>(s: seq<Item<Price, Time>>, req: ItemCreate<Price>, stamp: Time): Item<Price, Time>
  {
    FromRequest(MaxId(s) + 1, req, stamp)
  }

  /** The list after create_item: the new record appended. */
  function Created<Price, Time>(s: seq<Item<Price, Time>>, req: ItemCreate<Price>, stamp: Time): seq<Item<Price, Time>>
  {
    s + [NewItem(s, req, stamp)]
  }

  /** The list after update_item: the matching slot overwritten, or unchanged. */
  function Updated<Price, Time>(s: seq<Item<Price, Time>>, id: int, req: ItemCreate<Price>, stamp: Time): seq<Item<Price, Time>>
  {
    match FirstIndex(s, id)
    case None => s
    case Some(k) => s[k := FromRequest(id, req, stamp)]
  }

  /** What update_item answers: the new record, or not-found. */
  function UpdateReply<Price, Time>(s: seq<Item<Price, Time>>, id: int, req: ItemCreate<Price>, stamp: Time): Result<Item<Price, Time>>
  {
    match FirstIndex(s, id)
    case None => NotFound
    case Some(_) => Ok(FromRequest(id, req, stamp))
  }

  /** The list after delete_item: the matching entry popped, or unchanged. */
  function Deleted<Price, Time>(s: seq<Item<Price, Time>>, id: int): seq<Item<Price, Time>>
  {
    match FirstIndex(s, id)
    case None => s
    case Some(k) => s[..k] + s[k + 1..]
  }

  /** In a list with distinct ids, a lookup finds the one entry carrying that id. */
  lemma GetFindsUnique<Price, Time>(s: seq<Item<Price, Time>>, i: nat)
    requires IdsDistinct(s)
    requires i < |s|
    ensures Get(s, s[i].id) == Ok(s[i])
    ensures FirstIndex(s, s[i].id) == Some(i)
  {
    var k := FirstIndex(s, s[i].id);
    assert k.Some? && k.value <= i;
  }

  /**
   * Create: the new id is `max + 1` (1 on an empty list), above every stored
   * id; the record copies the request; it is appended, and every earlier
   * entry stays where it was.
   */
  lemma CreateAppends<Price, Time>(s: seq<Item<Price, Time>>, req: ItemCreate<Price>, stamp: Time)
    ensures var x := NewItem(s, req, stamp);
      && x.id == MaxId(s) + 1
      && (s == [] ==> x.id == 1)
      && (forall i :: 0 <= i < |s| ==> s[i].id < x.id)
      && x.name == req.name && x.description == req.description && x.price == req.price
      && x.createdAt == stamp
    ensures |Created(s, req, stamp)| == |s| + 1
    ensures Created(s, req, stamp)[..|s|] == s
    ensures Created(s, req, stamp)[|s|] == NewItem(s, req, stamp)
  {
  }

  /** Create keeps the ids distinct and positive. */
  lemma CreateKeepsWellFormed<Price, Time>(s: seq<Item<Price, Time>>, req: ItemCreate<Price>, stamp: Time)
    requires WellFormed(s, stamp)
    ensures WellFormed(Created(s, req, stamp), stamp)
  {
    var s' := Created(s, req, stamp);
    var x := NewItem(s, req, stamp);
    assert x.id > 0 by {
      if s != [] {
        assert s[0].id <= MaxId(s);
      }
    }
    forall i, j | 0 <= i < j < |s'|
      ensures s'[i].id != s'[j].id
    {
      if j == |s| {
        assert s'[i] == s[i];
      }
    }
  }

  /**
   * Get right after Create returns the created record, on any list: the new
   * id is above every stored one, so the search first meets it at the end.
   */
  lemma GetAfterCreate<Price, Time>(s: seq<Item<Price, Time>>, req: ItemCreate<Price>, stamp: Time)
    ensures Get(Created(s, req, stamp), NewItem(s, req, stamp).id) == Ok(NewItem(s, req, stamp))
  {
    var s' := Created(s, req, stamp);
    var x := NewItem(s, req, stamp);
    assert s'[|s|] == x;
    assert forall j :: 0 <= j < |s| ==> s'[j].id != x.id by {
      forall j | 0 <= j < |s|
        ensures s'[j].id != x.id
      {
        assert s'[j] == s[j];
      }
    }
    assert FirstIndex(s', x.id) == Some(|s|);
  }

  /**
   * Update of a present id: only the slot holding it changes; it gets the
   * same id and the request's fields; the length is kept, and Get on the id
   * now returns the new record.
   */
  lemma UpdateOverwrites<Price, Time>(s: seq<Item<Price, Time>>, id: int, req: ItemCreate<Price>, stamp: Time, k: nat)
    requires WellFormed(s, stamp)
    requires k < |s| && s[k].id == id
    ensures |Updated(s, id, req, stamp)| == |s|
    ensures Updated(s, id, req, stamp)[k] == FromRequest(id, req, stamp)
    ensures forall j :: 0 <= j < |s| && j != k ==> Updated(s, id, req, stamp)[j] == s[j]
    ensures UpdateReply(s, id, req, stamp) == Ok(FromRequest(id, req, stamp))
    ensures WellFormed(Updated(s, id, req, stamp), stamp)
    ensures Get(Updated(s, id, req, stamp), id) == Ok(FromRequest(id, req, stamp))
  {
    GetFindsUnique(s, k);
    var s' := Updated(s, id, req, stamp);
    assert s' == s[k := FromRequest(id, req, stamp)];
    assert forall j :: 0 <= j < |s'| ==> s'[j].id == s[j].id;
    GetFindsUnique(s', k);
  }

  /** The shape of the list once the entry at `k` is popped. */
  lemma PoppedAt<Price, Time>(s: seq<Item<Price, Time>>, k: nat)
    requires k < |s|
    ensures var s' := s[..k] + s[k + 1..];
      && |s'| == |s| - 1
      && (forall j :: 0 <= j < k ==> s'[j] == s[j])
      && (forall j :: k <= j < |s'| ==> s'[j] == s[j + 1])
      && multiset(s') + multiset{s[k]} == multiset(s)
  {
    assert s == s[..k] + [s[k]] + s[k + 1..];
  }

  /**
   * Delete of a present id: the popped entry is the one Get finds; the
   * length drops by one; the others keep their relative order; ids stay
   * distinct, and a following Get on that id is not-found.
   */
  lemma DeleteRemoves<Price, Time>(s: seq<Item<Price, Time>>, id: int, stamp: Time, k: nat)
    requires WellFormed(s, stamp)
    requires k < |s| && s[k].id == id
    ensures Get(s, id) == Ok(s[k])
    ensures |Deleted(s, id)| == |s| - 1
    ensures forall j :: 0 <= j < k ==> Deleted(s, id)[j] == s[j]
    ensures forall j :: k <= j < |s| - 1 ==> Deleted(s, id)[j] == s[j + 1]
    ensures multiset(Deleted(s, id)) + multiset{s[k]} == multiset(s)
    ensures WellFormed(Deleted(s, id), stamp)
    ensures Get(Deleted(s, id), id) == NotFound
  {
    GetFindsUnique(s, k);
    var s' := Deleted(s, id);
    assert s' == s[..k] + s[k + 1..];
    PoppedAt(s, k);
    forall i, j | 0 <= i < j < |s'|
      ensures s'[i].id != s'[j].id
    {
      var i0 := if i < k then i else i + 1;
      var j0 := if j < k then j else j + 1;
      assert s'[i] == s[i0] && s'[j] == s[j0];
    }
    forall j | 0 <= j < |s'|
      ensures s'[j].id != id
    {
      var j0 := if j < k then j else j + 1;
      assert s'[j] == s[j0];
    }
  }

  /** Update or Delete of an absent id answer not-found and leave the list as it was. */
  lemma AbsentIdUnchanged<Price, Time>(s: seq<Item<Price, Time>>, id: int, req: ItemCreate<Price>, stamp: Time)
    requires forall j :: 0 <= j < |s| ==> s[j].id != id
    ensures Get(s, id) == NotFound
    ensures UpdateReply(s, id, req, stamp) == NotFound && Updated(s, id, req, stamp) == s
    ensures Deleted(s, id) == s
  {
  }
}
