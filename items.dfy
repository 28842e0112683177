/**
 * The records of the in-memory store and the pure facts about a list of them:
 * the first-match search the handlers use, the "ids ascend in list order"
 * invariant, and the keyed view (id to item) that the list represents.
 */
module Items {

  import opened Wrappers
  import Decimal

  /** The request body of create and update (`ItemCreate`): the two client fields. */
  datatype ItemCreate = ItemCreate(name: string, description: string)

  /** A stored record (`Item`): the store-assigned id and the two client fields. */
  datatype Item = Item(id: int, name: string, description: string)

  /** The success status a handler answers with: 200, 201 or 204. */
  datatype Status = Ok | Created | NoContent

  /**
   * What a handler produces: a success status with its body, or the
   * not-found error the handler raises, carrying its detail text.
   */
  datatype Response<T> = Success(status: Status, body: T) | NotFound(detail: string)
  {
    /** The HTTP status code sent to the client. */
    function Code(): (c: int)
      ensures Success? <==> 200 <= c < 300
      ensures NotFound? <==> c == 404
      ensures Success? ==> (c == 201 <==> status == Created) && (c == 204 <==> status == NoContent)
      ensures Success? && status == Ok ==> c == 200
    {
      match this
      case Success(Ok, _) => 200
      case Success(Created, _) => 201
      case Success(NoContent, _) => 204
      case NotFound(_) => 404
    }
  }

  const DetailPrefix: string := "Item with id "
  const DetailSuffix: string := " not found"

  /** The detail text of every not-found response. */
  function NotFoundDetail(id: int): string {
    DetailPrefix + Decimal.IntToString(id) + DetailSuffix
  }

  /** Recovers the id a not-found detail text names, if it has that shape. */
  function DetailId(s: string): Option<int> {
    if |s| >= |DetailPrefix| + |DetailSuffix|
       && s[..|DetailPrefix|] == DetailPrefix
       && s[|s| - |DetailSuffix|..] == DetailSuffix
    then Decimal.ParseInt(s[|DetailPrefix|..|s| - |DetailSuffix|])
    else None
  }

  /** A not-found detail names exactly the id that was asked for. */
  lemma DetailRoundTrip(id: int)
    ensures DetailId(NotFoundDetail(id)) == Some(id)
  {
    var digits := Decimal.IntToString(id);
    var s := NotFoundDetail(id);
    assert s[..|DetailPrefix|] == DetailPrefix;
    assert s[|s| - |DetailSuffix|..] == DetailSuffix;
    assert s[|DetailPrefix|..|s| - |DetailSuffix|] == digits;
    Decimal.IntToStringRoundTrip(id);
  }

  /**
   * The index of the first record whose id is `id`, or None when there is
   * none: the search every handler that takes an id performs.
   */
  function FirstIndex(s: seq<Item>, id: int): (r: Option<nat>)
    ensures r.Some? ==> r.value < |s| && s[r.value].id == id
    ensures r.Some? ==> forall j :: 0 <= j < r.value ==> s[j].id != id
    ensures r.None? <==> forall j :: 0 <= j < |s| ==> s[j].id != id
  {
    if s == [] then None
    else if s[0].id == id then Some(0)
    else match FirstIndex(s[1..], id)
      case None => None
      case Some(k) => Some(k + 1)
  }

  /** Ids strictly increase in list order (and so are pairwise distinct). */
  ghost predicate Ascending(s: seq<Item>) {
    forall i, j :: 0 <= i < j < |s| ==> s[i].id < s[j].id
  }

  /** The keyed collection a list stands for: each id mapped to its record. */
  ghost function Listing(s: seq<Item>): map<int, Item> {
    if s == [] then map[] else Listing(s[..|s| - 1])[s[|s| - 1].id := s[|s| - 1]]
  }

  /** An id held by no item of the list is no key of its listing. */
  lemma {:induction false} ListingAbsent(s: seq<Item>, id: int)
    requires forall i :: 0 <= i < |s| ==> s[i].id != id
    ensures id !in Listing(s)
  {
    if s != [] {
      ListingAbsent(s[..|s| - 1], id);
    }
  }

  /** In an ascending list, every item is what the listing maps its id to. */
  lemma {:induction false} ListingAt(s: seq<Item>, i: nat)
    requires Ascending(s) && i < |s|
    ensures s[i].id in Listing(s) && Listing(s)[s[i].id] == s[i]
  {
    if i < |s| - 1 {
      ListingAt(s[..|s| - 1], i);
    }
  }

  /** Every key of the listing is the id of some item of the list. */
  lemma {:induction false} ListingKey(s: seq<Item>, id: int)
    requires id in Listing(s)
    ensures exists i :: 0 <= i < |s| && s[i].id == id
  {
    if forall i :: 0 <= i < |s| ==> s[i].id != id {
      ListingAbsent(s, id);
    }
  }

  /** On an ascending list the first-match search agrees with the keyed view. */
  lemma {:induction false} FirstIndexListing(s: seq<Item>, id: int)
    requires Ascending(s)
    ensures FirstIndex(s, id).Some? <==> id in Listing(s)
    ensures FirstIndex(s, id).Some? ==> Listing(s)[id] == s[FirstIndex(s, id).value]
  {
    match FirstIndex(s, id)
    case None => ListingAbsent(s, id);
    case Some(i) => ListingAt(s, i);
  }

  /** Appending a record with an id above all others keeps the list ascending. */
  lemma ListingAppend(s: seq<Item>, x: Item)
    requires Ascending(s) && forall i :: 0 <= i < |s| ==> s[i].id < x.id
    ensures Ascending(s + [x]) && Listing(s + [x]) == Listing(s)[x.id := x]
  {
  }

  /** Overwriting one slot with a record of the same id rebinds just that key. */
  lemma {:induction false} ListingReplace(s: seq<Item>, i: nat, x: Item)
    requires Ascending(s) && i < |s| && x.id == s[i].id
    ensures Listing(s[i := x]) == Listing(s)[x.id := x]
  {
    var n := |s|;
    var t := s[i := x];
    if i == n - 1 {
      assert t[..n - 1] == s[..n - 1];
    } else {
      assert t[..n - 1] == s[..n - 1][i := x];
      ListingReplace(s[..n - 1], i, x);
      assert s[n - 1].id != x.id;
    }
  }

  /** Popping one slot keeps the others in order, and so keeps them ascending. */
  lemma RemovedAt(s: seq<Item>, i: nat)
    requires i < |s|
    ensures |s[..i] + s[i + 1..]| == |s| - 1
    ensures forall k :: 0 <= k < i ==> (s[..i] + s[i + 1..])[k] == s[k]
    ensures forall k :: i < k < |s| ==> (s[..i] + s[i + 1..])[k - 1] == s[k]
    ensures Ascending(s) ==> Ascending(s[..i] + s[i + 1..])
  {
  }

  /** Popping one slot of an ascending list removes just that key. */
  lemma {:induction false} ListingRemove(s: seq<Item>, i: nat)
    requires Ascending(s) && i < |s|
    ensures Listing(s[..i] + s[i + 1..]) == Listing(s) - {s[i].id}
  {
    var n := |s|;
    var t := s[..i] + s[i + 1..];
    if i == n - 1 {
      assert t == s[..n - 1];
      ListingAbsent(s[..n - 1], s[i].id);
    } else {
      var p := s[..n - 1];
      assert t[..|t| - 1] == p[..i] + p[i + 1..];
      assert t[|t| - 1] == s[n - 1];
      ListingRemove(p, i);
      assert s[n - 1].id != s[i].id;
    }
  }

  /** Two non-empty ascending lists with the same keyed view end in the same record. */
  lemma SameListingSameLast(a: seq<Item>, b: seq<Item>)
    requires Ascending(a) && Ascending(b) && Listing(a) == Listing(b) && a != [] && b != []
    ensures a[|a| - 1] == b[|b| - 1]
  {
    var x, y := a[|a| - 1], b[|b| - 1];
    ListingAt(a, |a| - 1);
    ListingAt(b, |b| - 1);
    ListingKey(b, x.id);
    ListingKey(a, y.id);
    assert x.id == y.id;
  }

  /** Dropping the last record of an ascending list drops just its key. */
  lemma ListingDropLast(s: seq<Item>)
    requires Ascending(s) && s != []
    ensures Listing(s[..|s| - 1]) == Listing(s) - {s[|s| - 1].id}
  {
    ListingRemove(s, |s| - 1);
    assert s[..|s| - 1] + s[|s|..] == s[..|s| - 1];
  }

  /**
   * An ascending list is determined by its keyed view: two ascending lists
   * that hold the same records are the same list.
   */
  lemma {:induction false} ListingDeterminesList(a: seq<Item>, b: seq<Item>)
    requires Ascending(a) && Ascending(b) && Listing(a) == Listing(b)
    ensures a == b
  {
    if a == [] {
      if b != [] {
        ListingAt(b, 0);
      }
    } else if b == [] {
      ListingAt(a, 0);
    } else {
      SameListingSameLast(a, b);
      ListingDropLast(a);
      ListingDropLast(b);
      ListingDeterminesList(a[..|a| - 1], b[..|b| - 1]);
      assert a == a[..|a| - 1] + [a[|a| - 1]];
      assert b == b[..|b| - 1] + [b[|b| - 1]];
    }
  }
}
