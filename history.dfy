/**
 * The store's behaviour over a whole run: the log of mutating requests since
 * process start, the keyed collection that log leaves behind, and what that
 * collection is in terms of the log alone (created and not deleted since,
 * with the latest fields written).
 */
module History {

  import opened Items

  /** A call of `create_item`, `update_item` or `delete_item`, found or not. */
  datatype Request =
    | Create(name: string, description: string)
    | Update(id: int, name: string, description: string)
    | Delete(id: int)

  /** How many creates the log holds; `item_id_counter` is one more. */
  ghost function Creates(t: seq<Request>): nat {
    if t == [] then 0
    else Creates(t[..|t| - 1]) + (if t[|t| - 1].Create? then 1 else 0)
  }

  /**
   * The keyed collection after the log: a create binds the next counter
   * value, an update rebinds a present key, a delete drops its key.
   */
  ghost function Model(t: seq<Request>): map<int, Item> {
    if t == [] then map[]
    else
      var p := t[..|t| - 1];
      var m := Model(p);
      match t[|t| - 1]
      case Create(n, d) => m[Creates(p) + 1 := Item(Creates(p) + 1, n, d)]
      case Update(k, n, d) => if k in m then m[k := Item(k, n, d)] else m
      case Delete(k) => m - {k}
  }

  /** The id the create at position `c` of the log was given. */
  ghost function IdAssignedAt(t: seq<Request>, c: nat): int
    requires c < |t| && t[c].Create?
  {
    Creates(t[..c]) + 1
  }

  /** `x` with every later update of id `k` in `t` applied: the latest one wins. */
  ghost function LatestWrite(t: seq<Request>, k: int, x: Item): Item {
    if t == [] then x
    else match t[|t| - 1]
      case Update(k', n, d) =>
        if k' == k then Item(k, n, d) else LatestWrite(t[..|t| - 1], k, x)
      case _ => LatestWrite(t[..|t| - 1], k, x)
  }

  /** One more request: how the count and the collection move on. */
  lemma ModelStep(t: seq<Request>, r: Request)
    ensures Creates(t + [r]) == Creates(t) + (if r.Create? then 1 else 0)
    ensures r.Create? ==>
              Model(t + [r]) == Model(t)[Creates(t) + 1 := Item(Creates(t) + 1, r.name, r.description)]
    ensures r.Update? ==>
              Model(t + [r])
              == if r.id in Model(t) then Model(t)[r.id := Item(r.id, r.name, r.description)] else Model(t)
    ensures r.Delete? ==> Model(t + [r]) == Model(t) - {r.id}
  {
  }

  /** The create count never falls as the log grows. */
  lemma {:induction false} CreatesPrefix(t: seq<Request>, i: nat, j: nat)
    requires i <= j <= |t|
    ensures Creates(t[..i]) <= Creates(t[..j])
  {
    if i < j {
      assert t[..j][..j - 1] == t[..j - 1];
      CreatesPrefix(t, i, j - 1);
    }
  }

  lemma CreatesAfterCreate(t: seq<Request>, c: nat)
    requires c < |t| && t[c].Create?
    ensures Creates(t[..c + 1]) == Creates(t[..c]) + 1
  {
    assert t[..c + 1][..c] == t[..c];
  }

  /** Every id assigned so far is at most the number of creates. */
  lemma IdAssignedBelow(t: seq<Request>, c: nat)
    requires c < |t| && t[c].Create?
    ensures 1 <= IdAssignedAt(t, c) <= Creates(t)
  {
    CreatesAfterCreate(t, c);
    CreatesPrefix(t, c + 1, |t|);
    assert t[..|t|] == t;
  }

  /** Ids are handed out in strictly increasing order, so none is given twice. */
  lemma IdsStrictlyIncrease(t: seq<Request>, i: nat, j: nat)
    requires i < j < |t| && t[i].Create? && t[j].Create?
    ensures IdAssignedAt(t, i) < IdAssignedAt(t, j)
  {
    CreatesAfterCreate(t, i);
    CreatesPrefix(t, i + 1, j);
  }

  /** Every value from 1 to the create count was assigned by some create. */
  lemma {:induction false} EveryIdAssigned(t: seq<Request>, k: int)
    requires 1 <= k <= Creates(t)
    ensures exists c :: 0 <= c < |t| && t[c].Create? && IdAssignedAt(t, c) == k
  {
    var p := t[..|t| - 1];
    if k <= Creates(p) {
      EveryIdAssigned(p, k);
      var c :| 0 <= c < |p| && p[c].Create? && IdAssignedAt(p, c) == k;
      assert t[..c] == p[..c];
    } else {
      assert IdAssignedAt(t, |t| - 1) == k;
    }
  }

  /** Live keys are ids already assigned, each bound to a record with that id. */
  lemma {:induction false} ModelDomain(t: seq<Request>, k: int)
    requires k in Model(t)
    ensures 1 <= k <= Creates(t) && Model(t)[k].id == k
  {
    var p := t[..|t| - 1];
    match t[|t| - 1]
    case Create(n, d) =>
      if k != Creates(p) + 1 {
        ModelDomain(p, k);
      }
    case Update(k', n, d) =>
      ModelDomain(p, k);
    case Delete(k') =>
      ModelDomain(p, k);
  }

  /**
   * An item created at position `c` and not deleted since is live, and holds
   * the fields of its latest write (its create or a later update).
   */
  lemma {:induction false} CreatedAndNotDeletedIsLive(t: seq<Request>, c: nat)
    requires c < |t| && t[c].Create?
    requires forall j :: c < j < |t| ==> t[j] != Delete(IdAssignedAt(t, c))
    ensures IdAssignedAt(t, c) in Model(t)
    ensures Model(t)[IdAssignedAt(t, c)]
         == LatestWrite(t[c + 1..], IdAssignedAt(t, c),
                        Item(IdAssignedAt(t, c), t[c].name, t[c].description))
  {
    var k := IdAssignedAt(t, c);
    var x := Item(k, t[c].name, t[c].description);
    if c == |t| - 1 {
      assert t[c + 1..] == [];
    } else {
      var p := t[..|t| - 1];
      assert p[..c] == t[..c];
      CreatedAndNotDeletedIsLive(p, c);
      assert t[c + 1..][..|t[c + 1..]| - 1] == p[c + 1..];
      assert t[c + 1..][|t[c + 1..]| - 1] == t[|t| - 1];
      if t[|t| - 1].Create? {
        IdAssignedBelow(p, c);
      }
    }
  }

  /** An item once deleted stays gone: no later request brings its id back. */
  lemma {:induction false} DeletedStaysDeleted(t: seq<Request>, c: nat, j: nat)
    requires c < j < |t| && t[c].Create? && t[j] == Delete(IdAssignedAt(t, c))
    ensures IdAssignedAt(t, c) !in Model(t)
  {
    var k := IdAssignedAt(t, c);
    var p := t[..|t| - 1];
    if j < |t| - 1 {
      assert p[..c] == t[..c];
      DeletedStaysDeleted(p, c, j);
      if t[|t| - 1].Create? {
        IdAssignedBelow(p, c);
      }
    }
  }

  /** Both directions: a created item is live exactly when no delete of it followed. */
  lemma CreatedIsLiveIffNotDeleted(t: seq<Request>, c: nat)
    requires c < |t| && t[c].Create?
    ensures IdAssignedAt(t, c) in Model(t)
        <==> forall j :: c < j < |t| ==> t[j] != Delete(IdAssignedAt(t, c))
  {
    if forall j :: c < j < |t| ==> t[j] != Delete(IdAssignedAt(t, c)) {
      CreatedAndNotDeletedIsLive(t, c);
    } else {
      var j :| c < j < |t| && t[j] == Delete(IdAssignedAt(t, c));
      DeletedStaysDeleted(t, c, j);
    }
  }
}
