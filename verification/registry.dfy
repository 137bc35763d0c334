/** The bookkeeping of the entity registry, on values: the swap-and-pop removal used on the
    non-fx id list, the linear search that finds the id to remove, and the representation
    invariant that ties the id list and the id counter to the owning map. */
module Registry {
  import opened Common
  import opened Entities

  /** Removes index k by moving the last element into its place and dropping the last slot
      (std::swap with back(), then pop_back()). */
  function SwapPop<T>(s: seq<T>, k: nat): (r: seq<T>)
    requires k < |s|
    ensures |r| == |s| - 1
    ensures forall j :: 0 <= j < |r| && j != k ==> r[j] == s[j]
    ensures k < |r| ==> r[k] == s[|s| - 1]
  {
    s[k := s[|s| - 1]][..|s| - 1]
  }

  /** Swap-and-pop removes exactly one occurrence of s[k] and keeps every other element. */
  lemma SwapPopMultiset<T>(s: seq<T>, k: nat)
    requires k < |s|
    ensures multiset(SwapPop(s, k)) == multiset(s) - multiset{s[k]}
  {
    var n := |s| - 1;
    var t := s[k := s[n]];
    assert s == s[..n] + [s[n]];
    assert t == t[..n] + [t[n]];
    assert t[n] == s[n] || k == n;
    if k == n {
      assert SwapPop(s, k) == s[..n];
    } else {
      assert t[..n] == s[..n][k := s[n]];
      assert multiset(s[..n][k := s[n]]) == multiset(s[..n]) - multiset{s[k]} + multiset{s[n]};
      assert multiset(t) == multiset(t[..n]) + multiset{s[n]};
    }
  }

  /** The first position of x in s: what std::find returns. */
  function IndexOf<T(==)>(s: seq<T>, x: T): (k: nat)
    requires x in s
    ensures k < |s| && s[k] == x
    ensures forall j :: 0 <= j < k ==> s[j] != x
  {
    if s[0] == x then 0 else 1 + IndexOf(s[1..], x)
  }

  /** The registry's representation invariant: every key is below the next id to hand out,
      and the non-fx list holds each key of a non-fx entity exactly once and nothing else. */
  ghost predicate Invariant(entities: map<EntityId, Entity>, nonFx: seq<EntityId>, nextId: EntityId)
  {
    (forall id :: id in entities ==> id < nextId)
    && (forall id :: multiset(nonFx)[id] == if id in entities && !entities[id].fxOnly then 1 else 0)
  }

  /** Under the invariant the list is a duplicate-free enumeration of the non-fx keys. */
  lemma InvariantListsNonFx(entities: map<EntityId, Entity>, nonFx: seq<EntityId>, nextId: EntityId)
    requires Invariant(entities, nonFx, nextId)
    ensures forall id :: id in nonFx <==> id in entities && !entities[id].fxOnly
    ensures forall i, j :: 0 <= i < j < |nonFx| ==> nonFx[i] != nonFx[j]
    ensures forall i :: 0 <= i < |nonFx| ==> nonFx[i] < nextId
  {
    forall id
      ensures id in nonFx <==> id in entities && !entities[id].fxOnly
    {
      assert id in nonFx <==> multiset(nonFx)[id] > 0;
    }
    forall i | 0 <= i < |nonFx|
      ensures nonFx[i] < nextId
    {
      assert multiset(nonFx)[nonFx[i]] > 0;
    }
    forall i, j | 0 <= i < j < |nonFx|
      ensures nonFx[i] != nonFx[j]
    {
      TwoPositions(nonFx, i, j);
    }
  }

  /** A value found at two positions occurs at least twice. */
  lemma TwoPositions<T>(s: seq<T>, i: nat, j: nat)
    requires i < j < |s|
    ensures s[i] == s[j] ==> multiset(s)[s[i]] >= 2
  {
    assert s == s[..i] + [s[i]] + s[i + 1..j] + [s[j]] + s[j + 1..];
  }

  /** Admitting entity e under the next id keeps the invariant; the id is appended to the
      list iff e is not fx-only. */
  lemma AddKeepsInvariant(entities: map<EntityId, Entity>, nonFx: seq<EntityId>, nextId: EntityId, e: Entity)
    requires Invariant(entities, nonFx, nextId)
    requires nextId < INVALID_ENTITY_ID
    ensures nextId !in entities
    ensures Invariant(entities[nextId := e], nonFx + (if e.fxOnly then [] else [nextId]), nextId + 1)
  {
    var ents := entities[nextId := e];
    var list := nonFx + (if e.fxOnly then [] else [nextId]);
    forall id
      ensures multiset(list)[id] == if id in ents && !ents[id].fxOnly then 1 else 0
    {
      assert multiset(list) == multiset(nonFx) + multiset(if e.fxOnly then [] else [nextId]);
      if id == nextId {
        assert multiset(nonFx)[id] == 0;
      }
    }
  }

  /** The non-fx list once a present entity is removed: untouched for an fx-only entity,
      otherwise its id is swapped with the last entry and popped. */
  function Unlisted(entities: map<EntityId, Entity>, nonFx: seq<EntityId>, id: EntityId): seq<EntityId>
    requires id in entities && (!entities[id].fxOnly ==> id in nonFx)
  {
    if entities[id].fxOnly then nonFx else SwapPop(nonFx, IndexOf(nonFx, id))
  }

  /** Removing a present entity keeps the invariant and takes exactly one copy of its id
      out of the list, if it was listed. */
  lemma RemoveKeepsInvariant(entities: map<EntityId, Entity>, nonFx: seq<EntityId>, nextId: EntityId, id: EntityId)
    requires Invariant(entities, nonFx, nextId)
    requires id in entities
    ensures !entities[id].fxOnly <==> id in nonFx
    ensures Invariant(entities - {id}, Unlisted(entities, nonFx, id), nextId)
    ensures multiset(Unlisted(entities, nonFx, id)) == multiset(nonFx) - multiset{id}
  {
    assert multiset(nonFx)[id] == if entities[id].fxOnly then 0 else 1;
    if !entities[id].fxOnly {
      SwapPopMultiset(nonFx, IndexOf(nonFx, id));
    } else {
      assert multiset(nonFx) - multiset{id} == multiset(nonFx);
    }
  }

  /** An unregistered id is not listed, so taking it out of the list's multiset changes
      nothing. */
  lemma AbsentUnlisted(entities: map<EntityId, Entity>, nonFx: seq<EntityId>, nextId: EntityId, id: EntityId)
    requires Invariant(entities, nonFx, nextId)
    requires id !in entities
    ensures id !in nonFx
    ensures multiset(nonFx) - multiset{id} == multiset(nonFx)
  {
    assert multiset(nonFx)[id] == 0;
  }

  /** With no entities registered the non-fx list is empty. */
  lemma EmptyWithoutEntities(nonFx: seq<EntityId>, nextId: EntityId)
    requires Invariant(map[], nonFx, nextId)
    ensures nonFx == []
  {
    assert multiset(nonFx) == multiset{};
    assert |nonFx| == |multiset(nonFx)| == 0;
  }
}
