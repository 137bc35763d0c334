/** The world: a fixed width x height grid of optional blocks with its two change-tracking
    collections (the FIFO state-update queue and the render-update list), and the registry of
    entities keyed by identity with its parallel list of non-fx identities. */
module GameWorld {
  import opened Common
  import opened Blocks
  import opened Entities
  import opened Grid
  import Registry

  /** Where the deferred-deletion pass stands: `pending` are the ids not visited yet; of
      the visited ones, those in `doomed` are gone and the rest were ticked, once each. */
  ghost predicate Culling(ents0: map<EntityId, Entity>, doomed: set<EntityId>, pending: set<EntityId>,
                          ticked: seq<EntityId>, ents: map<EntityId, Entity>)
  {
    pending <= ents.Keys
    && (forall id :: id in ents <==> id in ents0 && (id in pending || id !in doomed))
    && (forall id :: id in ents ==> ents[id] == ents0[id])
    && (forall id :: id in ticked <==> id in ents && id !in pending)
    && (forall i, j :: 0 <= i < j < |ticked| ==> ticked[i] != ticked[j])
  }

  /** Visiting one pending id: a doomed one leaves the map, any other is ticked. */
  lemma CullStep(ents0: map<EntityId, Entity>, doomed: set<EntityId>, pending: set<EntityId>,
                 ticked: seq<EntityId>, ents: map<EntityId, Entity>, id: EntityId)
    requires Culling(ents0, doomed, pending, ticked, ents) && id in pending
    ensures ents[id] == ents0[id]
    ensures id in doomed ==> Culling(ents0, doomed, pending - {id}, ticked, ents - {id})
    ensures id !in doomed ==> Culling(ents0, doomed, pending - {id}, ticked + [id], ents)
  {
  }

  /** The registry only grew: every old entry is kept, and the new keys are exactly the ids
      [n0, n) handed out meanwhile, each to an fx-only entity. */
  ghost predicate Grown(ents0: map<EntityId, Entity>, n0: int, ents: map<EntityId, Entity>, n: int)
  {
    n0 <= n
    && (forall id :: id in ents <==> id in ents0 || n0 <= id < n)
    && (forall id :: id in ents0 ==> ents[id] == ents0[id])
    && (forall id :: id in ents && id !in ents0 ==> ents[id].fxOnly)
  }

  /** Growth in two stages is growth. */
  lemma GrownTrans(e0: map<EntityId, Entity>, n0: int, e1: map<EntityId, Entity>, n1: int,
                   e2: map<EntityId, Entity>, n2: int)
    requires Grown(e0, n0, e1, n1) && Grown(e1, n1, e2, n2)
    ensures Grown(e0, n0, e2, n2)
  {
  }

  /** What a blast acts on: the slot healths, the state-update queue, the render-update
      list and the next entity id. */
  datatype Progress = Progress(healths: seq<u32>, stateQueue: seq<Coord>, textureQueue: seq<Coord>, nextId: int)

  /** The parameters of one explosion: its centre, the squared radius r_sq, the damage at
      the centre, and the roll that decides whether a cell spawns a gib. */
  datatype Blast = Blast(cx: u32, cy: u32, r2: nat, centerDamage: u32, gibRoll: (u32, u32) -> bool)

  class World {
    const width: u32
    const height: u32
    /** blocks_: one owning slot per cell, row-major. */
    const blocks: array<Block?>
    /** blocks_marked_for_state_update_, front first. */
    var stateQueue: seq<Coord>
    /** blocks_marked_for_texture_update_. */
    var textureQueue: seq<Coord>
    /** update_blocks_render_texture_. */
    var trackTexture: bool
    /** entities_: the registry owns each entity through its Entity part. */
    var entities: map<EntityId, Entity>
    /** entities_non_fx_. */
    var nonFx: seq<EntityId>
    /** entities_next_id_. */
    var nextId: EntityId
    /** Every block the grid has held: the frame of what reads or changes block healths. */
    ghost var Footprint: set<Block>
    /** The slot each block was last put in: a block in a slot is recorded there, so no block
        sits in two slots. */
    ghost var Slot: map<Block, nat>

    /** The cell array has one slot per cell; the dimensions never change. */
    ghost predicate Shaped()
    {
      blocks.Length == width as int * height as int
    }

    /** Every block in a slot lies within the footprint. */
    ghost predicate Framed()
      reads this`Footprint, this`Slot, blocks
    {
      forall i :: 0 <= i < blocks.Length && blocks[i] != null ==> blocks[i] in Footprint
    }

    /** The grid owns its blocks (each block sits in at most one slot) and every block keeps
        its health within its kind's maximum. */
    ghost predicate CellsOwned()
      reads this`Footprint, this`Slot, blocks, Footprint
    {
      Framed()
      && (forall i :: 0 <= i < blocks.Length && blocks[i] != null ==> blocks[i] in Slot && Slot[blocks[i]] == i)
      && (forall i :: 0 <= i < blocks.Length && blocks[i] != null ==> blocks[i].Valid())
    }

    /** The grid invariant survives any step that leaves the array, the slot contents and
        the blocks it owned untouched. */
    twostate lemma GridUntouched()
      requires old(CellsOwned())
      requires unchanged(this`Footprint, this`Slot, blocks)
      requires unchanged(old(Footprint))
      ensures CellsOwned()
    {
    }

    /** The grid invariant and the registry invariant. */
    ghost predicate Valid()
      reads this, blocks, Footprint
    {
      Shaped() && CellsOwned() && Registry.Invariant(entities, nonFx, nextId)
    }

    predicate InRange(c: Coord)
    {
      c.x < width && c.y < height
    }

    /** The slot of an in-range cell. */
    function Index(c: Coord): (i: nat)
      requires Shaped() && InRange(c)
      ensures i < blocks.Length
    {
      BlockIndex(width, height, c.x, c.y).value
    }

    /** Distinct in-range cells use distinct slots. */
    lemma IndexInjective()
      requires Shaped()
      ensures forall c1, c2 :: InRange(c1) && InRange(c2) && Index(c1) == Index(c2) ==> c1 == c2
    {
      forall c1, c2 | InRange(c1) && InRange(c2) && Index(c1) == Index(c2)
        ensures c1 == c2
      {
        BlockIndexInjective(width, height, c1.x, c1.y, c2.x, c2.y);
      }
    }

    /** The block in an in-range cell. */
    function At(c: Coord): Block?
      requires Shaped() && InRange(c)
      reads blocks
    {
      blocks[Index(c)]
    }

    /** World::get_block_at: the block in cell (x, y), or None where the source throws. */
    function GetBlockAt(x: u32, y: u32): (r: Option<Block?>)
      requires Shaped()
      reads blocks
      ensures r.Some? <==> InRange(Coord(x, y))
    {
      match BlockIndex(width, height, x, y)
      case None => None
      case Some(i) => Some(blocks[i])
    }

    constructor (width: u32, height: u32)
      requires width * height < U32
      ensures Valid()
      ensures this.width == width && this.height == height
      ensures forall c :: InRange(c) ==> At(c) == null
      ensures stateQueue == [] && textureQueue == [] && trackTexture
      ensures entities == map[] && nonFx == [] && nextId == 0
    {
      this.width := width;
      this.height := height;
      var cells := new Block?[width * height](_ => null);
      assert forall i :: 0 <= i < cells.Length ==> cells[i] == null;
      blocks := cells;
      stateQueue := [];
      textureQueue := [];
      trackTexture := true;
      entities := map[];
      nonFx := [];
      nextId := 0;
      Footprint := {};
      Slot := map[];
    }

    /** World::mark_block_for_update: always queued for a state update, and listed for a
        texture update only while tracking is on. */
    method MarkBlockForUpdate(x: u32, y: u32)
      modifies this`stateQueue, this`textureQueue
      ensures stateQueue == old(stateQueue) + [Coord(x, y)]
      ensures textureQueue == old(textureQueue) + (if trackTexture then [Coord(x, y)] else [])
    {
      stateQueue := stateQueue + [Coord(x, y)];
      if trackTexture {
        textureQueue := textureQueue + [Coord(x, y)];
      }
    }

    /** World::set_update_blocks_render_texture: texture tracking goes on or off. */
    method SetTrackTexture(on: bool)
      requires Valid()
      modifies this`trackTexture
      ensures Valid() && trackTexture == on
    {
      trackTexture := on;
    }

    /** World::refresh_blocks_render_texture: the render-update list is emptied, since the
        whole grid is redrawn (the redraw itself is rendering). */
    method RefreshBlocksRenderTexture()
      requires Valid()
      modifies this`textureQueue
      ensures Valid() && textureQueue == []
    {
      textureQueue := [];
    }

    /** World::set_block_at: the block moves into cell (x, y), which must be in range; a
        block already owned by the grid cannot be moved in again. */
    method SetBlockAt(x: u32, y: u32, b: Block?) returns (ok: bool)
      requires Valid()
      requires b != null ==> b.Valid() && b !in blocks[..]
      modifies this`Footprint, this`Slot, blocks
      ensures Valid()
      ensures ok <==> InRange(Coord(x, y))
      ensures forall c :: InRange(c) ==> At(c) == if ok && c == Coord(x, y) then b else old(At(c))
    {
      var idx := BlockIndex(width, height, x, y);
      if idx.None? {
        return false;
      }
      IndexInjective();
      blocks[idx.value] := b;
      if b != null {
        Footprint := Footprint + {b};
        Slot := Slot[b := idx.value];
      }
      ok := true;
    }

    /** World::create_block_at: a fresh block of the kind at full health in cell (x, y),
        marked for update. Null (the source throws) when the cell is out of range, and then
        nothing changes. */
    method CreateBlockAt(x: u32, y: u32, kind: BlockType, tint: u32) returns (b: Block?)
      requires Valid()
      requires 205 <= tint <= 255
      modifies this`stateQueue, this`textureQueue, this`Footprint, this`Slot, blocks
      ensures Valid()
      ensures b == null <==> !InRange(Coord(x, y))
      ensures b != null ==> fresh(b) && b.kind == kind && b.health == MaxHealth(kind) && b.tint == tint
      ensures forall c :: InRange(c) ==> At(c) == if b != null && c == Coord(x, y) then b else old(At(c))
      ensures blocks[..] == if b != null then old(blocks[..])[Index(Coord(x, y)) := b] else old(blocks[..])
      ensures stateQueue == old(stateQueue) + (if b != null then [Coord(x, y)] else [])
      ensures textureQueue == old(textureQueue) + (if b != null && trackTexture then [Coord(x, y)] else [])
    {
      var idx := BlockIndex(width, height, x, y);
      if idx.None? {
        return null;
      }
      b := new Block.OfKind(kind, tint);
      IndexInjective();
      blocks[idx.value] := b;
      Footprint := Footprint + {b};
      Slot := Slot[b := idx.value];
      MarkBlockForUpdate(x, y);
    }

    /** World::remove_block_at: cell (x, y) becomes empty and is marked for update; false
        (the source throws) when it is out of range, and then nothing changes. */
    method RemoveBlockAt(x: u32, y: u32) returns (ok: bool)
      requires Valid()
      modifies this`stateQueue, this`textureQueue, blocks
      ensures Valid()
      ensures ok <==> InRange(Coord(x, y))
      ensures forall c :: InRange(c) ==> At(c) == if ok && c == Coord(x, y) then null else old(At(c))
      ensures ok ==> blocks[..] == old(blocks[..])[Index(Coord(x, y)) := null]
      ensures stateQueue == old(stateQueue) + (if ok then [Coord(x, y)] else [])
      ensures textureQueue == old(textureQueue) + (if ok && trackTexture then [Coord(x, y)] else [])
    {
      var idx := BlockIndex(width, height, x, y);
      if idx.None? {
        return false;
      }
      IndexInjective();
      blocks[idx.value] := null;
      MarkBlockForUpdate(x, y);
      ok := true;
    }

    /** World::get_entity: the entity registered under id, or null. */
    function GetEntity(id: EntityId): (e: Entity?)
      reads this
      ensures e != null <==> id in entities
      ensures e != null ==> e == entities[id]
    {
      if id in entities then entities[id] else null
    }

    /** World::add_entity: a null handle is refused with the invalid id; otherwise the entity
        gets the next id and this world, is registered, and its id is listed as non-fx iff it
        is not fx-only. The id space is not exhausted (the counter is below the sentinel). */
    method AddEntity(e: Entity?) returns (id: EntityId)
      requires Valid()
      requires nextId < INVALID_ENTITY_ID
      modifies this`entities, this`nonFx, this`nextId, e
      ensures Valid()
      ensures e == null ==> id == INVALID_ENTITY_ID && unchanged(this)
      ensures e != null ==> id == old(nextId) && nextId == old(nextId) + 1 && id != INVALID_ENTITY_ID
      ensures e != null ==> entities == old(entities)[id := e] && id !in old(entities)
      ensures e != null ==> nonFx == old(nonFx) + (if e.fxOnly then [] else [id])
      ensures e != null ==> e.id == id && e.world == this && e.markedForDeletion == old(e.markedForDeletion)
      ensures e != null ==> GetEntity(id) == e
    {
      if e == null {
        return INVALID_ENTITY_ID;
      }
      id := Register(e);
      e.AssignWorld(this, id);
    }

    /** The registry half of add_entity: e is keyed by the next id, which is then advanced. */
    method Register(e: Entity) returns (id: EntityId)
      requires Valid()
      requires nextId < INVALID_ENTITY_ID
      modifies this`entities, this`nonFx, this`nextId
      ensures Valid()
      ensures id == old(nextId) && nextId == old(nextId) + 1 && id !in old(entities)
      ensures entities == old(entities)[id := e]
      ensures nonFx == old(nonFx) + (if e.fxOnly then [] else [id])
    {
      Registry.AddKeepsInvariant(entities, nonFx, nextId, e);
      if !e.fxOnly {
        nonFx := nonFx + [nextId];
      }
      entities := entities[nextId := e];
      id := nextId;
      nextId := nextId + 1;
    }

    /** World::remove_entity: erases the key, and for a non-fx entity takes its id out of the
        non-fx list by swapping it with the last entry and popping. An unknown id is a no-op. */
    method RemoveEntity(id: EntityId)
      requires Valid()
      modifies this`entities, this`nonFx
      ensures Valid()
      ensures id !in old(entities) ==> unchanged(this)
      ensures id in old(entities) ==> entities == old(entities) - {id}
      ensures id in old(entities) ==> nonFx == Registry.Unlisted(old(entities), old(nonFx), id)
      ensures GetEntity(id) == null
    {
      if id in entities {
        Unregister(id);
      }
    }

    /** The registry half of remove_entity for a registered id. */
    method Unregister(id: EntityId)
      requires Valid() && id in entities
      modifies this`entities, this`nonFx
      ensures Valid()
      ensures entities == old(entities) - {id}
      ensures nonFx == Registry.Unlisted(old(entities), old(nonFx), id)
    {
      Registry.RemoveKeepsInvariant(entities, nonFx, nextId, id);
      if !entities[id].fxOnly {
        var k := FindNonFx(id);
        nonFx := Registry.SwapPop(nonFx, k);
      }
      entities := entities - {id};
      GridUntouched();
    }

    /** The std::find over the non-fx list: the first position holding id. */
    method FindNonFx(id: EntityId) returns (k: nat)
      requires id in nonFx
      ensures k == Registry.IndexOf(nonFx, id)
    {
      k := 0;
      while nonFx[k] != id
        invariant k <= Registry.IndexOf(nonFx, id)
        decreases Registry.IndexOf(nonFx, id) - k
      {
        k := k + 1;
      }
    }

    /** World::clear: every entity is removed, the id counter restarts at 0 and every cell
        is emptied. The two change-tracking collections are left as they are. */
    method Clear()
      requires Valid()
      modifies this`entities, this`nonFx, this`nextId, blocks
      ensures Valid()
      ensures entities == map[] && nonFx == [] && nextId == 0
      ensures forall c :: InRange(c) ==> At(c) == null
      ensures forall i :: 0 <= i < blocks.Length ==> blocks[i] == null
    {
      while entities != map[]
        invariant Valid()
        decreases |entities|
      {
        var id :| id in entities;
        RemoveEntity(id);
      }
      Registry.EmptyWithoutEntities(nonFx, nextId);
      nextId := 0;
      EmptyAllCells();
    }

    /** The cell half of clear: every slot is reset. */
    method EmptyAllCells()
      requires Valid()
      modifies blocks
      ensures Valid()
      ensures forall i :: 0 <= i < blocks.Length ==> blocks[i] == null
    {
      var i := 0;
      while i < blocks.Length
        invariant 0 <= i <= blocks.Length
        invariant forall j :: 0 <= j < i ==> blocks[j] == null
        invariant forall j :: i <= j < blocks.Length ==> blocks[j] == old(blocks[j])
      {
        blocks[i] := null;
        i := i + 1;
      }
    }

    /** The in-range cells holding a destroyed block. */
    ghost function DeadCells(): (d: set<Coord>)
      requires Shaped() && Framed()
      reads this`Footprint, this`Slot, blocks, Footprint
      ensures forall c :: c in d <==> InRange(c) && At(c) != null && At(c).health == 0
    {
      set x: u32, y: u32 | x < width && y < height && At(Coord(x, y)) != null && At(Coord(x, y)).health == 0
        :: Coord(x, y)
    }

    /** Where the drain of the queue q0 stands: k original entries and m re-queued entries
        popped, `emptied` the cells emptied so far (which were re-queued in that order). */
    ghost predicate DrainProgress(q0: seq<Coord>, dead0: set<Coord>, k: nat, emptied: seq<Coord>, m: nat, queue: seq<Coord>)
    {
      k <= |q0| && m <= |emptied| && (k < |q0| ==> m == 0)
      && queue == q0[k..] + emptied[m..]
      && (forall i :: 0 <= i < k ==> InRange(q0[i]))
      && emptied + Removed(q0[k..], dead0 - Cells(emptied)) == Removed(q0, dead0)
      && (forall i :: 0 <= i < |emptied| ==> InRange(emptied[i]) && emptied[i] in dead0)
    }

    lemma DrainStart(q0: seq<Coord>, dead0: set<Coord>)
      ensures DrainProgress(q0, dead0, 0, [], 0, q0)
    {
      assert Cells([]) == {};
      assert dead0 - Cells([]) == dead0;
      assert q0[0..] == q0;
    }

    /** Popping an in-range front entry, which re-queues it iff it was emptied. */
    lemma DrainStep(q0: seq<Coord>, dead0: set<Coord>, k: nat, emptied: seq<Coord>, m: nat, queue: seq<Coord>, e: bool)
      requires DrainProgress(q0, dead0, k, emptied, m, queue) && queue != [] && InRange(queue[0])
      requires e <==> queue[0] in dead0 - Cells(emptied)
      ensures k < |q0| ==> queue[0] == q0[k]
      ensures k < |q0| ==> DrainProgress(q0, dead0, k + 1, emptied + (if e then [queue[0]] else []), 0,
                                         queue[1..] + (if e then [queue[0]] else []))
      ensures k == |q0| ==> !e && DrainProgress(q0, dead0, k, emptied, m + 1, queue[1..])
    {
      if k < |q0| {
        assert emptied[m..] == emptied;
        assert queue == q0[k..] + emptied;
        assert queue[0] == q0[k];
        assert queue[1..] == q0[k + 1..] + emptied;
        RemovedStep(q0, dead0, k, emptied);
        var e' := emptied + (if e then [queue[0]] else []);
        assert e' == if q0[k] in dead0 - Cells(emptied) then emptied + [q0[k]] else emptied;
        assert e'[0..] == e';
        assert q0[k + 1..] + e'[0..] == queue[1..] + (if e then [queue[0]] else []);
        assert forall i :: 0 <= i < k + 1 ==> InRange(q0[i]);
        assert e' + Removed(q0[k + 1..], dead0 - Cells(e')) == Removed(q0, dead0);
        assert forall i :: 0 <= i < |e'| ==> InRange(e'[i]) && e'[i] in dead0;
      } else {
        assert queue[0] == emptied[m];
        assert queue[0] in Cells(emptied);
      }
    }

    /** An out-of-range front entry comes from the original queue. */
    lemma DrainStuck(q0: seq<Coord>, dead0: set<Coord>, k: nat, emptied: seq<Coord>, m: nat, queue: seq<Coord>)
      requires DrainProgress(q0, dead0, k, emptied, m, queue) && queue != [] && !InRange(queue[0])
      ensures !forall i :: 0 <= i < |q0| ==> InRange(q0[i])
      ensures forall c :: c in emptied ==> c in dead0
    {
      if k < |q0| {
        assert queue[0] == q0[k];
      }
    }

    /** With the queue empty, the emptied cells are exactly the whole pass's removals. */
    lemma DrainDone(q0: seq<Coord>, dead0: set<Coord>, k: nat, emptied: seq<Coord>, m: nat)
      requires DrainProgress(q0, dead0, k, emptied, m, [])
      ensures forall i :: 0 <= i < |q0| ==> InRange(q0[i])
      ensures emptied == Removed(q0, dead0)
      ensures forall c :: c in emptied <==> c in q0 && c in dead0
    {
      assert q0[k..] == [];
      RemovedMembers(q0, dead0);
    }

    /** One step of the drain: the front entry is popped after its cell is emptied if it held
        a destroyed block (which queues the cell again). False, with nothing changed, when the
        front entry is out of range. */
    method DrainFront() returns (inRange: bool, emptied: bool)
      requires Valid() && stateQueue != []
      modifies this`stateQueue, this`textureQueue, blocks
      ensures Valid()
      ensures inRange <==> InRange(old(stateQueue[0]))
      ensures !inRange ==> unchanged(this) && unchanged(blocks)
      ensures inRange ==> (emptied <==> old(At(stateQueue[0])) != null && old(At(stateQueue[0]).health) == 0)
      ensures inRange ==> stateQueue == old(stateQueue[1..]) + (if emptied then [old(stateQueue[0])] else [])
      ensures inRange ==> textureQueue == old(textureQueue) + (if emptied && trackTexture then [old(stateQueue[0])] else [])
      ensures inRange && emptied ==> blocks[..] == old(blocks[..])[Index(old(stateQueue[0])) := null]
      ensures !emptied ==> blocks[..] == old(blocks[..])
    {
      var c := stateQueue[0];
      var cell := GetBlockAt(c.x, c.y);
      if cell.None? {
        return false, false;
      }
      inRange := true;
      emptied := cell.value != null && cell.value.IsDestroyed();
      if emptied {
        var _ := RemoveBlockAt(c.x, c.y);
      }
      stateQueue := stateQueue[1..];
    }

    /** Where the drain stands relative to its start, on values: q0, cells0 and tq0 are the
        queue, the slots and the render list when it began; `queue`, `cells` and `tq` are
        them now. The emptied cells are `pushed`, every other cell is as it was, and the
        render list has grown by the emptied cells while tracking is on. */
    ghost predicate Draining(q0: seq<Coord>, dead0: set<Coord>, cells0: seq<Block?>, tq0: seq<Coord>, track: bool,
                             k: nat, pushed: seq<Coord>, m: nat, queue: seq<Coord>, cells: seq<Block?>, tq: seq<Coord>)
    {
      Shaped() && |cells0| == |cells| == blocks.Length
      && DrainProgress(q0, dead0, k, pushed, m, queue)
      && (forall c :: InRange(c) ==> cells[Index(c)] == if c in pushed then null else cells0[Index(c)])
      && tq == tq0 + (if track then pushed else [])
    }

    /** Popping an in-range front entry keeps Draining, emptying its cell iff it is a cell of
        dead0 not emptied yet. */
    lemma DrainAdvance(q0: seq<Coord>, dead0: set<Coord>, cells0: seq<Block?>, tq0: seq<Coord>, track: bool,
                       k: nat, pushed: seq<Coord>, m: nat, queue: seq<Coord>, cells: seq<Block?>, tq: seq<Coord>, e: bool)
      requires Draining(q0, dead0, cells0, tq0, track, k, pushed, m, queue, cells, tq)
      requires queue != [] && InRange(queue[0])
      requires e <==> queue[0] in dead0 && queue[0] !in pushed
      ensures k < |q0| ==> Draining(q0, dead0, cells0, tq0, track, k + 1, pushed + (if e then [queue[0]] else []), 0,
                                    queue[1..] + (if e then [queue[0]] else []),
                                    if e then cells[Index(queue[0]) := null] else cells,
                                    tq + (if e && track then [queue[0]] else []))
      ensures k == |q0| ==> !e && Draining(q0, dead0, cells0, tq0, track, k, pushed, m + 1, queue[1..], cells, tq)
    {
      assert queue[0] in Cells(pushed) <==> queue[0] in pushed;
      DrainStep(q0, dead0, k, pushed, m, queue, e);
      if e {
        IndexInjective();
      }
    }

    /** At any point of the drain, every cell holds what it held at the start or has been
        emptied, and only cells of dead0 are emptied. */
    lemma DrainSoFar(q0: seq<Coord>, dead0: set<Coord>, cells0: seq<Block?>, tq0: seq<Coord>, track: bool,
                     k: nat, pushed: seq<Coord>, m: nat, queue: seq<Coord>, cells: seq<Block?>, tq: seq<Coord>)
      requires Draining(q0, dead0, cells0, tq0, track, k, pushed, m, queue, cells, tq)
      ensures forall c :: InRange(c) ==> cells[Index(c)] == cells0[Index(c)] || (cells[Index(c)] == null && c in dead0)
    {
    }

    /** A drain that empties the queue has emptied exactly the queued cells of dead0, in
        the order Removed lists them, and listed them for a texture update while tracking. */
    lemma DrainFinal(q0: seq<Coord>, dead0: set<Coord>, cells0: seq<Block?>, tq0: seq<Coord>, track: bool,
                     k: nat, pushed: seq<Coord>, m: nat, cells: seq<Block?>, tq: seq<Coord>)
      requires Draining(q0, dead0, cells0, tq0, track, k, pushed, m, [], cells, tq)
      ensures forall i :: 0 <= i < |q0| ==> InRange(q0[i])
      ensures forall c :: InRange(c) ==> cells[Index(c)] == if c in q0 && c in dead0 then null else cells0[Index(c)]
      ensures tq == tq0 + (if track then Removed(q0, dead0) else [])
    {
      DrainDone(q0, dead0, k, pushed, m);
    }

    /** One tracked step of the drain: DrainFront, with the drain's progress carried along. */
    method DrainOne(ghost q0: seq<Coord>, ghost dead0: set<Coord>, ghost cells0: seq<Block?>, ghost tq0: seq<Coord>,
                    ghost k: nat, ghost pushed: seq<Coord>, ghost m: nat)
      returns (inRange: bool, ghost k': nat, ghost pushed': seq<Coord>, ghost m': nat)
      requires Valid() && stateQueue != []
      requires Draining(q0, dead0, cells0, tq0, trackTexture, k, pushed, m, stateQueue, blocks[..], textureQueue)
      requires forall c :: c in dead0 <==> InRange(c) && cells0[Index(c)] != null && cells0[Index(c)].health == 0
      modifies this`stateQueue, this`textureQueue, blocks
      ensures Valid()
      ensures inRange <==> InRange(old(stateQueue[0]))
      ensures !inRange ==> unchanged(this) && unchanged(blocks) && !forall i :: 0 <= i < |q0| ==> InRange(q0[i])
      ensures !inRange ==> k' == k && pushed' == pushed && m' == m
      ensures inRange ==> Draining(q0, dead0, cells0, tq0, trackTexture, k', pushed', m', stateQueue, blocks[..], textureQueue)
      ensures inRange ==> k' <= |q0| && (k < k' || (k' == k && |stateQueue| < old(|stateQueue|)))
    {
      ghost var queue := stateQueue;
      ghost var cells := blocks[..];
      ghost var c0 := stateQueue[0];
      var emptied;
      inRange, emptied := DrainFront();
      if !inRange {
        DrainStuck(q0, dead0, k, pushed, m, queue);
        return false, k, pushed, m;
      }
      assert cells[Index(c0)] == old(At(c0));
      DrainAdvance(q0, dead0, cells0, tq0, trackTexture, k, pushed, m, queue, cells, old(textureQueue), emptied);
      if k < |q0| {
        k', pushed', m' := k + 1, pushed + (if emptied then [c0] else []), 0;
      } else {
        k', pushed', m' := k, pushed, m + 1;
      }
    }

    /** Phase 1 of World::tick: the FIFO drain of the state queue. A queued cell holding a
        destroyed block is emptied through remove_block_at, which queues the cell again; the
        re-queued entries then find the cell empty, so the drain ends with the queue empty.
        An out-of-range entry makes get_block_at throw: the drain stops there (ok false) with
        that entry still queued, having emptied only cells that held destroyed blocks. */
    method DrainStateQueue() returns (ok: bool)
      requires Valid()
      modifies this`stateQueue, this`textureQueue, blocks
      ensures Valid()
      ensures ok <==> forall i :: 0 <= i < |old(stateQueue)| ==> InRange(old(stateQueue)[i])
      ensures ok ==> stateQueue == []
      ensures ok ==> forall c :: InRange(c) ==>
                At(c) == if c in old(stateQueue) && c in old(DeadCells()) then null else old(At(c))
      ensures ok ==> textureQueue == old(textureQueue) + (if trackTexture then Removed(old(stateQueue), old(DeadCells())) else [])
      ensures !ok ==> forall c :: InRange(c) ==> At(c) == old(At(c)) || (At(c) == null && c in old(DeadCells()))
      ensures !ok ==> stateQueue != [] && !InRange(stateQueue[0])
    {
      ghost var q0 := stateQueue;
      ghost var dead0 := DeadCells();
      ghost var cells0 := blocks[..];
      ghost var k := 0;
      ghost var pushed: seq<Coord> := [];
      ghost var m := 0;
      DrainStart(q0, dead0);
      ok := true;
      while stateQueue != []
        invariant Valid()
        invariant Draining(q0, dead0, cells0, old(textureQueue), trackTexture, k, pushed, m, stateQueue, blocks[..], textureQueue)
        invariant forall c :: c in dead0 <==> InRange(c) && cells0[Index(c)] != null && cells0[Index(c)].health == 0
        decreases |q0| - k, |stateQueue|
      {
        var inRange;
        inRange, k, pushed, m := DrainOne(q0, dead0, cells0, old(textureQueue), k, pushed, m);
        if !inRange {
          ok := false;
          break;
        }
      }
      if ok {
        DrainFinal(q0, dead0, cells0, old(textureQueue), trackTexture, k, pushed, m, blocks[..], textureQueue);
      } else {
        DrainSoFar(q0, dead0, cells0, old(textureQueue), trackTexture, k, pushed, m, stateQueue, blocks[..], textureQueue);
      }
    }

    /** Phase 2 of World::tick: every entity flagged for deletion is removed without being
        ticked, and every other entity is ticked once and kept. The map is walked in no
        particular order; `ticked` lists the ids ticked, each once. */
    method TickEntities() returns (ticked: seq<EntityId>)
      requires Valid()
      modifies this`entities, this`nonFx
      ensures Valid()
      ensures forall id :: id in entities <==> id in old(entities) && !old(entities)[id].markedForDeletion
      ensures forall id :: id in entities ==> entities[id] == old(entities)[id]
      ensures forall id :: id in ticked <==> id in entities
      ensures forall i, j :: 0 <= i < j < |ticked| ==> ticked[i] != ticked[j]
    {
      ghost var ents0 := entities;
      ghost var doomed := set id | id in entities && entities[id].markedForDeletion;
      var pending := entities.Keys;
      ticked := [];
      while pending != {}
        invariant Valid()
        invariant Culling(ents0, doomed, pending, ticked, entities)
        decreases |pending|
      {
        var id :| id in pending;
        var e := entities[id];
        CullStep(ents0, doomed, pending, ticked, entities, id);
        if e.markedForDeletion {
          RemoveEntity(id);
        } else {
          e.Tick();
          ticked := ticked + [id];
        }
        pending := pending - {id};
      }
    }

    /** World::tick: the state-queue drain, then the entity pass. When the drain stops on an
        out-of-range entry (get_block_at throws) the entity pass does not run. */
    method Tick() returns (ok: bool, ticked: seq<EntityId>)
      requires Valid()
      modifies this`stateQueue, this`textureQueue, this`entities, this`nonFx, blocks
      ensures Valid()
      ensures ok <==> forall i :: 0 <= i < |old(stateQueue)| ==> InRange(old(stateQueue)[i])
      ensures ok ==> stateQueue == []
      ensures ok ==> forall c :: InRange(c) ==>
                At(c) == if c in old(stateQueue) && c in old(DeadCells()) then null else old(At(c))
      ensures ok ==> forall id :: id in entities <==> id in old(entities) && !old(entities)[id].markedForDeletion
      ensures ok ==> forall id :: id in ticked <==> id in entities
      ensures !ok ==> entities == old(entities) && ticked == []
      ensures !ok ==> stateQueue != [] && !InRange(stateQueue[0])
      ensures forall id :: id in entities ==> entities[id] == old(entities)[id]
    {
      ok := DrainStateQueue();
      ticked := [];
      if ok {
        ticked := TickEntities();
      }
    }

    /** The drain loop of World::render. More than MAX_TEXTURE_UPDATES_FOR_CATCHUP pending
        entries force a catch-up that drains the whole list; otherwise the loop runs while at
        most MAX_TEXTURE_UPDATES_PER_RENDER cells have been refreshed, so up to one more than
        the cap are. Each step refreshes a randomly picked entry (`pick` stands for the
        random draw) and takes it out by swapping it with the last and popping. With tracking
        on, the refresh reads the cell and an out-of-range entry throws: false, with that
        entry still pending. With tracking off the refresh returns at once: the entries in
        `refreshed` are popped but nothing is drawn. */
    method RenderDrain(pick: (nat, nat) -> nat) returns (ok: bool, refreshed: seq<Coord>)
      modifies this`textureQueue
      ensures multiset(refreshed) + multiset(textureQueue) == multiset(old(textureQueue))
      ensures ok ==> |refreshed| == DrainQuota(|old(textureQueue)|)
      ensures ok ==> |textureQueue| == |old(textureQueue)| - DrainQuota(|old(textureQueue)|)
      ensures ok && trackTexture ==> forall c :: c in refreshed ==> InRange(c)
      ensures !ok ==> trackTexture && exists c :: c in textureQueue && !InRange(c)
    {
      var q := textureQueue;
      ghost var q0 := q;
      var force := |q| > MAX_TEXTURE_UPDATES_FOR_CATCHUP;
      var updated: nat := 0;
      refreshed := [];
      while q != [] && (updated <= MAX_TEXTURE_UPDATES_PER_RENDER || force)
        invariant updated == |refreshed| <= DrainQuota(|q0|)
        invariant |q| + updated == |q0|
        invariant force <==> |q0| > MAX_TEXTURE_UPDATES_FOR_CATCHUP
        invariant multiset(refreshed) + multiset(q) == multiset(q0)
        invariant trackTexture ==> forall c :: c in refreshed ==> InRange(c)
        decreases |q|
      {
        var i := pick(updated, |q|) % |q|;
        var c := q[i];
        // the refresh reads the cell through get_block_at, whose index check throws
        if trackTexture && !InRange(c) {
          textureQueue := q;
          return false, refreshed;
        }
        Registry.SwapPopMultiset(q, i);
        q := Registry.SwapPop(q, i);
        refreshed := refreshed + [c];
        updated := updated + 1;
      }
      textureQueue := q;
      ok := true;
    }

    /** A cell holding a block that is not destroyed. */
    ghost predicate Solid(c: Coord)
      requires Shaped() && Framed()
      reads this`Footprint, this`Slot, blocks, Footprint
    {
      InRange(c) && At(c) != null && At(c).health != 0
    }

    /** World::blocks_test_rectangle_collision: the first cell, in row-major order, of the
        rectangle's clipped cell range (QueryBox) that holds a block that is not destroyed.
        Null and (UINT32_MAX, UINT32_MAX) when the rectangle lies wholly off the grid or no
        such cell exists. */
    method BlocksTestRectangleCollision(rect: Rect) returns (b: Block?, pos: Coord)
      requires Shaped() && Framed()
      ensures b == null ==> pos == Coord(U32_MAX, U32_MAX)
      ensures b == null ==> forall c :: QueryBox(rect, width, height).Some? && QueryBox(rect, width, height).value.Contains(c) ==> !Solid(c)
      ensures b != null ==> QueryBox(rect, width, height).Some? && QueryBox(rect, width, height).value.Contains(pos)
      ensures b != null ==> Solid(pos) && b == At(pos)
      ensures b != null ==> forall c :: QueryBox(rect, width, height).value.Contains(c) && RowMajorBefore(c, pos) ==> !Solid(c)
    {
      var box := QueryBox(rect, width, height);
      if box.None? {
        return null, Coord(U32_MAX, U32_MAX);
      }
      var bx := box.value;
      var y := bx.y0;
      while y < bx.y1
        invariant y == bx.y0 || bx.y0 <= y <= bx.y1
        invariant forall c :: bx.Contains(c) && c.y < y ==> !Solid(c)
      {
        var x := bx.x0;
        while x < bx.x1
          invariant x == bx.x0 || bx.x0 <= x <= bx.x1
          invariant forall c :: bx.Contains(c) && (c.y < y || (c.y == y && c.x < x)) ==> !Solid(c)
        {
          var cell := GetBlockAt(x as u32, y as u32);
          if cell.value != null && !cell.value.IsDestroyed() {
            return cell.value, Coord(x as u32, y as u32);
          }
          x := x + 1;
        }
        y := y + 1;
      }
      return null, Coord(U32_MAX, U32_MAX);
    }

    /** World::entity_test_rectangle_collision: the first id on the non-fx list whose entity
        `hits` (is a rectangle entity that the query rectangle intersects), or the invalid id.
        Fx-only entities are never reported. */
    method EntityTestRectangleCollision(hits: EntityId -> bool) returns (id: EntityId)
      requires Valid()
      ensures id == INVALID_ENTITY_ID <==> forall i :: 0 <= i < |nonFx| ==> !hits(nonFx[i])
      ensures id != INVALID_ENTITY_ID ==> id in nonFx && hits(id) && id in entities && !entities[id].fxOnly
      ensures id != INVALID_ENTITY_ID ==> forall i :: 0 <= i < Registry.IndexOf(nonFx, id) ==> !hits(nonFx[i])
    {
      Registry.InvariantListsNonFx(entities, nonFx, nextId);
      var i := 0;
      while i < |nonFx|
        invariant 0 <= i <= |nonFx|
        invariant forall j :: 0 <= j < i ==> !hits(nonFx[j])
      {
        if hits(nonFx[i]) {
          assert Registry.IndexOf(nonFx, nonFx[i]) == i;
          return nonFx[i];
        }
        i := i + 1;
      }
      return INVALID_ENTITY_ID;
    }

    /** The health of every slot, 0 for an empty one. */
    ghost function Healths(): (hs: seq<u32>)
      requires Framed()
      reads this`Footprint, this`Slot, blocks, Footprint
      ensures |hs| == blocks.Length
    {
      var fp := Footprint;
      seq(blocks.Length, i requires 0 <= i < blocks.Length && (blocks[i] != null ==> blocks[i] in fp) reads blocks, fp =>
        if blocks[i] == null then 0 else blocks[i].health)
    }

    /** The health of a non-empty slot is its block's health. */
    lemma HealthsAt()
      requires Framed()
      ensures forall i :: 0 <= i < blocks.Length && blocks[i] != null ==> Healths()[i] == blocks[i].health
    {
    }

    /** What a blast acts on: the slot healths, the two marking collections and the id
        counter. */
    ghost function Snapshot(): (p: Progress)
      requires Framed()
      reads this, blocks, Footprint
      ensures |p.healths| == blocks.Length
    {
      Progress(Healths(), stateQueue, textureQueue, nextId as int)
    }

    /** Distinct in-range cells never hold the same block. */
    lemma OwnedApart(c: Coord)
      requires Shaped() && CellsOwned() && InRange(c)
      ensures forall d :: InRange(d) && d != c && At(d) != null ==> At(d) != At(c)
    {
      IndexInjective();
    }

    /** The health a block of the kind in cell c is left with when the blast bl hits it at
        health h. */
    function BlastedHealth(bl: Blast, kind: BlockType, h: u32, c: Coord): u32
      requires 0 < bl.r2 && Dist2(bl.cx, bl.cy, c.x, c.y) <= bl.r2
    {
      DamagedHealth(kind, h, ExplosionDamage(bl.centerDamage, Dist2(bl.cx, bl.cy, c.x, c.y), bl.r2))
    }

    /** The blast hits cell c when c lies within its disc and holds a block (cells is a
        snapshot of the slots). */
    ghost predicate Hit(cells: seq<Block?>, bl: Blast, c: Coord)
      requires Shaped() && |cells| == blocks.Length && InRange(c)
    {
      Dist2(bl.cx, bl.cy, c.x, c.y) <= bl.r2 && cells[Index(c)] != null
    }

    /** The slot healths hs after the blast visits cell c. */
    ghost function CellHealths(cells: seq<Block?>, bl: Blast, hs: seq<u32>, c: Coord): seq<u32>
      requires Shaped() && |cells| == |hs| == blocks.Length && InRange(c) && 0 < bl.r2
    {
      if Hit(cells, bl, c)
      then hs[Index(c) := BlastedHealth(bl, cells[Index(c)].kind, hs[Index(c)], c)]
      else hs
    }

    /** A hit cell spawns a gib when, at healths hs taken after the hit, its block is
        destroyed or is water, and the roll for the cell succeeds. */
    ghost predicate Gibbed(cells: seq<Block?>, bl: Blast, hs: seq<u32>, c: Coord)
      requires Shaped() && |cells| == |hs| == blocks.Length && InRange(c)
    {
      cells[Index(c)] != null && (hs[Index(c)] == 0 || cells[Index(c)].kind == Water) && bl.gibRoll(c.x, c.y)
    }

    /** One visit of explode_at's inner loop, from state p: a hit cell is damaged and
        marked (listed for a texture update only when track is on), and takes one id if it
        spawns a gib; any other cell changes nothing. */
    ghost function CellStep(cells: seq<Block?>, bl: Blast, track: bool, p: Progress, c: Coord): Progress
      requires Shaped() && |cells| == |p.healths| == blocks.Length && InRange(c) && 0 < bl.r2
    {
      if Hit(cells, bl, c) then
        var hs := CellHealths(cells, bl, p.healths, c);
        Progress(hs, p.stateQueue + [c], p.textureQueue + (if track then [c] else []),
                 p.nextId + (if Gibbed(cells, bl, hs, c) then 1 else 0))
      else p
    }

    /** The slot healths after the blast visits columns [x0, x1) of row y, left to right. */
    ghost function RowHealths(cells: seq<Block?>, bl: Blast, hs: seq<u32>, y: nat, x0: nat, x1: nat): (r: seq<u32>)
      requires Shaped() && |cells| == |hs| == blocks.Length && y < height && x1 <= width && 0 < bl.r2
      ensures |r| == blocks.Length
      decreases x1
    {
      if x1 <= x0 then hs
      else CellHealths(cells, bl, RowHealths(cells, bl, hs, y, x0, x1 - 1), Coord(x1 - 1, y))
    }

    /** The cells of row y, columns [x0, x1), that the blast damages and marks, in visiting
        order. */
    ghost function RowHits(cells: seq<Block?>, bl: Blast, y: nat, x0: nat, x1: nat): (s: seq<Coord>)
      requires Shaped() && |cells| == blocks.Length && y < height && x1 <= width
      ensures |s| <= if x0 <= x1 then x1 - x0 else 0
      decreases x1
    {
      if x1 <= x0 then []
      else
        var c := Coord(x1 - 1, y);
        RowHits(cells, bl, y, x0, x1 - 1) + (if Hit(cells, bl, c) then [c] else [])
    }

    /** The cells of row y, columns [x0, x1), that spawn a gib, in visiting order. */
    ghost function RowGibs(cells: seq<Block?>, bl: Blast, hs: seq<u32>, y: nat, x0: nat, x1: nat): (s: seq<Coord>)
      requires Shaped() && |cells| == |hs| == blocks.Length && y < height && x1 <= width && 0 < bl.r2
      ensures |s| <= if x0 <= x1 then x1 - x0 else 0
      decreases x1
    {
      if x1 <= x0 then []
      else
        var c := Coord(x1 - 1, y);
        RowGibs(cells, bl, hs, y, x0, x1 - 1)
        + (if Hit(cells, bl, c) && Gibbed(cells, bl, RowHealths(cells, bl, hs, y, x0, x1), c) then [c] else [])
    }

    /** The state the columns [x0, x) of row y leave, from state p: the inner loop's
        steps, left to right. */
    ghost function RowProgress(cells: seq<Block?>, bl: Blast, track: bool, p: Progress, y: nat, x0: nat, x: nat): (q: Progress)
      requires Shaped() && |cells| == |p.healths| == blocks.Length && y < height && x <= width && 0 < bl.r2
      ensures |q.healths| == blocks.Length
      decreases x
    {
      if x <= x0 then p
      else CellStep(cells, bl, track, RowProgress(cells, bl, track, p, y, x0, x - 1), Coord(x - 1, y))
    }

    /** The inner loop's state, field by field: the row's healths, its hits appended to the
        state queue (and to the render list while tracking is on), and one id per gib. */
    lemma RowProgressFields(cells: seq<Block?>, bl: Blast, track: bool, p: Progress, y: nat, x0: nat, x: nat)
      requires Shaped() && |cells| == |p.healths| == blocks.Length && y < height && x <= width && 0 < bl.r2
      ensures RowProgress(cells, bl, track, p, y, x0, x)
              == Progress(RowHealths(cells, bl, p.healths, y, x0, x),
                          p.stateQueue + RowHits(cells, bl, y, x0, x),
                          p.textureQueue + (if track then RowHits(cells, bl, y, x0, x) else []),
                          p.nextId + |RowGibs(cells, bl, p.healths, y, x0, x)|)
    {
      RowProgressHealths(cells, bl, track, p, y, x0, x);
      RowProgressQueues(cells, bl, track, p, y, x0, x);
      RowProgressIds(cells, bl, track, p, y, x0, x);
    }

    lemma {:induction false} RowProgressHealths(cells: seq<Block?>, bl: Blast, track: bool, p: Progress, y: nat, x0: nat, x: nat)
      requires Shaped() && |cells| == |p.healths| == blocks.Length && y < height && x <= width && 0 < bl.r2
      ensures RowProgress(cells, bl, track, p, y, x0, x).healths == RowHealths(cells, bl, p.healths, y, x0, x)
      decreases x
    {
      if x0 < x {
        RowProgressHealths(cells, bl, track, p, y, x0, x - 1);
      }
    }

    lemma {:induction false} RowProgressQueues(cells: seq<Block?>, bl: Blast, track: bool, p: Progress, y: nat, x0: nat, x: nat)
      requires Shaped() && |cells| == |p.healths| == blocks.Length && y < height && x <= width && 0 < bl.r2
      ensures RowProgress(cells, bl, track, p, y, x0, x).stateQueue == p.stateQueue + RowHits(cells, bl, y, x0, x)
      ensures RowProgress(cells, bl, track, p, y, x0, x).textureQueue
              == p.textureQueue + (if track then RowHits(cells, bl, y, x0, x) else [])
      decreases x
    {
      if x <= x0 {
        assert p.stateQueue + [] == p.stateQueue;
        assert p.textureQueue + [] == p.textureQueue;
      } else {
        RowProgressQueues(cells, bl, track, p, y, x0, x - 1);
        var hits := RowHits(cells, bl, y, x0, x - 1);
        var c := Coord(x - 1, y);
        var step := if Hit(cells, bl, c) then [c] else [];
        assert p.stateQueue + hits + step == p.stateQueue + (hits + step);
        assert p.textureQueue + hits + step == p.textureQueue + (hits + step);
      }
    }

    lemma {:induction false} RowProgressIds(cells: seq<Block?>, bl: Blast, track: bool, p: Progress, y: nat, x0: nat, x: nat)
      requires Shaped() && |cells| == |p.healths| == blocks.Length && y < height && x <= width && 0 < bl.r2
      ensures RowProgress(cells, bl, track, p, y, x0, x).nextId == p.nextId + |RowGibs(cells, bl, p.healths, y, x0, x)|
      decreases x
    {
      if x0 < x {
        RowProgressIds(cells, bl, track, p, y, x0, x - 1);
        RowProgressHealths(cells, bl, track, p, y, x0, x - 1);
      }
    }

    /** Within one row the blast changes exactly the hit cells' healths, each once. */
    lemma {:induction false} RowHealthsAt(cells: seq<Block?>, bl: Blast, hs: seq<u32>, y: nat, x0: nat, x1: nat)
      requires Shaped() && |cells| == |hs| == blocks.Length && y < height && x1 <= width && 0 < bl.r2
      ensures forall c :: InRange(c) ==>
                RowHealths(cells, bl, hs, y, x0, x1)[Index(c)]
                == if c.y == y && x0 <= c.x < x1 && Hit(cells, bl, c)
                   then BlastedHealth(bl, cells[Index(c)].kind, hs[Index(c)], c)
                   else hs[Index(c)]
      decreases x1
    {
      if x0 < x1 {
        RowHealthsAt(cells, bl, hs, y, x0, x1 - 1);
        IndexInjective();
      }
    }

    /** The hits of one row are its cells within the disc that hold a block, left to right. */
    lemma {:induction false} RowHitsMembers(cells: seq<Block?>, bl: Blast, y: nat, x0: nat, x1: nat)
      requires Shaped() && |cells| == blocks.Length && y < height && x1 <= width
      ensures forall c :: c in RowHits(cells, bl, y, x0, x1) <==> c.y == y && x0 <= c.x < x1 && Hit(cells, bl, c)
      ensures forall i, j :: 0 <= i < j < |RowHits(cells, bl, y, x0, x1)| ==>
                RowHits(cells, bl, y, x0, x1)[i].x < RowHits(cells, bl, y, x0, x1)[j].x
      decreases x1
    {
      if x0 < x1 {
        RowHitsMembers(cells, bl, y, x0, x1 - 1);
      }
    }

    /** The gibs of one row: the hit cells whose block the blast destroys or that hold
        water, and whose roll succeeds, left to right. */
    lemma RowGibsMembers(cells: seq<Block?>, bl: Blast, hs: seq<u32>, y: nat, x0: nat, x1: nat)
      requires Shaped() && |cells| == |hs| == blocks.Length && y < height && x1 <= width && 0 < bl.r2
      ensures forall c :: c in RowGibs(cells, bl, hs, y, x0, x1) <==>
                c.y == y && x0 <= c.x < x1 && Hit(cells, bl, c)
                && Gibbed(cells, bl, hs[Index(c) := BlastedHealth(bl, cells[Index(c)].kind, hs[Index(c)], c)], c)
      ensures forall i, j :: 0 <= i < j < |RowGibs(cells, bl, hs, y, x0, x1)| ==>
                RowGibs(cells, bl, hs, y, x0, x1)[i].x < RowGibs(cells, bl, hs, y, x0, x1)[j].x
    {
      RowGibsIn(cells, bl, hs, y, x0, x1);
      RowGibsOrdered(cells, bl, hs, y, x0, x1);
    }

    lemma {:induction false} RowGibsIn(cells: seq<Block?>, bl: Blast, hs: seq<u32>, y: nat, x0: nat, x1: nat)
      requires Shaped() && |cells| == |hs| == blocks.Length && y < height && x1 <= width && 0 < bl.r2
      ensures forall c :: c in RowGibs(cells, bl, hs, y, x0, x1) <==>
                c.y == y && x0 <= c.x < x1 && Hit(cells, bl, c)
                && Gibbed(cells, bl, hs[Index(c) := BlastedHealth(bl, cells[Index(c)].kind, hs[Index(c)], c)], c)
      decreases x1
    {
      if x0 < x1 {
        RowGibsIn(cells, bl, hs, y, x0, x1 - 1);
        RowHealthsAt(cells, bl, hs, y, x0, x1);
      }
    }

    /** The gibs of row y lie in that row, within [x0, x1), left to right. */
    lemma {:induction false} RowGibsOrdered(cells: seq<Block?>, bl: Blast, hs: seq<u32>, y: nat, x0: nat, x1: nat)
      requires Shaped() && |cells| == |hs| == blocks.Length && y < height && x1 <= width && 0 < bl.r2
      ensures forall c :: c in RowGibs(cells, bl, hs, y, x0, x1) ==> c.y == y && x0 <= c.x < x1
      ensures forall i, j :: 0 <= i < j < |RowGibs(cells, bl, hs, y, x0, x1)| ==>
                RowGibs(cells, bl, hs, y, x0, x1)[i].x < RowGibs(cells, bl, hs, y, x0, x1)[j].x
      decreases x1
    {
      if x0 < x1 {
        RowGibsOrdered(cells, bl, hs, y, x0, x1 - 1);
      }
    }

    /** The slot healths after the blast visits rows [b.y0, y1) of the box b. */
    ghost function BoxHealths(cells: seq<Block?>, bl: Blast, hs: seq<u32>, b: Box, y1: int): (r: seq<u32>)
      requires Shaped() && |cells| == |hs| == blocks.Length && 0 < bl.r2
      requires 0 <= b.x0 && 0 <= b.x1 <= width && 0 <= b.y0 && y1 <= height
      ensures |r| == blocks.Length
      decreases y1
    {
      if y1 <= b.y0 then hs
      else RowHealths(cells, bl, BoxHealths(cells, bl, hs, b, y1 - 1), y1 - 1, b.x0, b.x1)
    }

    /** The cells of rows [b.y0, y1) of the box b that the blast damages and marks, in the
        row-major order explode_at visits them. */
    ghost function BoxHits(cells: seq<Block?>, bl: Blast, b: Box, y1: int): seq<Coord>
      requires Shaped() && |cells| == blocks.Length
      requires 0 <= b.x0 && 0 <= b.x1 <= width && 0 <= b.y0 && y1 <= height
      decreases y1
    {
      if y1 <= b.y0 then []
      else BoxHits(cells, bl, b, y1 - 1) + RowHits(cells, bl, y1 - 1, b.x0, b.x1)
    }

    /** The cells of rows [b.y0, y1) of the box b that spawn a gib, in visiting order. */
    ghost function BoxGibs(cells: seq<Block?>, bl: Blast, hs: seq<u32>, b: Box, y1: int): seq<Coord>
      requires Shaped() && |cells| == |hs| == blocks.Length && 0 < bl.r2
      requires 0 <= b.x0 && 0 <= b.x1 <= width && 0 <= b.y0 && y1 <= height
      decreases y1
    {
      if y1 <= b.y0 then []
      else BoxGibs(cells, bl, hs, b, y1 - 1) + RowGibs(cells, bl, BoxHealths(cells, bl, hs, b, y1 - 1), y1 - 1, b.x0, b.x1)
    }

    /** The state the rows [b.y0, y) of the box b leave, from state p: the outer loop's
        passes, top to bottom. */
    ghost function BoxProgress(cells: seq<Block?>, bl: Blast, track: bool, p: Progress, b: Box, y: int): (q: Progress)
      requires Shaped() && |cells| == |p.healths| == blocks.Length && 0 < bl.r2
      requires 0 <= b.x0 && 0 <= b.x1 <= width && 0 <= b.y0 && y <= height
      ensures |q.healths| == blocks.Length
      decreases y
    {
      if y <= b.y0 then p
      else RowProgress(cells, bl, track, BoxProgress(cells, bl, track, p, b, y - 1), y - 1, b.x0, b.x1)
    }

    /** The outer loop's state, field by field: the box's healths, its hits appended to the
        state queue (and to the render list while tracking is on), and one id per gib. */
    lemma BoxProgressFields(cells: seq<Block?>, bl: Blast, track: bool, p: Progress, b: Box, y: int)
      requires Shaped() && |cells| == |p.healths| == blocks.Length && 0 < bl.r2
      requires 0 <= b.x0 && 0 <= b.x1 <= width && 0 <= b.y0 && y <= height
      ensures BoxProgress(cells, bl, track, p, b, y)
              == Progress(BoxHealths(cells, bl, p.healths, b, y),
                          p.stateQueue + BoxHits(cells, bl, b, y),
                          p.textureQueue + (if track then BoxHits(cells, bl, b, y) else []),
                          p.nextId + |BoxGibs(cells, bl, p.healths, b, y)|)
    {
      BoxProgressHealths(cells, bl, track, p, b, y);
      BoxProgressQueues(cells, bl, track, p, b, y);
      BoxProgressIds(cells, bl, track, p, b, y);
    }

    lemma {:induction false} BoxProgressHealths(cells: seq<Block?>, bl: Blast, track: bool, p: Progress, b: Box, y: int)
      requires Shaped() && |cells| == |p.healths| == blocks.Length && 0 < bl.r2
      requires 0 <= b.x0 && 0 <= b.x1 <= width && 0 <= b.y0 && y <= height
      ensures BoxProgress(cells, bl, track, p, b, y).healths == BoxHealths(cells, bl, p.healths, b, y)
      decreases y
    {
      if b.y0 < y {
        BoxProgressHealths(cells, bl, track, p, b, y - 1);
        RowProgressHealths(cells, bl, track, BoxProgress(cells, bl, track, p, b, y - 1), y - 1, b.x0, b.x1);
      }
    }

    lemma {:induction false} BoxProgressQueues(cells: seq<Block?>, bl: Blast, track: bool, p: Progress, b: Box, y: int)
      requires Shaped() && |cells| == |p.healths| == blocks.Length && 0 < bl.r2
      requires 0 <= b.x0 && 0 <= b.x1 <= width && 0 <= b.y0 && y <= height
      ensures BoxProgress(cells, bl, track, p, b, y).stateQueue == p.stateQueue + BoxHits(cells, bl, b, y)
      ensures BoxProgress(cells, bl, track, p, b, y).textureQueue
              == p.textureQueue + (if track then BoxHits(cells, bl, b, y) else [])
      decreases y
    {
      if y <= b.y0 {
        assert p.stateQueue + [] == p.stateQueue;
        assert p.textureQueue + [] == p.textureQueue;
      } else {
        BoxProgressQueues(cells, bl, track, p, b, y - 1);
        RowProgressQueues(cells, bl, track, BoxProgress(cells, bl, track, p, b, y - 1), y - 1, b.x0, b.x1);
        var prev := BoxHits(cells, bl, b, y - 1);
        var row := RowHits(cells, bl, y - 1, b.x0, b.x1);
        assert p.stateQueue + prev + row == p.stateQueue + (prev + row);
        assert p.textureQueue + prev + row == p.textureQueue + (prev + row);
      }
    }

    lemma {:induction false} BoxProgressIds(cells: seq<Block?>, bl: Blast, track: bool, p: Progress, b: Box, y: int)
      requires Shaped() && |cells| == |p.healths| == blocks.Length && 0 < bl.r2
      requires 0 <= b.x0 && 0 <= b.x1 <= width && 0 <= b.y0 && y <= height
      ensures BoxProgress(cells, bl, track, p, b, y).nextId == p.nextId + |BoxGibs(cells, bl, p.healths, b, y)|
      decreases y
    {
      if b.y0 < y {
        var q := BoxProgress(cells, bl, track, p, b, y - 1);
        var hs := BoxHealths(cells, bl, p.healths, b, y - 1);
        BoxProgressIds(cells, bl, track, p, b, y - 1);
        BoxProgressHealths(cells, bl, track, p, b, y - 1);
        RowProgressIds(cells, bl, track, q, y - 1, b.x0, b.x1);
        assert q.healths == hs;
        var row := RowGibs(cells, bl, hs, y - 1, b.x0, b.x1);
        assert BoxProgress(cells, bl, track, p, b, y).nextId == q.nextId + |row|;
        assert BoxGibs(cells, bl, p.healths, b, y) == BoxGibs(cells, bl, p.healths, b, y - 1) + row;
      }
    }

    /** Each visited row spawns at most width gibs. */
    lemma {:induction false} BoxGibsBound(cells: seq<Block?>, bl: Blast, hs: seq<u32>, b: Box, y1: int)
      requires Shaped() && |cells| == |hs| == blocks.Length && 0 < bl.r2
      requires 0 <= b.x0 && 0 <= b.x1 <= width && 0 <= b.y0 <= y1 <= height
      ensures |BoxGibs(cells, bl, hs, b, y1)| <= width * (y1 - b.y0)
      decreases y1
    {
      if b.y0 < y1 {
        BoxGibsBound(cells, bl, hs, b, y1 - 1);
        assert width * (y1 - b.y0) == width * (y1 - 1 - b.y0) + width;
      }
    }

    /** The gibs of the rows before y leave room for one more row of them, within the
        number of cells. */
    lemma BoxGibsRoom(cells: seq<Block?>, bl: Blast, hs: seq<u32>, b: Box, y: int)
      requires Shaped() && |cells| == |hs| == blocks.Length && 0 < bl.r2
      requires 0 <= b.x0 && 0 <= b.x1 <= width && 0 <= b.y0 <= y <= height
      ensures |BoxGibs(cells, bl, hs, b, y)| <= blocks.Length
      ensures y < height ==> |BoxGibs(cells, bl, hs, b, y)| + width <= blocks.Length
    {
      BoxGibsBound(cells, bl, hs, b, y);
      MulMono(width, y - b.y0, height - b.y0);
      MulMono(width, height - b.y0, height);
      if y < height {
        MulMono(width, y - b.y0 + 1, height - b.y0);
        assert width * (y - b.y0 + 1) == width * (y - b.y0) + width;
      }
    }

    /** Over the box, the blast changes exactly the hit cells' healths, each once. */
    lemma {:induction false} BoxHealthsAt(cells: seq<Block?>, bl: Blast, hs: seq<u32>, b: Box, y1: int)
      requires Shaped() && |cells| == |hs| == blocks.Length && 0 < bl.r2
      requires 0 <= b.x0 && 0 <= b.x1 <= width && 0 <= b.y0 && y1 <= height
      ensures forall c :: InRange(c) ==>
                BoxHealths(cells, bl, hs, b, y1)[Index(c)]
                == if b.y0 <= c.y < y1 && b.x0 <= c.x < b.x1 && Hit(cells, bl, c)
                   then BlastedHealth(bl, cells[Index(c)].kind, hs[Index(c)], c)
                   else hs[Index(c)]
      decreases y1
    {
      if b.y0 < y1 {
        BoxHealthsAt(cells, bl, hs, b, y1 - 1);
        RowHealthsAt(cells, bl, BoxHealths(cells, bl, hs, b, y1 - 1), y1 - 1, b.x0, b.x1);
      }
    }

    /** The box's hits are its cells within the disc that hold a block, in row-major order. */
    lemma {:induction false} BoxHitsMembers(cells: seq<Block?>, bl: Blast, b: Box, y1: int)
      requires Shaped() && |cells| == blocks.Length
      requires 0 <= b.x0 && 0 <= b.x1 <= width && 0 <= b.y0 && y1 <= height
      ensures forall c :: c in BoxHits(cells, bl, b, y1) <==> b.y0 <= c.y < y1 && b.x0 <= c.x < b.x1 && Hit(cells, bl, c)
      ensures forall i, j :: 0 <= i < j < |BoxHits(cells, bl, b, y1)| ==>
                RowMajorBefore(BoxHits(cells, bl, b, y1)[i], BoxHits(cells, bl, b, y1)[j])
      decreases y1
    {
      if b.y0 < y1 {
        var prev := BoxHits(cells, bl, b, y1 - 1);
        var row := RowHits(cells, bl, y1 - 1, b.x0, b.x1);
        BoxHitsMembers(cells, bl, b, y1 - 1);
        RowHitsMembers(cells, bl, y1 - 1, b.x0, b.x1);
        forall i, j | 0 <= i < j < |prev + row|
          ensures RowMajorBefore((prev + row)[i], (prev + row)[j])
        {
          if j >= |prev| && i < |prev| {
            assert prev[i] in prev && row[j - |prev|] in row;
          }
        }
      }
    }

    /** The box's gibs are its hit cells whose block the blast destroys or that hold
        water, and whose roll succeeds, in row-major order. */
    lemma BoxGibsMembers(cells: seq<Block?>, bl: Blast, hs: seq<u32>, b: Box, y1: int)
      requires Shaped() && |cells| == |hs| == blocks.Length && 0 < bl.r2
      requires 0 <= b.x0 && 0 <= b.x1 <= width && 0 <= b.y0 && y1 <= height
      ensures forall c :: c in BoxGibs(cells, bl, hs, b, y1) <==>
                b.y0 <= c.y < y1 && b.x0 <= c.x < b.x1 && Hit(cells, bl, c)
                && Gibbed(cells, bl, hs[Index(c) := BlastedHealth(bl, cells[Index(c)].kind, hs[Index(c)], c)], c)
      ensures forall i, j :: 0 <= i < j < |BoxGibs(cells, bl, hs, b, y1)| ==>
                RowMajorBefore(BoxGibs(cells, bl, hs, b, y1)[i], BoxGibs(cells, bl, hs, b, y1)[j])
    {
      BoxGibsIn(cells, bl, hs, b, y1);
      BoxGibsOrdered(cells, bl, hs, b, y1);
    }

    lemma {:induction false} BoxGibsIn(cells: seq<Block?>, bl: Blast, hs: seq<u32>, b: Box, y1: int)
      requires Shaped() && |cells| == |hs| == blocks.Length && 0 < bl.r2
      requires 0 <= b.x0 && 0 <= b.x1 <= width && 0 <= b.y0 && y1 <= height
      ensures forall c :: c in BoxGibs(cells, bl, hs, b, y1) <==>
                b.y0 <= c.y < y1 && b.x0 <= c.x < b.x1 && Hit(cells, bl, c)
                && Gibbed(cells, bl, hs[Index(c) := BlastedHealth(bl, cells[Index(c)].kind, hs[Index(c)], c)], c)
      decreases y1
    {
      if b.y0 < y1 {
        var mid := BoxHealths(cells, bl, hs, b, y1 - 1);
        var row := RowGibs(cells, bl, mid, y1 - 1, b.x0, b.x1);
        BoxGibsIn(cells, bl, hs, b, y1 - 1);
        RowGibsIn(cells, bl, mid, y1 - 1, b.x0, b.x1);
        BoxHealthsAt(cells, bl, hs, b, y1 - 1);
        forall c | InRange(c) && c.y == y1 - 1
          ensures mid[Index(c)] == hs[Index(c)]
        {
        }
      }
    }

    /** The box's gibs lie in rows [b.y0, y1), in row-major order. */
    lemma {:induction false} BoxGibsOrdered(cells: seq<Block?>, bl: Blast, hs: seq<u32>, b: Box, y1: int)
      requires Shaped() && |cells| == |hs| == blocks.Length && 0 < bl.r2
      requires 0 <= b.x0 && 0 <= b.x1 <= width && 0 <= b.y0 && y1 <= height
      ensures forall c :: c in BoxGibs(cells, bl, hs, b, y1) ==> b.y0 <= c.y < y1
      ensures forall i, j :: 0 <= i < j < |BoxGibs(cells, bl, hs, b, y1)| ==>
                RowMajorBefore(BoxGibs(cells, bl, hs, b, y1)[i], BoxGibs(cells, bl, hs, b, y1)[j])
      decreases y1
    {
      if b.y0 < y1 {
        var mid := BoxHealths(cells, bl, hs, b, y1 - 1);
        var prev := BoxGibs(cells, bl, hs, b, y1 - 1);
        var row := RowGibs(cells, bl, mid, y1 - 1, b.x0, b.x1);
        BoxGibsOrdered(cells, bl, hs, b, y1 - 1);
        RowGibsOrdered(cells, bl, mid, y1 - 1, b.x0, b.x1);
        forall i, j | 0 <= i < j < |prev + row|
          ensures RowMajorBefore((prev + row)[i], (prev + row)[j])
        {
          if j >= |prev| && i < |prev| {
            assert prev[i] in prev && row[j - |prev|] in row;
          }
        }
      }
    }

    /** explode_at returns at once, doing nothing, for a zero radius or a centre whose
        disc starts past the grid's right or bottom edge. */
    predicate Quiet(cx: u32, cy: u32, r: u16)
    {
      r == 0 || cx - r >= width || cy - r >= height
    }

    /** The cells explode_at(cx, cy, r, centerDamage) damages and marks, in the order it
        marks them. */
    ghost function BlastHits(cx: u32, cy: u32, r: u16, centerDamage: u32, gibRoll: (u32, u32) -> bool): seq<Coord>
      requires Shaped()
      reads blocks
    {
      if Quiet(cx, cy, r) then []
      else
        var b := BlastBox(cx, cy, r, width, height);
        BoxHits(blocks[..], Blast(cx, cy, RadiusSq(r), centerDamage, gibRoll), b, b.y1)
    }

    /** The cells for which explode_at(cx, cy, r, centerDamage) spawns a gib, in the order
        it spawns them. */
    ghost function BlastGibs(cx: u32, cy: u32, r: u16, centerDamage: u32, gibRoll: (u32, u32) -> bool): seq<Coord>
      requires Shaped() && Framed()
      reads this`Footprint, this`Slot, blocks, Footprint
    {
      if Quiet(cx, cy, r) then []
      else
        var b := BlastBox(cx, cy, r, width, height);
        BoxGibs(blocks[..], Blast(cx, cy, RadiusSq(r), centerDamage, gibRoll), Healths(), b, b.y1)
    }

    /** explode_at marks exactly the in-range cells within the disc that hold a block, once
        each, in row-major order; a zero radius marks nothing. */
    lemma BlastHitsMembers(cx: u32, cy: u32, r: u16, centerDamage: u32, gibRoll: (u32, u32) -> bool)
      requires Shaped() && r <= MAX_BLAST_RADIUS
      ensures forall c :: c in BlastHits(cx, cy, r, centerDamage, gibRoll) <==>
                InRange(c) && 0 < r && InBlast(cx, cy, r, width, height, c) && At(c) != null
      ensures forall i, j :: 0 <= i < j < |BlastHits(cx, cy, r, centerDamage, gibRoll)| ==>
                RowMajorBefore(BlastHits(cx, cy, r, centerDamage, gibRoll)[i], BlastHits(cx, cy, r, centerDamage, gibRoll)[j])
    {
      if !Quiet(cx, cy, r) {
        var b := BlastBox(cx, cy, r, width, height);
        BoxHitsMembers(blocks[..], Blast(cx, cy, RadiusSq(r), centerDamage, gibRoll), b, b.y1);
      }
    }

    /** explode_at spawns a gib exactly for the cells it damages whose block it destroys or
        that hold water, and whose roll succeeds, in row-major order. */
    lemma BlastGibsMembers(cx: u32, cy: u32, r: u16, centerDamage: u32, gibRoll: (u32, u32) -> bool)
      requires Shaped() && Framed() && r <= MAX_BLAST_RADIUS
      ensures forall c :: c in BlastGibs(cx, cy, r, centerDamage, gibRoll) <==>
                InRange(c) && 0 < r && InBlast(cx, cy, r, width, height, c) && At(c) != null
                && (BlastedHealth(Blast(cx, cy, RadiusSq(r), centerDamage, gibRoll), At(c).kind, At(c).health, c) == 0
                    || At(c).kind == Water)
                && gibRoll(c.x, c.y)
      ensures forall i, j :: 0 <= i < j < |BlastGibs(cx, cy, r, centerDamage, gibRoll)| ==>
                RowMajorBefore(BlastGibs(cx, cy, r, centerDamage, gibRoll)[i], BlastGibs(cx, cy, r, centerDamage, gibRoll)[j])
    {
      if !Quiet(cx, cy, r) {
        var b := BlastBox(cx, cy, r, width, height);
        BoxGibsMembers(blocks[..], Blast(cx, cy, RadiusSq(r), centerDamage, gibRoll), Healths(), b, b.y1);
      }
    }

    /** Damages the block in cell (x, y) and marks the cell for update. */
    method DamageBlockAt(x: u32, y: u32, amount: u32)
      requires Valid() && InRange(Coord(x, y)) && At(Coord(x, y)) != null
      modifies this`stateQueue, this`textureQueue, At(Coord(x, y))
      ensures Valid()
      ensures Healths() == old(Healths())[Index(Coord(x, y)) :=
                DamagedHealth(At(Coord(x, y)).kind, old(Healths())[Index(Coord(x, y))], amount)]
      ensures stateQueue == old(stateQueue) + [Coord(x, y)]
      ensures textureQueue == old(textureQueue) + (if trackTexture then [Coord(x, y)] else [])
    {
      ghost var hs := Healths();
      ghost var i := Index(Coord(x, y));
      var b := GetBlockAt(x, y).value;
      b.Damage(amount);
      MarkBlockForUpdate(x, y);
      assert forall j :: 0 <= j < blocks.Length && j != i && blocks[j] != null ==> blocks[j] != b;
      assert forall j :: 0 <= j < blocks.Length ==> Healths()[j] == hs[i := DamagedHealth(b.kind, hs[i], amount)][j];
    }

    /** Admits a gib for cell (x, y): an fx-only physics entity, 4 cells' side square, at
        the cell's position. Its random velocity and its copy of the block are not modelled. */
    method SpawnGib(x: u32, y: u32)
      requires Valid() && nextId < INVALID_ENTITY_ID
      modifies this
      ensures Valid()
      ensures nextId == old(nextId) + 1 && Grown(old(entities), old(nextId), entities, nextId)
      ensures nonFx == old(nonFx) && Footprint == old(Footprint)
      ensures stateQueue == old(stateQueue) && textureQueue == old(textureQueue) && trackTexture == old(trackTexture)
    {
      var gib := new PhysicsEntity(true);
      gib.SetRectangle(Rect(0.0, 0.0, 4.0 * BLOCK_SIZE, 4.0 * BLOCK_SIZE));
      gib.SetPosition(Vec2(x as real * BLOCK_SIZE, y as real * BLOCK_SIZE));
      var _ := AddEntity(gib.entity);
    }

    /** The body of explode_at's inner loop for cell (x, y) of the box of radius r: a cell
        within the disc that holds a block is damaged by the falloff amount and marked, and
        then spawns a gib if the block is destroyed or is water and the roll succeeds. */
    method ExplodeCell(bl: Blast, r: nat, x: u32, y: u32)
      requires Valid() && r <= MAX_BLAST_RADIUS && 0 < bl.r2
      requires BlastBox(bl.cx, bl.cy, r, width, height).Contains(Coord(x, y)) && InRange(Coord(x, y))
      requires nextId < INVALID_ENTITY_ID
      modifies this, At(Coord(x, y))
      ensures Valid()
      ensures Snapshot() == CellStep(blocks[..], bl, trackTexture, old(Snapshot()), Coord(x, y))
      ensures Grown(old(entities), old(nextId), entities, nextId)
      ensures nonFx == old(nonFx) && trackTexture == old(trackTexture) && Footprint == old(Footprint)
    {
      var d2 := BlastDist2(bl.cx, bl.cy, r, width, height, Coord(x, y));
      if d2 as int <= bl.r2 {
        var b := GetBlockAt(x, y).value;
        if b != null {
          DamageBlockAt(x, y, ExplosionDamage(bl.centerDamage, d2 as nat, bl.r2));
          if (b.IsDestroyed() || b.kind == Water) && bl.gibRoll(x, y) {
            SpawnGib(x, y);
          }
        }
      }
    }

    /** explode_at's inner loop over the columns of row y of the box b. */
    method ExplodeRow(bl: Blast, r: nat, y: u32, b: Box)
      requires Valid() && r <= MAX_BLAST_RADIUS && 0 < bl.r2
      requires b == BlastBox(bl.cx, bl.cy, r, width, height) && b.y0 <= y < b.y1 && b.x0 <= width
      requires nextId as int + width as int < INVALID_ENTITY_ID
      modifies this, Footprint
      ensures Valid()
      ensures Snapshot() == RowProgress(blocks[..], bl, trackTexture, old(Snapshot()), y, b.x0, b.x1)
      ensures Grown(old(entities), old(nextId), entities, nextId)
      ensures nonFx == old(nonFx) && trackTexture == old(trackTexture) && Footprint == old(Footprint)
    {
      ghost var cells := blocks[..];
      ghost var p0 := Snapshot();
      if b.x1 <= b.x0 {
        return;
      }
      var x := b.x0;
      while x < b.x1
        invariant b.x0 <= x <= b.x1
        invariant Valid() && blocks[..] == cells && trackTexture == old(trackTexture)
        invariant Snapshot() == RowProgress(cells, bl, trackTexture, p0, y, b.x0, x)
        invariant nextId as int <= old(nextId) as int + (x - b.x0)
        invariant Grown(old(entities), old(nextId), entities, nextId)
        invariant nonFx == old(nonFx) && Footprint == old(Footprint)
      {
        ghost var ents, n := entities, nextId;
        ExplodeCell(bl, r, x as u32, y);
        GrownTrans(old(entities), old(nextId), ents, n, entities, nextId);
        x := x + 1;
      }
    }

    /** Admits the explosion effect: an fx-only physics entity that ignores gravity, covering
        the square of side 2r cells whose corner is (x - r, y - r), computed in uint32. */
    method SpawnExplosionEffect(cx: u32, cy: u32, r: u16) returns (fx: PhysicsEntity)
      requires Valid() && nextId < INVALID_ENTITY_ID
      modifies this
      ensures Valid()
      ensures nextId == old(nextId) + 1 && Grown(old(entities), old(nextId), entities, nextId)
      ensures fresh(fx) && entities[old(nextId)] == fx.entity && !fx.respectGravity
      ensures fx.rect == Rect(((cx - r) % U32) as real * BLOCK_SIZE, ((cy - r) % U32) as real * BLOCK_SIZE,
                              2.0 * BLOCK_SIZE * r as real, 2.0 * BLOCK_SIZE * r as real)
      ensures nonFx == old(nonFx) && Footprint == old(Footprint)
      ensures stateQueue == old(stateQueue) && textureQueue == old(textureQueue) && trackTexture == old(trackTexture)
    {
      fx := new PhysicsEntity(true);
      fx.SetRespectGravity(false);
      fx.SetRectangle(Rect(((cx - r) % U32) as real * BLOCK_SIZE, ((cy - r) % U32) as real * BLOCK_SIZE,
                           2.0 * BLOCK_SIZE * r as real, 2.0 * BLOCK_SIZE * r as real));
      var _ := AddEntity(fx.entity);
    }

    /** One pass of explode_at's outer loop: row y of the box b, from the state p0 the
        blast started in, over the slots cells. */
    method ExplodeBoxRow(bl: Blast, r: nat, b: Box, y: u32, ghost cells: seq<Block?>, ghost p0: Progress,
                         ghost ents0: map<EntityId, Entity>, ghost n0: int)
      requires Valid() && r <= MAX_BLAST_RADIUS && 0 < bl.r2
      requires b == BlastBox(bl.cx, bl.cy, r, width, height) && b.x0 <= width && b.y0 <= y < b.y1
      requires blocks[..] == cells && |p0.healths| == blocks.Length
      requires p0.nextId + blocks.Length < INVALID_ENTITY_ID
      requires Snapshot() == BoxProgress(cells, bl, trackTexture, p0, b, y)
      requires Grown(ents0, n0, entities, nextId)
      modifies this, Footprint
      ensures Valid() && blocks[..] == cells
      ensures Snapshot() == BoxProgress(cells, bl, trackTexture, p0, b, y + 1)
      ensures Grown(ents0, n0, entities, nextId)
      ensures nonFx == old(nonFx) && trackTexture == old(trackTexture) && Footprint == old(Footprint)
    {
      BoxProgressFields(cells, bl, trackTexture, p0, b, y);
      BoxGibsRoom(cells, bl, p0.healths, b, y);
      ExplodeRow(bl, r, y, b);
      GrownTrans(ents0, n0, old(entities), old(nextId), entities, nextId);
    }

    /** explode_at's outer loop over the rows of the box b. */
    method ExplodeBox(bl: Blast, r: nat, b: Box)
      requires Valid() && r <= MAX_BLAST_RADIUS && 0 < bl.r2
      requires b == BlastBox(bl.cx, bl.cy, r, width, height) && b.x0 <= width && b.y0 <= height
      requires nextId as int + blocks.Length < INVALID_ENTITY_ID
      modifies this, Footprint
      ensures Valid()
      ensures Snapshot() == BoxProgress(blocks[..], bl, trackTexture, old(Snapshot()), b, b.y1)
      ensures nextId < INVALID_ENTITY_ID
      ensures Grown(old(entities), old(nextId), entities, nextId)
      ensures nonFx == old(nonFx) && trackTexture == old(trackTexture) && Footprint == old(Footprint)
    {
      ghost var cells := blocks[..];
      ghost var p0 := Snapshot();
      if b.y1 <= b.y0 {
        return;
      }
      var y: u32 := b.y0 as u32;
      while y < b.y1 as u32
        invariant b.y0 <= y as int <= b.y1
        invariant Valid() && blocks[..] == cells && trackTexture == old(trackTexture)
        invariant Snapshot() == BoxProgress(cells, bl, trackTexture, p0, b, y as int)
        invariant Grown(old(entities), old(nextId), entities, nextId)
        invariant nonFx == old(nonFx) && Footprint == old(Footprint)
      {
        ExplodeBoxRow(bl, r, b, y, cells, p0, old(entities), old(nextId));
        y := y + 1;
      }
      assert y as int == b.y1;
      BoxProgressFields(cells, bl, trackTexture, p0, b, b.y1);
      BoxGibsRoom(cells, bl, p0.healths, b, b.y1);
    }

    /** World::explode_at: every block within the disc of radius r around (cx, cy) takes
        the falloff damage and its cell is marked, row by row; a destroyed or water block
        may leave a gib; then the explosion effect is admitted. A zero radius, or a disc
        starting past the right or bottom edge, does nothing at all. */
    method ExplodeAt(cx: u32, cy: u32, r: u16, centerDamage: u32, gibRoll: (u32, u32) -> bool)
      requires Valid() && r <= MAX_BLAST_RADIUS
      requires nextId as int + blocks.Length < INVALID_ENTITY_ID
      modifies this, Footprint
      ensures Valid()
      ensures forall c :: InRange(c) && At(c) != null ==>
                At(c).health == if 0 < r && InBlast(cx, cy, r, width, height, c)
                                then BlastedHealth(Blast(cx, cy, RadiusSq(r), centerDamage, gibRoll), At(c).kind, old(At(c).health), c)
                                else old(At(c).health)
      ensures stateQueue == old(stateQueue) + BlastHits(cx, cy, r, centerDamage, gibRoll)
      ensures textureQueue == old(textureQueue) + (if trackTexture then BlastHits(cx, cy, r, centerDamage, gibRoll) else [])
      ensures Quiet(cx, cy, r) ==> nextId == old(nextId) && entities == old(entities)
      ensures !Quiet(cx, cy, r) ==> nextId == old(nextId) + |old(BlastGibs(cx, cy, r, centerDamage, gibRoll))| + 1
      ensures Grown(old(entities), old(nextId), entities, nextId)
      ensures nonFx == old(nonFx) && trackTexture == old(trackTexture) && Footprint == old(Footprint)
    {
      ghost var cells := blocks[..];
      ghost var p0 := Snapshot();
      HealthsAt();
      if r == 0 || cx as int - r as int >= width as int || cy as int - r as int >= height as int {
        return;
      }
      var bl := Blast(cx, cy, RadiusSq(r), centerDamage, gibRoll);
      var b := BlastBox(cx, cy, r, width, height);
      ExplodeBox(bl, r, b);
      ghost var ents := entities;
      ghost var n := nextId;
      var _ := SpawnExplosionEffect(cx, cy, r);
      GrownTrans(old(entities), old(nextId), ents, n, entities, nextId);
      BoxProgressFields(cells, bl, trackTexture, p0, b, b.y1);
      BoxHealthsAt(cells, bl, p0.healths, b, b.y1);
      HealthsAt();
    }
  }
}
