# sdma3513demo simulation core in Dafny

This project models the simulation core of sdma3513demo, a 2D destructible-block game.
The parts modelled are:

- **Blocks** (`block.dfy`, module `Blocks`). A block has a material kind and an unsigned health. Health is clamped to the kind's maximum. Damage is a saturating subtraction that Bedrock and Water ignore.
- **The world** (`world.dfy`, module `GameWorld`, class `World`):
  - a fixed `width x height` array of optional blocks, indexed row-major with an index check that fails out of range;
  - the FIFO state-update queue, and the render-update list that grows only while tracking is on;
  - `tick`, which drains the state queue and then runs the deferred-deletion pass over the entities;
  - the capped swap-and-pop drain of `render`;
  - the entity registry (a map keyed by id, the parallel list of non-fx ids and the id counter);
  - the two collision queries and `explode_at`.
- **Registry bookkeeping** on values (`registry.dfy`, module `Registry`): swap-and-pop, the search for an id, and the registry invariant.
- **Grid arithmetic** (`grid.dfy`, module `Grid`): the cell index, the render-drain quota, the explosion damage and its falloff, the 32-bit squared distance, and the cell range a rectangle query scans.
- **Entities** (`entity.dfy`, module `Entities`):
  - `Entity`, with its id, world link, fx-only flag and sticky deletion flag;
  - `PhysicsEntity`, with its accessors and one explicit Euler step over reals.
- **The world generator** (`worldgen.dfy`, module `Generation`, class `WorldGen`): `gen_terrain`, `gen_buildings`, `generate_world`, and `World::generate_new_world`.
- **The player turret** (`turret.dfy`, module `Turret`):
  - the aim clamp, the score and missed-bomb counters, and the shoot delay;
  - the missile cooldown;
  - `fire_missile`, which admits a volley of three missiles into the world.

Types are modelled as follows:

- Unsigned 32-bit arithmetic is written out modulo 2^32 wherever the source relies on wrap-around.
- `sf::Time` is an integer count of microseconds; one frame is 33333 microseconds.
- Floating-point quantities are reals.
- Each random draw is a parameter of the operation that makes it, usually a function indexed by column or cell.

`World` keeps two ghost fields:

- `Footprint` is every block the grid has held.
- `Slot` records the slot each block sits in.

Together they express the ownership the source gets from `std::unique_ptr`: no block sits in two cells, so damaging one cell leaves every other cell's block alone.

## Model

| member | source | states |
|---|---|---|
| Blocks.MaxHealth | sdma3513demo/Block.cpp:11-38 | every kind's maximum health is positive and at most 1000, and it is 1000 exactly for Bedrock and Water |
| Blocks.ClampedHealth | sdma3513demo/Block.h:40 | the health kept is min(h, max): at most both the request and the kind's maximum, and equal to one of them |
| Blocks.DamagedHealth | sdma3513demo/Block.h:41-45 | damage never raises health; Bedrock and Water keep theirs; others keep max(health - amount, 0); the result is 0 exactly when health was 0 or a damageable block took at least its health |
| Blocks.DamageMonotone | sdma3513demo/Block.h:41-45 | more damage never leaves more health, and damage 0 changes nothing |
| Blocks.DamageAdditive | sdma3513demo/Block.h:41-45 | two hits of a and b leave the same health as one hit of a + b |
| Blocks.Block.constructor | sdma3513demo/Block.cpp:42-49 | a block built with a health starts with that health clamped to its kind's maximum, and keeps its kind and tint |
| Blocks.Block.OfKind | sdma3513demo/Block.cpp:52-55 | a block built from a kind alone starts at full health and is not destroyed |
| Blocks.Block.ColorMul | sdma3513demo/Block.cpp:47-48 | the colour multiplier is a grey with equal r, g, b in [205, 255] and alpha 255 |
| Blocks.Block.GetMaxHealth | sdma3513demo/Block.h:48 | the maximum is positive and a valid block's health never exceeds it |
| Blocks.Block.IsDestroyed | sdma3513demo/Block.h:50 | no contract of its own: health 0; `DamagedHealth` states when damage brings a block there |
| Blocks.Block.SetHealth | sdma3513demo/Block.h:40 | the new health is the request clamped to the kind's maximum |
| Blocks.Block.Damage | sdma3513demo/Block.h:41-45 | the new health is the saturating damage of the old health, and the block stays within its maximum |
| Common.Trunc | sdma3513demo/World.cpp:293-294 | truncation toward zero: the result is at most v for v >= 0, at least v for v < 0, and within 1 of v |
| Common.Ceil | sdma3513demo/World.cpp:295-296 | the least integer not below v |
| Entities.InvalidIdIsMax | sdma3513demo/Entity.h:35 | the invalid id, -1 converted to uint64, is 2^64 - 1, the largest id there is |
| Entities.Entity.constructor | sdma3513demo/Entity.cpp:5-11 | a new entity has the invalid id and no world, is not marked for deletion, and keeps the fx-only flag it was given |
| Entities.Entity.AssignWorld | sdma3513demo/Entity.h:40 | sets exactly the world link and the id; the deletion flag is kept |
| Entities.Entity.MarkForDeletion | sdma3513demo/Entity.h:45 | the deletion flag is set (and stays set when already set); id and world are kept |
| Entities.Entity.Tick | sdma3513demo/Entity.h:42 | the base tick changes nothing |
| Entities.Rect.MovedTo | sdma3513demo/PhysicsEntity.h:23 | a rectangle moved to p has position p and keeps its width and height |
| Entities.NextVelocity | sdma3513demo/PhysicsEntity.cpp:24-25 | one step keeps velocity.x and adds gravity x frame time to velocity.y exactly when gravity is respected |
| Entities.PhysicsEntity.constructor | sdma3513demo/PhysicsEntity.cpp:7-11 | a new physics entity respects gravity, is not fx-only unless asked, and has the fresh Entity state |
| Entities.PhysicsEntity.GetPosition | sdma3513demo/PhysicsEntity.h:24 | no contract of its own: the rectangle's top-left corner, which `SetPosition` reads back |
| Entities.PhysicsEntity.SetVelocity | sdma3513demo/PhysicsEntity.h:18 | the velocity read back is the one set; rectangle and gravity flag kept |
| Entities.PhysicsEntity.SetRectangle | sdma3513demo/PhysicsEntity.h:20 | the rectangle read back is the one set; velocity and gravity flag kept |
| Entities.PhysicsEntity.SetPosition | sdma3513demo/PhysicsEntity.h:23 | the position read back is the one set; the rectangle keeps its width and height |
| Entities.PhysicsEntity.SetRespectGravity | sdma3513demo/PhysicsEntity.h:26 | the gravity flag reads back as set; rectangle and velocity kept |
| Entities.PhysicsEntity.Tick | sdma3513demo/PhysicsEntity.cpp:19-29 | without a world nothing changes; with one, the rectangle moves by the pre-tick velocity and keeps its size, then gravity is added to the velocity if respected |
| Entities.VelocityAfterSteps | sdma3513demo/PhysicsEntity.cpp:24-25 | after n steps velocity.x is unchanged and velocity.y has gained n x gravity x frame time exactly when gravity is respected |
| Registry.SwapPop | sdma3513demo/World.cpp:82-83 | swap-and-pop shortens the list by one, keeps every other position, and moves the last element into the freed one |
| Registry.SwapPopMultiset | sdma3513demo/World.cpp:82-83 | swap-and-pop removes exactly one occurrence of the element and keeps all others |
| Registry.IndexOf | sdma3513demo/World.cpp:77 | the position std::find returns: it holds the id and no earlier position does |
| Registry.InvariantListsNonFx | sdma3513demo/World.cpp:204-214 | under the registry invariant the non-fx list holds exactly the ids of non-fx entities, with no duplicates, each below the next id |
| Registry.AddKeepsInvariant | sdma3513demo/World.cpp:204-214 | the next id is unused, and admitting an entity under it, with the id listed iff the entity is not fx-only, keeps the invariant |
| Registry.Unlisted | sdma3513demo/World.cpp:76-84 | no contract of its own: the non-fx list after removal, untouched for an fx-only entity, otherwise swap-and-pop at the found position; `RemoveKeepsInvariant` states what it leaves |
| Registry.TwoPositions | sdma3513demo/World.cpp:76-84 | a value found at two positions of the list occurs there at least twice; it shows that the registry invariant rules out duplicate ids, so `std::find` finds the only copy |
| Registry.RemoveKeepsInvariant | sdma3513demo/World.cpp:76-86 | an entity is listed iff it is not fx-only; removing it keeps the invariant and takes exactly one copy of its id out of the list |
| Registry.AbsentUnlisted | sdma3513demo/World.cpp:67-68 | an id with no entity is not listed, so taking it out of the list would change nothing |
| Registry.EmptyWithoutEntities | sdma3513demo/World.cpp:114-117 | once every entity is removed the non-fx list is empty |
| Grid.BlockIndex | sdma3513demo/World.h:33-39 | an index exists exactly for in-range coordinates, and it lies below width x height |
| Grid.BlockIndexDecode | sdma3513demo/World.h:38 | the index x + width*y decodes back to x (mod width) and y (div width) |
| Grid.BlockIndexInjective | sdma3513demo/World.h:38 | distinct in-range cells have distinct indices |
| Grid.DrainQuota | sdma3513demo/World.cpp:172-179 | a backlog above 24000 is drained whole; otherwise at most 3001 entries go, and fewer than all only when exactly 3001 do |
| Grid.DrainLeaves | sdma3513demo/World.cpp:172-187 | after one render 0 entries remain if more than 24000 were pending, otherwise max(0, pending - 3001) |
| Grid.RemovedMembers | sdma3513demo/World.cpp:142-149 | the cells a drain empties are exactly the queued cells holding destroyed blocks, each once |
| Grid.Removed | sdma3513demo/World.cpp:142-149 | no contract of its own: the cells a FIFO pass empties, in order; `RemovedMembers` and `RemovedStep` state what it holds |
| Grid.RemovedStep | sdma3513demo/World.cpp:142-149 | handling one queued cell extends the emptied cells consistently with the whole drain's result |
| Grid.ExplosionDamage | sdma3513demo/World.cpp:253 | the damage is at most 9/10 of the centre damage, 0 on the rim, and exactly 9/10 (truncated) within a tenth of r^2 |
| Grid.ExplosionFalloff | sdma3513demo/World.cpp:253 | damage never grows with distance from the centre |
| Grid.Square32 | sdma3513demo/World.cpp:247 | no contract of its own: d x d with the difference and the product wrapping modulo 2^32; `Square32Exact` states when it is exact |
| Grid.WrappedDist2 | sdma3513demo/World.cpp:247 | no contract of its own: dx^2 + dy^2 in uint32; `WrappedDist2Exact` states when it is the true distance |
| Grid.Square32Exact | sdma3513demo/World.cpp:247 | for offsets up to the largest radius, the uint32 square equals the true square |
| Grid.WrappedDist2Exact | sdma3513demo/World.cpp:247 | within the blast box the wrapped dx^2 + dy^2 equals the true squared distance |
| Grid.BlastBox | sdma3513demo/World.cpp:236-239 | the scanned box is clipped to the grid |
| Grid.BlastBoxWithinRadius | sdma3513demo/World.cpp:236-239 | every cell of the box lies within r of the centre on both axes |
| Grid.BlastDist2 | sdma3513demo/World.cpp:247 | the distance the loop computes is the true squared distance |
| Grid.RadiusSq | sdma3513demo/World.cpp:240 | a positive radius has a positive r_sq |
| Grid.Normalized | sdma3513demo/World.cpp:284-291 | a rectangle with negative sides becomes the same area with non-negative sides |
| Grid.QueryBox | sdma3513demo/World.cpp:293-306 | the scanned range, when there is one, lies within the grid |
| Grid.QueryBoxCovers | sdma3513demo/World.cpp:293-306 | every in-range cell the rectangle touches lies in the scanned range, so a touching rectangle is never rejected as out of bounds |
| Grid.AxisCovers | sdma3513demo/World.cpp:293-296 | on one axis, truncating the start and rounding the end up plus one covers every touched cell |
| GameWorld.CullStep | sdma3513demo/World.cpp:152-162 | visiting one entity in the deletion pass removes it if it is flagged and ticks it otherwise, keeping the pass's invariant |
| GameWorld.GrownTrans | sdma3513demo/World.cpp:264 | two stages of admitting new fx-only entities under fresh ids are one such stage |
| GameWorld.World.Index | sdma3513demo/World.h:33-39 | an in-range cell's index lies within the cell array |
| GameWorld.World.IndexInjective | sdma3513demo/World.h:38 | distinct in-range cells use distinct slots |
| GameWorld.World.GetBlockAt | sdma3513demo/World.h:90 | a block is returned exactly for in-range coordinates; out of range the lookup fails |
| GameWorld.World.constructor | sdma3513demo/World.cpp:14-21 | a new world has the given dimensions, every cell empty, empty queues, tracking on, no entities and next id 0 |
| GameWorld.World.MarkBlockForUpdate | sdma3513demo/World.h:55-60 | appends the cell to the state queue always, and to the render list iff tracking is on |
| GameWorld.World.SetTrackTexture | sdma3513demo/World.h:96 | the tracking flag reads back as set |
| GameWorld.World.RefreshBlocksRenderTexture | sdma3513demo/World.cpp:40-43 | a full refresh empties the render list |
| GameWorld.World.SetBlockAt | sdma3513demo/World.h:88 | in range, the cell then holds the block and every other cell is unchanged; out of range the call fails and nothing changes |
| GameWorld.World.CreateBlockAt | sdma3513demo/World.cpp:336-341 | in range, a fresh full-health block of the kind fills the cell, the cell is marked for update, and every other cell is unchanged; out of range nothing changes |
| GameWorld.World.RemoveBlockAt | sdma3513demo/World.cpp:344-348 | in range, the cell is emptied and marked for update, and every other cell is unchanged; out of range nothing changes |
| GameWorld.World.GetEntity | sdma3513demo/World.cpp:221-228 | returns the entity registered under the id, or null exactly when there is none |
| GameWorld.World.AddEntity | sdma3513demo/World.cpp:202-218 | null returns the invalid id and changes nothing; otherwise the entity gets the old next id and this world, the counter grows by one, the map gains exactly that entry, and the id is listed iff the entity is not fx-only; the invariant is kept |
| GameWorld.World.Register | sdma3513demo/World.cpp:208-214 | the registry part of add_entity: new entry under the old next id, listed iff not fx-only, invariant kept |
| GameWorld.World.RemoveEntity | sdma3513demo/World.cpp:65-87 | an unknown id changes nothing; otherwise exactly that key is erased and, for a non-fx entity, its id is swap-and-popped out of the list; the invariant is kept |
| GameWorld.World.Unregister | sdma3513demo/World.cpp:70-86 | a present entity's key is erased and its id taken out of the list by swap-and-pop; the invariant is kept |
| GameWorld.World.FindNonFx | sdma3513demo/World.cpp:77 | the linear search returns the first position of the id in the non-fx list |
| GameWorld.World.Clear | sdma3513demo/World.cpp:111-123 | no entities, an empty non-fx list, next id 0, and every cell empty |
| GameWorld.World.EmptyAllCells | sdma3513demo/World.cpp:119-120 | every slot of the cell array is emptied |
| GameWorld.World.DeadCells | sdma3513demo/World.cpp:145 | the destroyed cells are exactly the in-range cells holding a block of health 0 |
| GameWorld.World.DrainStart | sdma3513demo/World.cpp:142-149 | the drain invariant holds before the first step |
| GameWorld.World.DrainStep | sdma3513demo/World.cpp:142-149 | one drain step pops the front and re-queues it exactly when it was emptied; the original entries are handled in order, then the re-queued ones, which empty nothing |
| GameWorld.World.DrainStuck | sdma3513demo/World.cpp:144 | an out-of-range front entry means some queued cell was out of range, and everything emptied so far was destroyed |
| GameWorld.World.DrainDone | sdma3513demo/World.cpp:142-149 | an empty queue means every entry was in range and the emptied cells are exactly the queued destroyed ones |
| GameWorld.World.DrainFront | sdma3513demo/World.cpp:143-148 | the front cell is emptied iff it holds a destroyed block, and then it is marked again; an out-of-range front changes nothing |
| GameWorld.World.DrainAdvance | sdma3513demo/World.cpp:142-149 | one drain step keeps the drain's invariant over the queue, the cells and the render list |
| GameWorld.World.DrainSoFar | sdma3513demo/World.cpp:142-149 | during the drain every cell keeps its block or has been emptied because it was destroyed |
| GameWorld.World.DrainFinal | sdma3513demo/World.cpp:142-149 | at the end exactly the queued destroyed cells are empty, all others unchanged, and the render list gained the emptied cells iff tracking is on |
| GameWorld.World.DrainOne | sdma3513demo/World.cpp:142-149 | one loop iteration keeps the invariant and strictly advances the termination measure |
| GameWorld.World.DrainStateQueue | sdma3513demo/World.cpp:141-149 | the drain ends with an empty queue although it re-enqueues; a cell ends empty iff it was queued and held a destroyed block; on an out-of-range entry it stops with that entry still at the front of the queue, having emptied only destroyed cells |
| GameWorld.World.TickEntities | sdma3513demo/World.cpp:151-162 | exactly the entities not flagged for deletion remain, unchanged, and each of them is ticked exactly once |
| GameWorld.World.Tick | sdma3513demo/World.cpp:139-163 | the state-queue drain, then the deletion pass, each with its result; a throwing drain leaves the entities alone and the offending entry at the front of the queue |
| GameWorld.World.RenderDrain | sdma3513demo/World.cpp:168-187 | the entries popped (`refreshed`; with tracking off a refresh returns at once and draws nothing) and those left are the old list as a multiset; their counts follow the catch-up quota; with tracking on, only in-range cells are refreshed, and an out-of-range one throws |
| GameWorld.World.BlocksTestRectangleCollision | sdma3513demo/World.cpp:281-317 | null with position (UINT32_MAX, UINT32_MAX) when no cell of the scanned range holds a live block; otherwise the first live block in row-major order of the range, and its position |
| GameWorld.World.EntityTestRectangleCollision | sdma3513demo/World.cpp:320-333 | the invalid id iff no listed entity is hit; otherwise a hit non-fx entity's id, the first hit in list order |
| GameWorld.World.OwnedApart | sdma3513demo/World.h:88 | no block sits in two cells |
| GameWorld.World.RowProgressFields | sdma3513demo/World.cpp:245-268 | one row of the blast, as a whole, in terms of the row's healths, marked cells and gibs |
| GameWorld.World.RowProgressHealths | sdma3513demo/World.cpp:245-268 | a blast row leaves the healths its hit cells take |
| GameWorld.World.RowProgressQueues | sdma3513demo/World.cpp:245-268 | a blast row appends its hit cells to the state queue, and to the render list iff tracking |
| GameWorld.World.RowProgressIds | sdma3513demo/World.cpp:245-268 | a blast row uses one id per gib |
| GameWorld.World.RowHealthsAt | sdma3513demo/World.cpp:245-268 | a cell hit in the row takes the blast damage; every other cell keeps its health |
| GameWorld.World.RowHitsMembers | sdma3513demo/World.cpp:245-268 | the cells a row marks are exactly its hit cells, left to right |
| GameWorld.World.RowGibsMembers | sdma3513demo/World.cpp:258-265 | the cells of a row that spawn a gib are exactly the hit cells left destroyed or holding water whose roll succeeds, left to right |
| GameWorld.World.RowGibsIn | sdma3513demo/World.cpp:258-265 | membership half of the row gib characterisation |
| GameWorld.World.RowGibsOrdered | sdma3513demo/World.cpp:258-265 | a row's gibs lie in the row and are strictly left to right |
| GameWorld.World.BoxProgressFields | sdma3513demo/World.cpp:244-269 | the whole blast box, in terms of its healths, marked cells and gibs |
| GameWorld.World.BoxProgressHealths | sdma3513demo/World.cpp:244-269 | the blast box leaves the healths its hit cells take |
| GameWorld.World.BoxProgressQueues | sdma3513demo/World.cpp:244-269 | the blast box appends its hit cells to the state queue, and to the render list iff tracking |
| GameWorld.World.BoxProgressIds | sdma3513demo/World.cpp:244-269 | the blast box uses one id per gib |
| GameWorld.World.BoxGibsBound | sdma3513demo/World.cpp:244-269 | at most one gib per visited cell |
| GameWorld.World.BoxGibsRoom | sdma3513demo/World.cpp:244-269 | the gibs of a box never outnumber the cells, leaving room for a further row |
| GameWorld.World.BoxHealthsAt | sdma3513demo/World.cpp:244-269 | a hit cell of the box takes the blast damage; every other cell keeps its health |
| GameWorld.World.BoxHitsMembers | sdma3513demo/World.cpp:244-269 | the cells the box marks are exactly its hit cells, in row-major order |
| GameWorld.World.BoxGibsMembers | sdma3513demo/World.cpp:258-265 | the gibs of the box are exactly its hit cells left destroyed or holding water whose roll succeeds, in row-major order |
| GameWorld.World.BoxGibsIn | sdma3513demo/World.cpp:258-265 | membership half of the box gib characterisation |
| GameWorld.World.BoxGibsOrdered | sdma3513demo/World.cpp:258-265 | the gibs of the box lie in its rows and are in row-major order |
| GameWorld.World.BlastHitsMembers | sdma3513demo/World.cpp:244-269 | the cells explode_at marks are exactly the in-range cells within the disc that hold a block, in row-major order |
| GameWorld.World.BlastGibsMembers | sdma3513demo/World.cpp:258-265 | the gibs explode_at spawns are exactly the hit cells left destroyed or holding water whose roll succeeds, in row-major order |
| GameWorld.World.Quiet | sdma3513demo/World.cpp:233-234 | no contract of its own: the early-return test (zero radius, or the disc starts past the right or bottom edge); `ExplodeAt` states that nothing changes then |
| GameWorld.World.DamageBlockAt | sdma3513demo/World.cpp:253-255 | only this cell's health changes, by saturating damage, and the cell is marked for update |
| GameWorld.World.SpawnGib | sdma3513demo/World.cpp:258-265 | one fx-only entity is admitted under the next id; the list, the queues and the grid are untouched |
| GameWorld.World.ExplodeCell | sdma3513demo/World.cpp:247-266 | one cell of the blast: its damage, its mark and its gib, as the per-cell step of the blast |
| GameWorld.World.ExplodeRow | sdma3513demo/World.cpp:245-268 | one row of the blast, as the row's step function |
| GameWorld.World.SpawnExplosionEffect | sdma3513demo/World.cpp:271-277 | one fresh fx-only entity, with the rectangle of the disc (corner wrapped as unsigned), is admitted under the next id |
| GameWorld.World.ExplodeBoxRow | sdma3513demo/World.cpp:245-268 | the box loop advances by one row |
| GameWorld.World.ExplodeBox | sdma3513demo/World.cpp:244-269 | the whole box loop, as the box's step function |
| GameWorld.World.ExplodeAt | sdma3513demo/World.cpp:231-278 | a zero radius or a disc past the right or bottom edge changes nothing. Otherwise exactly the blocks within the disc take the falloff damage and are marked in row-major order, the id counter advances by one per gib plus one for the explosion effect, and all new entities are fx-only under fresh ids; the non-fx list is untouched |
| Generation.Pick | sdma3513demo/World.cpp:360 | a uniform draw from [lo, hi] stays in range |
| Generation.PickCovers | sdma3513demo/World.cpp:360 | every value of [lo, hi] can be drawn |
| Generation.Tint | sdma3513demo/Block.cpp:47 | a tint draw lies in [205, 255] |
| Generation.FractionAtMost | sdma3513demo/World.cpp:366-375 | comparing the depth fraction with a bound is the cross-multiplied integer comparison |
| Generation.TerrainKind | sdma3513demo/World.cpp:366-375 | Grass up to 0.015 of the column, Dirt up to 0.2, Stone up to 0.9, Water below |
| Generation.TerrainBands | sdma3513demo/World.cpp:366-375 | bands never go back up a column; the surface cell is Grass; the bottom cell is Water iff the column spans more than ten rows |
| Generation.SteppedTop | sdma3513demo/World.cpp:379-380 | the stepped surface row always lies in [y_top_min, y_top_max] |
| Generation.SteppedTopClamps | sdma3513demo/World.cpp:379-380 | without wrap-around the step is an ordinary clamped addition |
| Generation.SteppedTopWrapsToDeepest | sdma3513demo/World.cpp:379-380 | a step below row 0 wraps around and is clamped to the deepest row, not the highest |
| Generation.Terrain.Top | sdma3513demo/World.cpp:360-381 | every column's surface row lies in [y_top_min, y_top_max] |
| Generation.Terrain.TopSlope | sdma3513demo/World.cpp:378-381 | neighbouring surfaces differ by at most the largest step |
| Generation.Terrain.Tops | sdma3513demo/World.cpp:360-381 | the surface rows of the first n columns, in order |
| Generation.ColumnCells | sdma3513demo/World.cpp:364 | a column run from row first to the bottom has one cell per row |
| Generation.ColumnCellsAt | sdma3513demo/World.cpp:364 | the i-th cell of a run is i rows below its first row |
| Generation.MarkedTrans | sdma3513demo/World.h:55-60 | marking a then b is marking a + b, on both queues |
| Generation.ColumnDone | sdma3513demo/World.cpp:364-376 | a column is complete once its row loop has passed the bottom |
| Generation.TerrainDone | sdma3513demo/World.cpp:363-382 | after the last column, every cell at or below its surface holds a block of its band and every cell above is untouched |
| Generation.ClearanceBand | sdma3513demo/World.cpp:395-401 | with a clearance of at most half the width, buildings never start within the clearance of the middle column |
| Generation.ClearanceVanishes | sdma3513demo/World.cpp:395-401 | a clearance over half the width wraps and lets buildings start anywhere |
| Generation.ClearMin | sdma3513demo/World.cpp:395 | no contract of its own: width / 2 - clearance in uint32; `ClearanceBand` and `ClearanceVanishes` state its effect |
| Generation.ClearMax | sdma3513demo/World.cpp:396 | no contract of its own: width / 2 + clearance in uint32 |
| Generation.Eligible | sdma3513demo/World.cpp:401 | no contract of its own: column j lies outside [ClearMin, ClearMax]; `ClearanceBand` characterises it |
| Generation.Building.FacadeKind | sdma3513demo/World.cpp:419-422 | every building block is Glass or Brick |
| Generation.FacadeWindows | sdma3513demo/World.cpp:419-422 | Glass exactly in 4x4 windows: columns 6-9 mod 10, 1-4 rows above the bottom mod 16, not the last two columns, not the top five rows |
| Generation.RowPhase | sdma3513demo/World.cpp:419 | the unsigned (y - bottom) % 16 >= 12 means 1 to 4 rows above the bottom, mod 16 |
| Generation.SurfaceScanMeaning | sdma3513demo/World.cpp:407-412 | the surface search finds the first non-empty row above the limit, or finds none, or runs off the grid |
| Generation.SurfaceScanColumn | sdma3513demo/World.cpp:407-412 | the surface search reads only its own column |
| Generation.ScanFindsTop | sdma3513demo/World.cpp:407-412 | in a column empty above row top and full below it, the search finds row top |
| Generation.Limit | sdma3513demo/World.cpp:407 | no contract of its own: height - foundation - 1 in uint32, the bound of the surface search |
| Generation.SpannedGrow | sdma3513demo/World.cpp:427 | a new building spans its own columns and the one after, which the scan skips |
| Generation.CompleteKept | sdma3513demo/World.cpp:418 | keeping every block keeps every building complete |
| Generation.RowFilledStep | sdma3513demo/World.cpp:417-424 | one more filled cell lengthens a row's filled stretch |
| Generation.FilledBelowStep | sdma3513demo/World.cpp:416-425 | a filled row extends the building's filled part by one row |
| Generation.CompleteGrow | sdma3513demo/World.cpp:416-425 | a building filled down to its top row joins the complete ones |
| Generation.PlannedGrow | sdma3513demo/World.cpp:399-428 | a building drawn at column j joins the plan, and the scan resumes two columns past it |
| Generation.ServedGrow | sdma3513demo/World.cpp:427 | the columns a building spans need no building of their own |
| Generation.ServedSkip | sdma3513demo/World.cpp:399-401 | a column where no building opens is served |
| Generation.SkipStep | sdma3513demo/World.cpp:399-401 | passing over a column keeps the plan and the grid |
| Generation.RaisedGrow | sdma3513demo/World.cpp:418-423 | the building pass stays valid with one more building in the plan |
| Generation.RaisedColumn | sdma3513demo/World.cpp:417 | columns past every building so far still hold the terrain |
| Generation.WorldTerrain | sdma3513demo/World.cpp:451-456 | generate_world's terrain arguments are well formed |
| Generation.LayeredFrom | sdma3513demo/World.cpp:447-459 | terrain then buildings: cells at or below the surface hold their band block; above it a cell keeps what it held or, if empty, holds a facade block |
| Generation.LayeredOnEmpty | sdma3513demo/World.cpp:126-136 | on a cleared grid every cell above the surface is empty or a facade block |
| Generation.WorldGen.constructor | sdma3513demo/World.cpp:434-439 | the generator keeps the world and the seed |
| Generation.WorldGen.LayCell | sdma3513demo/World.cpp:366-375 | one terrain cell gets the block of its band and is marked |
| Generation.WorldGen.LayColumn | sdma3513demo/World.cpp:364-376 | one column is laid from its surface down and its cells are marked top first |
| Generation.WorldGen.GenTerrain | sdma3513demo/World.cpp:351-383 | throws and changes nothing on inverted ranges; otherwise every cell at or below its column's surface holds its band block, cells above are untouched, and the laid cells are marked column by column |
| Generation.WorldGen.LayTerrain | sdma3513demo/World.cpp:360-382 | the column loop lays every column and marks its cells |
| Generation.WorldGen.TerrainColumn | sdma3513demo/World.cpp:363-382 | one column, then the next surface row |
| Generation.WorldGen.FindSurface | sdma3513demo/World.cpp:404-412 | the surface search loop computes the scan function |
| Generation.WorldGen.StampCell | sdma3513demo/World.cpp:418-423 | an empty cell of a building gets its facade block and is marked; a filled one is kept |
| Generation.WorldGen.StampRow | sdma3513demo/World.cpp:417-424 | one building row gets filled within the grid, blocks kept |
| Generation.WorldGen.StampNext | sdma3513demo/World.cpp:417-424 | one step of the row loop |
| Generation.WorldGen.RaiseBuilding | sdma3513demo/World.cpp:415-426 | the row loop completes exactly when its unsigned bound neither wraps past the bottom row (then no row is visited) nor reaches row 0 or the grid's edge (then `--y` wraps and the lookup throws); on completion every cell of the building is filled, and existing blocks are kept in every case |
| Generation.WorldGen.TryBuilding | sdma3513demo/World.cpp:399-429 | one iteration of the column loop: the plan grows by at most one building and the scan moves past it |
| Generation.WorldGen.DrawBuilding | sdma3513demo/World.cpp:401-428 | a building is tried at an eligible column whose roll came up |
| Generation.WorldGen.SettleBuilding | sdma3513demo/World.cpp:402-428 | the building found a surface and is raised on it, or is skipped |
| Generation.WorldGen.SurfaceAt | sdma3513demo/World.cpp:406-412 | the search sees the terrain, since no building reaches the column yet |
| Generation.WorldGen.OpenBuilding | sdma3513demo/World.cpp:415-428 | a drawn building is raised and added to the plan |
| Generation.WorldGen.GenBuildings | sdma3513demo/World.cpp:386-431 | throws and changes nothing on inverted ranges. Only empty cells change, each to a Brick or Glass facade block of a building the column loop drew. On success, every column where a building opens is served and every building is complete |
| Generation.WorldGen.Regenerate | sdma3513demo/World.cpp:130-132 | generation on a cleared grid yields a generated world. The buildings are drawn on the terrain grid with the city ranges, spaced apart, and on success cover every column where one opens, each complete. The state queue gains the terrain cells, then exactly the cells the building pass filled, each empty on the terrain grid and now a facade block of a building covering it |
| Generation.WorldGen.GenerateWorld | sdma3513demo/World.cpp:447-459 | the terrain with generate_world's arguments, then the buildings with theirs, drawn on the terrain grid with the city ranges and spaced apart; on success every column where one opens is spanned and every building is complete. The cells marked are the terrain cells, then exactly the cells the building pass filled, each empty on the terrain grid and now a facade block of a building covering it |
| Generation.GenerateNewWorld | sdma3513demo/World.cpp:126-136 | clears the registry and regenerates the grid. The buildings are drawn on the terrain grid with the city ranges and spaced apart; on success every column where one opens is spanned and every building is complete. The state queue gains the terrain cells column by column, then exactly the cells the building pass filled, each empty on the terrain grid and now a facade block. On success it ends with tracking on and an empty render list; if generation threw, tracking stays off and the render list is unchanged |
| Turret.ClampAim | sdma3513demo/PlayerTurretEntity.h:27 | the aim lies in [-90, 90], equals the request within it, and is the nearer bound outside it |
| Turret.ClampAimIdempotent | sdma3513demo/PlayerTurretEntity.h:27 | clamping twice is clamping once |
| Turret.MuzzleCentred | sdma3513demo/PlayerTurretEntity.cpp:38 | a missile is centred 2 units right of the turret's left edge at half its height, keeping its size |
| Turret.MuzzleRect | sdma3513demo/PlayerTurretEntity.cpp:38 | no contract of its own: where a missile of a given size is placed; `MuzzleCentred` states that it is centred on the cannon |
| Turret.CooldownRunsOut | sdma3513demo/PlayerTurretEntity.cpp:62-63 | the cooldown drops one frame per tick while positive and then stays put, ending in (-frame, 0] |
| Turret.CooldownAfter | sdma3513demo/PlayerTurretEntity.cpp:62-63 | no contract of its own: the cooldown after n ticks; `CooldownRunsOut` gives it in closed form |
| Turret.FramesToReady | sdma3513demo/PlayerTurretEntity.cpp:62-63 | no contract of its own: the ceiling of cooldown / frame time; `CooldownRunsOut` shows it is the number of ticks until the turret may fire |
| Turret.DefaultVolleyRate | sdma3513demo/PlayerTurretEntity.cpp:17 | with the 0.2 s delay, a volley fired from a cooldown of exactly 0 (the first one) leaves the turret ready again after exactly 7 ticks |
| Turret.VolleyRate | sdma3513demo/PlayerTurretEntity.cpp:54-63 | for any cooldown c in (-frame, 0] at which the turret fires, the delay is added to c and the turret is ready again after 7 ticks when c is 0 or -1, and after 6 otherwise. The cooldown is then left at c - 33331 or at c + 2 |
| Turret.AdmittedStep | sdma3513demo/PlayerTurretEntity.cpp:41 | admitting one more missile extends the registry by one key |
| Turret.IdsStep | sdma3513demo/PlayerTurretEntity.cpp:50 | admitting one more missile appends one id to the non-fx list |
| Turret.VolleyShot | sdma3513demo/PlayerTurretEntity.cpp:37-51 | no contract of its own: missile k's id, world, scorer, velocity and rectangle, which `Launch`, `Volley` and `FireMissile` establish |
| Turret.PlayerMissile.constructor | sdma3513demo/PlayerMissileEntity.cpp:16-23 | a new missile is a 12.5 x 12.5 non-fx physics entity with gravity, no scoring player and 0.4 s of smoke |
| Turret.PlayerMissile.AssignPlayerForScoring | sdma3513demo/PlayerMissileEntity.h:16 | the scoring player reads back as set |
| Turret.PlayerTurret.constructor | sdma3513demo/PlayerTurretEntity.cpp:12-21 | a new turret is 15 x 32.5 without gravity, with aim 0, score 0, missed 0, a 0.2 s delay and no cooldown |
| Turret.PlayerTurret.SetMissileShootDelay | sdma3513demo/PlayerTurretEntity.h:24-25 | the delay read back is the one set |
| Turret.PlayerTurret.GetMissileShootDelay | sdma3513demo/PlayerTurretEntity.h:25 | no contract of its own: the delay, which `SetMissileShootDelay` reads back |
| Turret.PlayerTurret.SetAimAngle | sdma3513demo/PlayerTurretEntity.h:27 | the aim is the request clamped to [-90, 90] |
| Turret.PlayerTurret.AddToAimAngle | sdma3513demo/PlayerTurretEntity.h:28 | the aim is the clamped sum, which is the plain sum when that lies in range |
| Turret.PlayerTurret.GetAimAngle | sdma3513demo/PlayerTurretEntity.h:29 | no contract of its own: the aim, kept in [-90, 90] by `SetAimAngle` and `AddToAimAngle` |
| Turret.PlayerTurret.SetPlayerScore | sdma3513demo/PlayerTurretEntity.h:31 | the score reads back as set |
| Turret.PlayerTurret.AddToPlayerScore | sdma3513demo/PlayerTurretEntity.h:32 | the score grows by exactly v |
| Turret.PlayerTurret.GetPlayerScore | sdma3513demo/PlayerTurretEntity.h:33 | no contract of its own: the score, which `SetPlayerScore` reads back |
| Turret.PlayerTurret.SetPlayerBombsMissed | sdma3513demo/PlayerTurretEntity.h:35 | the missed count reads back as set |
| Turret.PlayerTurret.IncrementPlayerBombsMissed | sdma3513demo/PlayerTurretEntity.h:36 | the missed count grows by exactly one, wrapping to 0 only from UINT32_MAX |
| Turret.PlayerTurret.GetPlayerBombsMissed | sdma3513demo/PlayerTurretEntity.h:37 | no contract of its own: the missed count, which `SetPlayerBombsMissed` reads back |
| Turret.PlayerTurret.Launch | sdma3513demo/PlayerTurretEntity.cpp:45-50 | one missile is sized, placed at the muzzle, given its velocity and the turret's id, and admitted as a non-fx entity under the next id |
| Turret.PlayerTurret.FireMissile | sdma3513demo/PlayerTurretEntity.cpp:29-56 | with cooldown > 0 nothing changes. Otherwise the delay is added to the cooldown, even with no world. With a world, exactly three non-fx missiles are admitted under the next three ids, each carrying the turret's id for scoring: the main one, then two 8x8 ones at scaled velocities |
| Turret.PlayerTurret.Volley | sdma3513demo/PlayerTurretEntity.cpp:37-51 | the three launches, in order, under consecutive ids |
| Turret.PlayerTurret.LaunchNext | sdma3513demo/PlayerTurretEntity.cpp:45-50 | the k-th missile of the volley is fresh and admitted under id n + k |
| Turret.PlayerTurret.Tick | sdma3513demo/PlayerTurretEntity.cpp:59-63 | the physics step, then the cooldown drops by one frame only while positive |

## Left out

- Rendering: drawing blocks and entities, the render texture and the explosion textures. A refresh is an abstract "cell refreshed" event, the `refreshed` sequence of `RenderDrain`. With tracking off, `update_blocks_render_texture` returns at once (World.cpp:91-92), so the entries in `refreshed` are popped from the list but nothing is drawn.
- The render drain's random pick is the parameter `pick`.
- The other random draws are parameters: the generator's draws, the block tint, the gib roll in `explode_at`, and the collateral missiles' speed factors (`spread`).
- Seed determinism: the terrain draws come from the seeded generator and the building draws from the global stream. The model takes both as given sequences, so it does not capture which draws a seed produces.
- Floating point is modelled as exact reals throughout:
  - positions and velocities;
  - the aim angle;
  - the explosion damage factor;
  - the depth fractions, where `float` rounding at the band edges is not modelled.
- The turret's trigonometric missile velocity is the parameter `velocity`, and its ground-snap loop in `tick` is not modelled: both are float geometry against the screen.
- The missile's own `tick`, and the ticks of the other entity kinds, are not modelled. They are clients of the world API; `World.Tick` ticks entities as abstract events and returns their ids.
- `sf::FloatRect::intersects` is the parameter `hits` of `EntityTestRectangleCollision`.
- Console output is not modelled.
- `TickEntities`, `World.Tick`: whether an entity is removed is decided by its deletion flag as it stood before the pass. The modelled ticks flag no other entity, so this matches them. A derived tick that flags another entity mid-pass, such as the missile flagging the entity it hit (PlayerMissileEntity.cpp:74-75), is not modelled. In the source that entity is removed in the same pass if it is visited later.
- `World.Tick`: the map is walked over a snapshot of its ids in no fixed order. Iterator invalidation by entities that add entities while being ticked is not modelled.
- `GameWorld.World.constructor`: requires `width * height < 2^32`; the source's unsigned product would wrap.
- `AddEntity`: requires `nextId < INVALID_ENTITY_ID`. The source asserts only that the next id is unused, and id exhaustion is not modelled.
- `FireMissile`: requires the next id to leave room for three missiles, for the same reason.
- `FireMissile`: does not say the three missiles are newly allocated; `LaunchNext` says it for each one.
- `FireMissile`: takes the world as a typed parameter equal to the entity's world link.
- `ExplodeAt`: requires `r <= 46340`, because `r * r` overflows `int` above that.
- `ExplodeAt`: requires room for one entity id per cell plus the effect.
- `ExplodeAt`, `BlastBox`: the debug assertion that the box is not inverted (World.cpp:242) is not modelled. When `x + r + 1` or `y + r + 1` wraps past 2^32, a debug build stops there, while the model gives the release behaviour: an empty box and no damage.
- `ExplodeAt`: the gib copies the block, but the gib's block and its launch velocity are not modelled.
- `WorldTerrain`: takes the surface band as the exact 65h/100 and 825h/1000, truncated. The source truncates the float32 products 0.65f * h and 0.825f * h. For some heights (180, 340, 360, ...) the float32 0.65f * h lies just below the integer, so the source's lowest surface row is one less than the model's. The two agree at the game's own height of 1152 rows.
- `GenBuildings`: requires `building_x_max + width + 1 < 2^32`, so the column counter `j` never wraps.
- `GenerateWorld`, `Regenerate`, `GenerateNewWorld`: require `width + 25 < 2^32` for the same reason.
- `GenBuildings` keeps the source's unsigned wrap-arounds rather than assuming them away:
  - a row loop whose height exceeds the bottom row builds nothing;
  - a building whose top reaches row 0 makes the unsigned `y` wrap below row 0, so the lookup throws (`y >= 0` is always true);
  - a bottom row equal to the height is the "not found" marker;
  - a clearance wider than half the width removes the central band (`ClearanceVanishes`);
  - a terrain step below row 0 is clamped to the deepest row (`SteppedTopWrapsToDeepest`).
- `GenerateNewWorld`: the full texture refresh reduces to emptying the render list; its drawing is not modelled.
- `AddToPlayerScore`: requires the sum to stay within `int32`, since signed overflow is undefined behaviour in the source.
- `AddToAimAngle`: float addition is treated as exact.
- `Tick` of `PlayerTurret`: `sf::Time` is an unbounded microsecond count, so 64-bit overflow of the cooldown is not modelled.
