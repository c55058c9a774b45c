/**
 The loaded part of the world: map blocks in Y-wise sectors, and the two pointers that remember the last
 sector and the last block looked up (src/mapsector.cpp, src/map.cpp).
 */
module MapSectors {
  import opened Basics

  datatype SectorPos = SectorPos(x: int, z: int)

  function SectorOf(p: BlockPos): SectorPos {
    SectorPos(p.x, p.z)
  }

  class MapBlock {
    const pos: BlockPos
    var usageTimer: real
    var refs: nat
    var modified: bool

    constructor (pos: BlockPos)
      ensures this.pos == pos && usageTimer == 0.0 && refs == 0 && modified
    {
      this.pos, usageTimer, refs, modified := pos, 0.0, 0, true;
    }
  }

  class MapSector {
    const pos: SectorPos
    var blocks: map<Height, MapBlock>
    var blockCache: MapBlock?
    var blockCacheY: Height

    // Every block stands under its own height, and the cached block, if any, is the one under the cached height.
    predicate Valid()
      reads this
    {
      && (forall y :: y in blocks ==> blocks[y].pos == BlockPos(pos.x, y, pos.z))
      && (blockCache != null ==> blockCacheY in blocks && blocks[blockCacheY] == blockCache)
    }

    constructor (pos: SectorPos)
      ensures Valid() && this.pos == pos && blocks == map[]
    {
      this.pos, blocks, blockCache, blockCacheY := pos, map[], null, Height(0);
    }

    // What a lookup without a cache finds.
    function BlockAt(y: Height): MapBlock?
      reads this
    {
      if y in blocks then blocks[y] else null
    }

    /** getBlockBuffered: the cache changes nothing of what is found. */
    method GetBlockBuffered(y: Height) returns (block: MapBlock?)
      requires Valid()
      modifies this`blockCache, this`blockCacheY
      ensures Valid() && block == BlockAt(y)
    {
      if blockCache != null && y == blockCacheY {
        return blockCache;
      }
      block := if y in blocks then blocks[y] else null;
      blockCacheY := y;
      blockCache := block;
    }

    // There must be no block at the height yet.
    method CreateBlankBlock(y: Height) returns (block: MapBlock)
      requires Valid() && y !in blocks
      modifies this
      ensures Valid() && fresh(block) && blocks == old(blocks)[y := block] && block.pos == BlockPos(pos.x, y, pos.z)
    {
      var none := GetBlockBuffered(y);
      block := new MapBlock(BlockPos(pos.x, y, pos.z));
      blocks := blocks[y := block];
    }

    // Throws when there is a block at that height.
    method InsertBlock(block: MapBlock) returns (ok: bool)
      requires Valid() && SectorOf(block.pos) == pos
      modifies this
      ensures Valid() && ok == (block.pos.y !in old(blocks))
      ensures blocks == if ok then old(blocks)[block.pos.y := block] else old(blocks)
    {
      var other := GetBlockBuffered(block.pos.y);
      if other != null {
        return false;
      }
      blocks := blocks[block.pos.y := block];
      ok := true;
    }

    lemma BlocksUnderHeights()
      requires Valid()
      ensures forall b :: b in blocks.Values <==> BlockAt(b.pos.y) == b
      ensures forall b :: b in blocks.Values ==> SectorOf(b.pos) == pos
    {
      forall b | b in blocks.Values
        ensures BlockAt(b.pos.y) == b && SectorOf(b.pos) == pos
      {
        var y :| y in blocks && blocks[y] == b;
      }
    }

    // detachBlock, and deleteBlock for a block nobody else holds.
    method DetachBlock(block: MapBlock)
      requires Valid() && BlockAt(block.pos.y) == block
      modifies this`blocks, this`blockCache
      ensures Valid() && blocks == old(blocks) - {block.pos.y} && blockCache == null
    {
      blockCache := null;
      blocks := blocks - {block.pos.y};
    }

    lemma Detached(before: map<Height, MapBlock>, block: MapBlock)
      requires Valid() && blocks == before - {block.pos.y} && block.pos.y in before && before[block.pos.y] == block
      requires forall y :: y in before ==> before[y].pos.y == y
      ensures blocks.Values == before.Values - {block}
    {
      forall b | b in before.Values - {block} ensures b in blocks.Values {
        var y :| y in before && before[y] == b;
        assert blocks[y] == b;
      }
      forall b | b in blocks.Values ensures b in before.Values - {block} {
        var y :| y in blocks && blocks[y] == b;
        assert before[y] == b;
      }
    }

    // deleteBlock for a block nobody else holds.
    method DeleteBlock(block: MapBlock)
      requires Valid() && block in blocks.Values
      modifies this`blocks, this`blockCache
      ensures Valid() && blocks.Values == old(blocks.Values) - {block}
    {
      BlocksUnderHeights();
      ghost var before := blocks;
      DetachBlock(block);
      Detached(before, block);
    }

    // With the blocks in done dealt with: what is left of all, and the timers and flags.
    ghost predicate Evicting(all: set<MapBlock>, done: set<MapBlock>, gone: set<MapBlock>, age: map<MapBlock, real>, dirty: set<MapBlock>,
                             dtime: real)
      reads this, all
    {
      done <= all && blocks.Values == all - done * gone && Aging(all, done, age, dtime) && Flagged(all - done * gone, dirty)
    }

    // One block of timerUpdate without a limit.
    method EvictBlock(block: MapBlock, dtime: real, timeout: real, maySave: bool, saves: set<BlockPos>, ghost all: set<MapBlock>,
                      ghost done: set<MapBlock>, ghost due: set<MapBlock>, ghost evictable: set<MapBlock>, ghost age: map<MapBlock, real>,
                      ghost dirty: set<MapBlock>)
      returns (isDue: bool, deleted: bool)
      requires Valid() && Evicting(all, done, due * evictable, age, dirty, dtime) && block in all - done
      requires DueBefore(all, due, evictable, age, dirty, dtime, timeout, maySave, saves)
      modifies this`blocks, this`blockCache, block`usageTimer, block`modified
      ensures Valid() && Evicting(all, done + {block}, due * evictable, age, dirty, dtime)
      ensures isDue == (block in due) && deleted == (block in due * evictable)
    {
      hide Valid;
      isDue, deleted := false, false;
      block.usageTimer := block.usageTimer + dtime;
      if block.refs == 0 && block.usageTimer > timeout {
        isDue := true;
        if block.modified && maySave {
          if block.pos !in saves {
            return;
          }
          block.modified := false;
        }
        DeleteBlock(block);
        deleted := true;
      }
    }

    /**
     One sector of timerUpdate without a limit: its blocks get older, and those that are due and evictable go. Are
     all of them due?
     */
    method AgeAndEvict(dtime: real, timeout: real, maySave: bool, saves: set<BlockPos>, unloaded0: seq<BlockPos>, ghost all: set<MapBlock>,
                       ghost due: set<MapBlock>, ghost evictable: set<MapBlock>, ghost age: map<MapBlock, real>, ghost dirty: set<MapBlock>)
      returns (allBlocksDeleted: bool, unloaded: seq<BlockPos>)
      requires Valid() && Evicting(all, {}, due * evictable, age, dirty, dtime)
      requires DueBefore(all, due, evictable, age, dirty, dtime, timeout, maySave, saves)
      modifies this`blocks, this`blockCache, all`usageTimer, all`modified
      ensures Valid() && Evicting(all, all, due * evictable, age, dirty, dtime)
      ensures allBlocksDeleted <==> all <= due
      ensures Listed(unloaded) == Listed(unloaded0) + PositionsOf(all * due * evictable)
    {
      hide SetOf, Listed, PositionsOf, Valid, Evicting, DueBefore;
      allBlocksDeleted, unloaded := true, unloaded0;
      var queue := GetBlocks();
      QueueIsAll(queue, all, due * evictable, age, dirty, dtime);
      NothingDone(all, due, evictable, unloaded0);
      assert queue[..0] == [];
      for i := 0 to |queue|
        invariant SetOf(queue[..i]) <= all && Valid() && Evicting(all, SetOf(queue[..i]), due * evictable, age, dirty, dtime)
        invariant allBlocksDeleted <==> SetOf(queue[..i]) <= due
        invariant Listed(unloaded) == Listed(unloaded0) + PositionsOf(SetOf(queue[..i]) * due * evictable)
      {
        var block := queue[i];
        NextOfQueue(queue, i);
        OneMoreDone(all, SetOf(queue[..i]), due, evictable, block, unloaded, unloaded0);
        var isDue, deleted := EvictBlock(block, dtime, timeout, maySave, saves, all, SetOf(queue[..i]), due, evictable, age, dirty);
        if deleted {
          unloaded := unloaded + [block.pos];
        }
        if !isDue {
          allBlocksDeleted := false;
        }
      }
      assert queue[..|queue|] == queue;
    }

    lemma QueueIsAll(queue: seq<MapBlock>, all: set<MapBlock>, gone: set<MapBlock>, age: map<MapBlock, real>, dirty: set<MapBlock>, dtime: real)
      requires Valid() && Evicting(all, {}, gone, age, dirty, dtime)
      requires forall b :: b in queue <==> b.pos.y in blocks && blocks[b.pos.y] == b
      ensures SetOf(queue) == all && forall b :: b in queue <==> b in all
    {
      BlocksUnderHeights();
      assert all - {} * gone == all;
    }

    // All blocks, in any order.
    method GetBlocks() returns (all: seq<MapBlock>)
      requires Valid()
      ensures forall b :: b in all <==> b.pos.y in blocks && blocks[b.pos.y] == b
      ensures forall i, j :: 0 <= i < j < |all| ==> all[i] != all[j]
    {
      all := [];
      var left := blocks.Values;
      while left != {}
        invariant left <= blocks.Values
        invariant forall b :: b in all <==> b in blocks.Values && b !in left
        invariant forall i, j :: 0 <= i < j < |all| ==> all[i] != all[j]
        decreases |left|
      {
        var block :| block in left;
        left := left - {block};
        all := all + [block];
      }
      forall b | b in blocks.Values
        ensures b.pos.y in blocks && blocks[b.pos.y] == b
      {
        var y :| y in blocks && blocks[y] == b;
      }
    }
  }

  class Map {
    var sectors: map<SectorPos, MapSector>
    var sectorCache: MapSector?
    var sectorCacheP: SectorPos

    predicate Valid()
      reads this, sectors.Values
    {
      && (forall p :: p in sectors ==> sectors[p].pos == p && sectors[p].Valid())
      && (sectorCache != null ==> sectorCacheP in sectors && sectors[sectorCacheP] == sectorCache)
    }

    // The block is the one loaded at its position.
    predicate Has(b: MapBlock)
      reads this, sectors.Values
    {
      SectorOf(b.pos) in sectors && sectors[SectorOf(b.pos)].BlockAt(b.pos.y) == b
    }

    constructor ()
      ensures Valid() && sectors == map[]
    {
      sectors, sectorCache, sectorCacheP := map[], null, SectorPos(0, 0);
    }

    /** getSectorNoGenerateNoLock: the cache changes nothing of what is found. */
    method GetSectorNoGenerateNoLock(p: SectorPos) returns (sector: MapSector?)
      requires Valid()
      modifies this`sectorCache, this`sectorCacheP
      ensures Valid() && sector == if p in sectors then sectors[p] else null
    {
      if sectorCache != null && p == sectorCacheP {
        return sectorCache;
      }
      if p !in sectors {
        return null;
      }
      sector := sectors[p];
      sectorCacheP := p;
      sectorCache := sector;
    }

    /** getBlockNoCreateNoEx: through both caches, the block loaded at the position. */
    method GetBlockNoCreateNoEx(p: BlockPos) returns (block: MapBlock?)
      requires Valid()
      modifies this`sectorCache, this`sectorCacheP, sectors.Values`blockCache, sectors.Values`blockCacheY
      ensures Valid()
      ensures block == if SectorOf(p) in sectors then sectors[SectorOf(p)].BlockAt(p.y) else null
    {
      var sector := GetSectorNoGenerateNoLock(SectorOf(p));
      if sector == null {
        return null;
      }
      block := sector.GetBlockBuffered(p.y);
    }

    /** deleteSectors: no pointer to a deleted sector is left behind. */
    method DeleteSectors(list: seq<SectorPos>)
      requires Valid() && forall i :: 0 <= i < |list| ==> list[i] in sectors
      requires forall i, j :: 0 <= i < j < |list| ==> list[i] != list[j]
      modifies this`sectors, this`sectorCache
      ensures Valid()
      ensures forall p :: p in sectors <==> p in old(sectors) && p !in list
      ensures forall p :: p in sectors ==> sectors[p] == old(sectors)[p]
    {
      hide MapSector.Valid;
      for i := 0 to |list|
        invariant Valid()
        invariant forall p :: p in sectors <==> p in old(sectors) && p !in list[..i]
        invariant forall p :: p in sectors ==> sectors[p] == old(sectors)[p]
      {
        var sector := sectors[list[i]];
        if sectorCache == sector {
          sectorCache := null;
        }
        sectors := sectors - {list[i]};
        assert list[..i + 1] == list[..i] + [list[i]];
      }
      assert list[..|list|] == list;
    }

    // ------------------------------------------------------------ eviction

    // All loaded blocks.
    ghost function Loaded(): set<MapBlock>
      reads this, sectors.Values
    {
      set p, y | p in sectors && y in sectors[p].blocks :: sectors[p].blocks[y]
    }

    lemma LoadedHas()
      requires Valid()
      ensures forall b :: b in Loaded() <==> Has(b)
    {
      forall b | Has(b)
        ensures b in Loaded()
      {
        assert sectors[SectorOf(b.pos)].blocks[b.pos.y] == b;
      }
    }

    // Every loaded block once, with its sector.
    ghost predicate Queued(queue: seq<Timed>)
      reads this, sectors.Values
    {
      && BlocksOf(queue) == Loaded()
      && EachOnce(queue) && InSectors(queue)
    }

    ghost predicate InSectors(queue: seq<Timed>)
      reads this
    {
      forall e :: e in queue ==> SectorOf(e.block.pos) in sectors && e.sect == sectors[SectorOf(e.block.pos)]
    }

    lemma FewerInSectors(queue: seq<Timed>, k: nat)
      requires InSectors(queue) && k < |queue|
      ensures InSectors(queue[..k] + queue[k + 1..])
      ensures SectorOf(queue[k].block.pos) in sectors && queue[k].sect == sectors[SectorOf(queue[k].block.pos)]
    {
      assert queue[k] in queue;
      assert forall e :: e in queue[..k] + queue[k + 1..] ==> e in queue;
    }

    // The blocks of one sector get older, and go into the queue.
    method AgeSector(sector: MapSector, dtime: real, queue: seq<Timed>) returns (longer: seq<Timed>)
      requires sector.Valid() && EachOnce(queue) && forall b :: b in BlocksOf(queue) ==> SectorOf(b.pos) != sector.pos
      modifies sector.blocks.Values`usageTimer
      ensures EachOnce(longer) && BlocksOf(longer) == BlocksOf(queue) + sector.blocks.Values
      ensures forall e :: e in longer ==> e in queue || (e.sect == sector && SectorOf(e.block.pos) == sector.pos)
      ensures forall b :: b in old(sector.blocks.Values) ==> b.usageTimer == old(b.usageTimer) + dtime
    {
      hide EachOnce, BlocksOf, SetOf;
      longer := queue;
      ghost var all := sector.blocks.Values;
      var blocks := sector.GetBlocks();
      sector.BlocksUnderHeights();
      NothingListed();
      assert blocks[..0] == [];
      for i := 0 to |blocks|
        invariant EachOnce(longer) && BlocksOf(longer) == BlocksOf(queue) + SetOf(blocks[..i]) && SetOf(blocks[..i]) <= all
        invariant forall e :: e in longer ==> e in queue || (e.sect == sector && SectorOf(e.block.pos) == sector.pos)
        invariant forall b :: b in all ==> b.usageTimer == old(b.usageTimer) + if b in SetOf(blocks[..i]) then dtime else 0.0
      {
        var block := blocks[i];
        assert blocks[..i + 1] == blocks[..i] + [block];
        SetGrows(blocks[..i], block);
        block.usageTimer := block.usageTimer + dtime;
        QueueGrows(longer, Timed(sector, block));
        longer := longer + [Timed(sector, block)];
      }
      assert blocks[..|blocks|] == blocks;
      assert SetOf(blocks) == all by {
        AllOf(blocks, all);
      }
    }

    // A sector's blocks are the loaded blocks above its position.
    lemma SectorBlocks(p: SectorPos)
      requires Valid() && p in sectors
      ensures sectors[p].blocks.Values == Above(Loaded(), p)
    {
      var (s, above) := (sectors[p], Above(Loaded(), p));
      s.BlocksUnderHeights();
      LoadedHas();
      forall b | b in s.blocks.Values
        ensures b in above
      {
        assert Has(b);
      }
      forall b | b in above
        ensures b in s.blocks.Values
      {
        assert Has(b);
      }
    }

    // Every block gets older, and goes into the queue with its sector.
    method AgeBlocks(dtime: real, ghost loaded: set<MapBlock>) returns (queue: seq<Timed>)
      requires Valid() && loaded == Loaded()
      modifies loaded`usageTimer
      ensures Queued(queue)
      ensures forall b :: b in loaded ==> b.usageTimer == old(b.usageTimer) + dtime
    {
      hide EachOnce, BlocksOf, Map.Loaded, MapSector.Valid, NotAbove;
      queue := [];
      NothingQueued();
      var left := sectors.Keys;
      LoadedInSectors();
      NoneAboveAll(loaded, left);
      while left != {}
        invariant left <= sectors.Keys && EachOnce(queue) && InSectors(queue)
        invariant BlocksOf(queue) == NotAbove(loaded, left)
        invariant forall b :: b in loaded ==>
          b.usageTimer == if SectorOf(b.pos) in left then old(b.usageTimer) else old(b.usageTimer) + dtime
        decreases |left|
      {
        var p :| p in left;
        SectorBlocks(p);
        OneSectorMore(loaded, left, p);
        queue := AgeSector(sectors[p], dtime, queue);
        left := left - {p};
      }
      AllNotAboveNone(loaded);
    }

    // The oldest block of the queue.
    method Top(queue: seq<Timed>) returns (k: nat)
      requires queue != []
      ensures k < |queue| && forall i :: 0 <= i < |queue| ==> queue[k].block.usageTimer >= queue[i].block.usageTimer
    {
      k := 0;
      for i := 1 to |queue|
        invariant k < |queue| && forall j :: 0 <= j < i ==> queue[k].block.usageTimer >= queue[j].block.usageTimer
      {
        if queue[k].block.usageTimer < queue[i].block.usageTimer {
          k := i;
        }
      }
    }

    // MapSector::deleteBlock as the map sees it.
    method DeleteLoaded(sector: MapSector, block: MapBlock, ghost loaded: set<MapBlock>)
      requires Valid() && loaded == Loaded() && block in loaded
      requires SectorOf(block.pos) in sectors && sector == sectors[SectorOf(block.pos)]
      modifies sector`blocks, sector`blockCache
      ensures Valid() && Loaded() == loaded - {block}
    {
      LoadedHas();
      sector.DetachBlock(block);
      LoadedHas();
      forall b
        ensures b in Loaded() <==> b in loaded - {block}
      {
        assert b in Loaded() <==> Has(b);
      }
    }

    // One block off the queue: locked blocks and blocks that cannot be saved stay.
    method VisitBlock(e: Timed, maySave: bool, saves: set<BlockPos>, ghost loaded: set<MapBlock>) returns (deleted: bool)
      requires Valid() && loaded == Loaded() && e.block in loaded
      requires SectorOf(e.block.pos) in sectors && e.sect == sectors[SectorOf(e.block.pos)]
      modifies e.sect`blocks, e.sect`blockCache, e.block`modified
      ensures deleted == old(Evictable(e.block, maySave, saves))
      ensures Valid() && Loaded() == (if deleted then loaded - {e.block} else loaded)
      ensures !deleted ==> e.block.modified == old(e.block.modified)
    {
      if e.block.refs != 0 {
        return false;
      }
      if e.block.modified && maySave {
        if e.block.pos !in saves {
          return false;
        }
        e.block.modified := false;
      }
      DeleteLoaded(e.sect, e.block, loaded);
      deleted := true;
    }

    // Of the visited blocks the evictable ones are gone; the flags of all others are as they were.
    ghost predicate Evicted(loaded: set<MapBlock>, visited: set<MapBlock>, evictable: set<MapBlock>, dirty: set<MapBlock>,
                            maySave: bool, saves: set<BlockPos>)
      reads this, sectors.Values, loaded
    {
      && Valid() && Loaded() == loaded - visited * evictable && visited <= loaded
      && (forall b :: b in loaded - visited ==> (Evictable(b, maySave, saves) <==> b in evictable))
      && (forall b :: b in loaded - visited * evictable ==> (b.modified <==> b in dirty))
    }

    method EvictOne(e: Timed, maySave: bool, saves: set<BlockPos>,
                    ghost loaded: set<MapBlock>, ghost visited: set<MapBlock>, ghost evictable: set<MapBlock>, ghost dirty: set<MapBlock>)
      returns (deleted: bool)
      requires Evicted(loaded, visited, evictable, dirty, maySave, saves) && e.block in loaded - visited
      requires SectorOf(e.block.pos) in sectors && e.sect == sectors[SectorOf(e.block.pos)]
      modifies e.sect`blocks, e.sect`blockCache, e.block`modified
      ensures Evicted(loaded, visited + {e.block}, evictable, dirty, maySave, saves) && deleted == (e.block in evictable)
    {
      hide Map.Loaded, Evictable;
      deleted := VisitBlock(e, maySave, saves, loaded - visited * evictable);
    }

    // The loop over the queue: blocks over the limit or over the timeout, the oldest first.
    method EvictBlocks(aged: seq<Timed>, timeout: real, limit: nat, maySave: bool, saves: set<BlockPos>,
                       ghost loaded: set<MapBlock>, ghost age: map<MapBlock, real>, ghost evictable: set<MapBlock>, ghost dirty: set<MapBlock>)
      returns (unloaded: seq<BlockPos>, ghost visited: seq<MapBlock>)
      requires Queued(aged) && Loaded() == loaded && Evicted(loaded, {}, evictable, dirty, maySave, saves)
      requires age.Keys == loaded && forall b :: b in loaded ==> age[b] == b.usageTimer
      modifies sectors.Values`blocks, sectors.Values`blockCache, loaded`modified
      ensures Evicted(loaded, SetOf(visited), evictable, dirty, maySave, saves)
      ensures InOrder(visited, loaded - SetOf(visited), age) && NoneOverdue(loaded - SetOf(visited), age, timeout, limit)
      ensures Needed(visited, |loaded|, age, timeout, limit)
      ensures Listed(unloaded) == PositionsOf(SetOf(visited) * evictable)
    {
      hide Map.Loaded, Map.Valid, Map.Evicted, Map.InSectors, EachOnce, BlocksOf, SetOf, InOrder, Needed, NoneOverdue, PositionsOf,
        Listed, Evictable;
      var queue := aged;
      unloaded, visited := [], [];
      VisitsStart(aged, loaded, evictable, age, timeout, limit);
      while queue != []
        invariant Evicted(loaded, SetOf(visited), evictable, dirty, maySave, saves) && SetOf(visited) <= loaded
        invariant EachOnce(queue) && InSectors(queue) && BlocksOf(queue) == loaded - SetOf(visited)
        invariant InOrder(visited, loaded - SetOf(visited), age) && Needed(visited, |loaded|, age, timeout, limit)
        invariant Listed(unloaded) == PositionsOf(SetOf(visited) * evictable)
        decreases |queue|
      {
        var k := Top(queue);
        var e := queue[k];
        ghost var rest := loaded - SetOf(visited);
        QueuePops(queue, k, rest, age);
        if |queue| <= limit && e.block.usageTimer <= timeout {
          RestNotOverdue(rest, e.block, age, timeout, limit);
          return;
        }
        VisitStep(visited, loaded, e.block, |queue|, age, timeout, limit);
        PositionsGrow(unloaded, SetOf(visited), evictable, e.block);
        FewerInSectors(queue, k);
        queue := queue[..k] + queue[k + 1..];
        var deleted := EvictOne(e, maySave, saves, loaded, SetOf(visited), evictable, dirty);
        visited := visited + [e.block];
        if deleted {
          unloaded := unloaded + [e.block.pos];
        }
      }
      NothingQueued();
      NothingLeft(loaded - SetOf(visited), age, timeout, limit);
    }

    method EmptySectors() returns (list: seq<SectorPos>)
      requires Valid()
      ensures forall p :: p in list <==> p in sectors && sectors[p].blocks == map[]
      ensures forall i, j :: 0 <= i < j < |list| ==> list[i] != list[j]
    {
      list := [];
      var left := sectors.Keys;
      while left != {}
        invariant left <= sectors.Keys
        invariant forall p :: p in list <==> p in sectors && sectors[p].blocks == map[] && p !in left
        invariant forall i, j :: 0 <= i < j < |list| ==> list[i] != list[j]
        decreases |left|
      {
        var p :| p in left;
        left := left - {p};
        if |sectors[p].blocks| == 0 {
          list := list + [p];
        }
      }
    }

    // Deleting empty sectors unloads nothing.
    method DeleteEmptySectors(ghost loaded: set<MapBlock>)
      requires Valid() && loaded == Loaded()
      modifies this`sectors, this`sectorCache
      ensures Valid() && Loaded() == loaded && forall p :: p in sectors ==> sectors[p].blocks != map[]
    {
      LoadedHas();
      var list := EmptySectors();
      DeleteSectors(list);
      LoadedHas();
      forall b
        ensures b in Loaded() <==> b in loaded
      {
        assert b in Loaded() <==> Has(b);
      }
    }

    // timerUpdate up to the deletion of empty sectors.
    method AgeAndEvict(dtime: real, timeout: real, limit: nat, maySave: bool, saves: set<BlockPos>, ghost loaded: set<MapBlock>)
      returns (unloaded: seq<BlockPos>, ghost visited: seq<MapBlock>, ghost gone: set<MapBlock>, ghost age: map<MapBlock, real>)
      requires Valid() && loaded == Loaded()
      modifies sectors.Values`blocks, sectors.Values`blockCache, loaded`usageTimer, loaded`modified
      ensures Valid() && Loaded() == loaded - gone && SetOf(visited) <= loaded
      ensures age.Keys == loaded && forall b :: b in loaded ==> age[b] == old(b.usageTimer) + dtime
      ensures forall b :: b in loaded ==> b.usageTimer == age[b]
      ensures forall b :: b in loaded ==> (b in gone <==> b in SetOf(visited) && old(Evictable(b, maySave, saves)))
      ensures forall b :: b in loaded - gone ==> b.modified == old(b.modified)
      ensures InOrder(visited, loaded - SetOf(visited), age) && Needed(visited, |loaded|, age, timeout, limit)
      ensures NoneOverdue(loaded - SetOf(visited), age, timeout, limit)
      ensures Listed(unloaded) == PositionsOf(gone)
    {
      hide Map.Loaded, Map.Valid, Map.Queued, Map.Evicted, Evictable, EachOnce, BlocksOf, InOrder, Needed, NoneOverdue, PositionsOf, SetOf, Listed;
      ghost var evictable := set b | b in loaded && Evictable(b, maySave, saves);
      ghost var dirty := set b | b in loaded && b.modified;
      age := map b | b in loaded :: b.usageTimer + dtime;
      var aged := AgeBlocks(dtime, loaded);
      StillAsBefore(loaded, evictable, dirty, maySave, saves);
      unloaded, visited := EvictBlocks(aged, timeout, limit, maySave, saves, loaded, age, evictable, dirty);
      gone := SetOf(visited) * evictable;
      AfterEviction(loaded, SetOf(visited), evictable, dirty, maySave, saves);
    }

    /**
     timerUpdate with a limit on loaded blocks. Blocks get older, then are visited oldest first while more than
     the limit are left or the oldest is over the timeout. A visited block goes exactly when nobody holds it and
     it is clean or could be saved, where saving is possible. No sector stays empty, and both caches agree with
     what is left.
     */
    method TimerUpdate(dtime: real, timeout: real, limit: nat, maySave: bool, saves: set<BlockPos>, ghost loaded: set<MapBlock>)
      returns (unloaded: seq<BlockPos>, ghost visited: seq<MapBlock>, ghost gone: set<MapBlock>, ghost age: map<MapBlock, real>)
      requires Valid() && loaded == Loaded()
      modifies this`sectors, this`sectorCache, sectors.Values`blocks, sectors.Values`blockCache, loaded`usageTimer, loaded`modified
      ensures Valid() && Loaded() == loaded - gone && SetOf(visited) <= loaded
      ensures age.Keys == loaded && forall b :: b in loaded ==> age[b] == old(b.usageTimer) + dtime
      ensures forall b :: b in loaded ==> b.usageTimer == age[b]
      ensures forall b :: b in loaded ==> (b in gone <==> b in SetOf(visited) && old(Evictable(b, maySave, saves)))
      ensures forall b :: b in loaded - gone ==> b.modified == old(b.modified)
      ensures InOrder(visited, loaded - SetOf(visited), age) && Needed(visited, |loaded|, age, timeout, limit)
      ensures NoneOverdue(loaded - SetOf(visited), age, timeout, limit)
      ensures Listed(unloaded) == PositionsOf(gone)
      ensures forall p :: p in sectors ==> sectors[p].blocks != map[]
    {
      hide Map.Loaded, Map.Valid, Evictable, InOrder, Needed, NoneOverdue, PositionsOf, SetOf, Listed;
      unloaded, visited, gone, age := AgeAndEvict(dtime, timeout, limit, maySave, saves, loaded);
      DeleteEmptySectors(loaded - gone);
    }

    // ------------------------------------------------------------ without a limit on loaded blocks

    // With the sectors in left still to come: what the sectors hold.
    ghost predicate SectorsLeft(loaded: set<MapBlock>, left: set<SectorPos>, gone: set<MapBlock>)
      reads this, sectors.Values
    {
      && left <= sectors.Keys
      && forall p :: p in sectors ==> sectors[p].blocks.Values == if p in left then Above(loaded, p) else Above(loaded, p) - gone
    }

    ghost predicate Progress(loaded: set<MapBlock>, left: set<SectorPos>, gone: set<MapBlock>, age: map<MapBlock, real>,
                             dirty: set<MapBlock>, dtime: real)
      reads this, sectors.Values, loaded
    {
      && SectorsLeft(loaded, left, gone) && NotAbove(loaded, left) <= loaded
      && Aging(loaded, NotAbove(loaded, left), age, dtime) && Flagged(loaded - NotAbove(loaded, left) * gone, dirty)
    }

    // What one sector of them leaves as it was.
    ghost predicate Others(loaded: set<MapBlock>, left: set<SectorPos>, gone: set<MapBlock>, age: map<MapBlock, real>, dirty: set<MapBlock>,
                           dtime: real, p: SectorPos, here: set<MapBlock>, done: set<MapBlock>)
      reads this, sectors.Values, loaded
    {
      && age.Keys == loaded
      && (forall q :: q in sectors && q != p ==> sectors[q].blocks.Values == if q in left then Above(loaded, q) else Above(loaded, q) - gone)
      && (forall b :: b in loaded - here ==> b.usageTimer == age[b] + if b in done then dtime else 0.0)
      && (forall b :: b in loaded - here - done * gone ==> (b.modified <==> b in dirty))
    }

    lemma OthersBefore(loaded: set<MapBlock>, left: set<SectorPos>, gone: set<MapBlock>, age: map<MapBlock, real>, dirty: set<MapBlock>,
                       dtime: real, p: SectorPos)
      requires Progress(loaded, left, gone, age, dirty, dtime) && p in left && Valid()
      ensures Others(loaded, left, gone, age, dirty, dtime, p, Above(loaded, p), NotAbove(loaded, left))
      ensures p in sectors && sectors[p].blocks.Values == Above(loaded, p) && left <= sectors.Keys
      ensures forall q :: q in sectors && q != p ==> sectors[q] != sectors[p]
      ensures Aging(loaded, NotAbove(loaded, left), age, dtime) && Flagged(loaded - NotAbove(loaded, left) * gone, dirty)
    {
      hide Above, NotAbove;
    }

    lemma OthersAfter(loaded: set<MapBlock>, left: set<SectorPos>, gone: set<MapBlock>, age: map<MapBlock, real>, ageHere: map<MapBlock, real>,
                      dirty: set<MapBlock>, dtime: real, p: SectorPos)
      requires Others(loaded, left, gone, age, dirty, dtime, p, Above(loaded, p), NotAbove(loaded, left))
      requires left <= sectors.Keys && p in left && sectors[p].Evicting(Above(loaded, p), Above(loaded, p), gone, ageHere, dirty, dtime)
      requires forall b :: b in Above(loaded, p) ==> b in age && b in ageHere && ageHere[b] == age[b]
      ensures Progress(loaded, left - {p}, gone, age, dirty, dtime)
    {
      hide Above, NotAbove;
      OneSectorMore(loaded, left, p);
      var all, done, after := Above(loaded, p), NotAbove(loaded, left), NotAbove(loaded, left - {p});
      assert all - all * gone == all - gone;
      assert SectorsLeft(loaded, left - {p}, gone);
      assert after == done + all && after <= loaded;
      assert Aging(loaded, after, age, dtime);
      assert Flagged(loaded - after * gone, dirty);
    }

    method EvictStep(p: SectorPos, sector: MapSector, dtime: real, timeout: real, maySave: bool, saves: set<BlockPos>, unloaded0: seq<BlockPos>,
                     ghost loaded: set<MapBlock>, ghost left: set<SectorPos>, ghost due: set<MapBlock>, ghost evictable: set<MapBlock>,
                     ghost age: map<MapBlock, real>, ghost dirty: set<MapBlock>)
      returns (allBlocksDeleted: bool, unloaded: seq<BlockPos>)
      requires Valid() && p in left && p in sectors && sector == sectors[p]
      requires Progress(loaded, left, due * evictable, age, dirty, dtime)
      requires DueBefore(loaded, due, evictable, age, dirty, dtime, timeout, maySave, saves)
      modifies sector`blocks, sector`blockCache, loaded`usageTimer, loaded`modified
      ensures Valid() && Progress(loaded, left - {p}, due * evictable, age, dirty, dtime)
      ensures allBlocksDeleted <==> Above(loaded, p) <= due
      ensures Listed(unloaded) == Listed(unloaded0) + PositionsOf(Above(loaded, p) * due * evictable)
    {
      hide Map.Loaded, MapSector.Valid, Progress, NotAbove, Above, Listed, PositionsOf, Aging, Flagged, DueBefore;
      OneSectorMore(loaded, left, p);
      ghost var all, done, gone := Above(loaded, p), NotAbove(loaded, left), due * evictable;
      OthersBefore(loaded, left, gone, age, dirty, dtime, p);
      ghost var ageHere := PartStarts(loaded, done, all, due, evictable, age, dirty, dtime, timeout, maySave, saves);
      allBlocksDeleted, unloaded := sector.AgeAndEvict(dtime, timeout, maySave, saves, unloaded0, all, due, evictable, ageHere, dirty);
      OthersAfter(loaded, left, gone, age, ageHere, dirty, dtime, p);
    }

    // The first loop as far as the sectors in left: what is loaded, and the lists of what went.
    ghost predicate Sweep(unloaded: seq<BlockPos>, list: seq<SectorPos>, left: set<SectorPos>, loaded: set<MapBlock>, due: set<MapBlock>,
                          evictable: set<MapBlock>, age: map<MapBlock, real>, dirty: set<MapBlock>, dtime: real)
      reads this, sectors.Values, loaded
    {
      && Progress(loaded, left, due * evictable, age, dirty, dtime) && Collected(list, sectors.Keys, left, loaded, due)
      && Listed(unloaded) == PositionsOf(NotAbove(loaded, left) * due * evictable)
    }

    // One sector; it is collected if it has only due blocks.
    method SweepStep(p: SectorPos, sector: MapSector, dtime: real, timeout: real, maySave: bool, saves: set<BlockPos>, unloaded0: seq<BlockPos>,
                     list0: seq<SectorPos>, ghost loaded: set<MapBlock>, ghost left: set<SectorPos>, ghost due: set<MapBlock>,
                     ghost evictable: set<MapBlock>, ghost age: map<MapBlock, real>, ghost dirty: set<MapBlock>)
      returns (unloaded: seq<BlockPos>, list: seq<SectorPos>)
      requires Valid() && p in left && p in sectors && sector == sectors[p] && left <= sectors.Keys
      requires Sweep(unloaded0, list0, left, loaded, due, evictable, age, dirty, dtime)
      requires DueBefore(loaded, due, evictable, age, dirty, dtime, timeout, maySave, saves)
      modifies sector`blocks, sector`blockCache, loaded`usageTimer, loaded`modified
      ensures Valid() && Sweep(unloaded, list, left - {p}, loaded, due, evictable, age, dirty, dtime)
    {
      hide Map.Valid, Progress, NotAbove, Above, Listed, PositionsOf, DueBefore, Collected;
      list := list0;
      CollectedGrows(list, sectors.Keys, left, loaded, due, p);
      OneSectorMore(loaded, left, p);
      PositionsSplit(NotAbove(loaded, left), Above(loaded, p), due, evictable);
      var allBlocksDeleted;
      allBlocksDeleted, unloaded := EvictStep(p, sector, dtime, timeout, maySave, saves, unloaded0, loaded, left, due, evictable, age, dirty);
      if allBlocksDeleted {
        list := list + [p];
      }
    }

    // The first loop: every sector by itself, collecting the ones that have only due blocks.
    method EvictSectors(dtime: real, timeout: real, maySave: bool, saves: set<BlockPos>, ghost loaded: set<MapBlock>,
                        ghost due: set<MapBlock>, ghost evictable: set<MapBlock>, ghost age: map<MapBlock, real>, ghost dirty: set<MapBlock>)
      returns (unloaded: seq<BlockPos>, list: seq<SectorPos>)
      requires Valid() && loaded == Loaded() && age.Keys == loaded
      requires DueBefore(loaded, due, evictable, age, dirty, dtime, timeout, maySave, saves)
      requires forall b :: b in loaded ==> b.usageTimer == age[b] && (b.modified <==> b in dirty)
      modifies sectors.Values`blocks, sectors.Values`blockCache, loaded`usageTimer, loaded`modified
      ensures Valid() && Loaded() == loaded - due * evictable
      ensures forall p :: p in list <==> p in sectors && Above(loaded, p) <= due
      ensures forall i, j :: 0 <= i < j < |list| ==> list[i] != list[j]
      ensures forall b :: b in loaded ==> b.usageTimer == age[b] + dtime
      ensures forall b :: b in loaded - due * evictable ==> (b.modified <==> b in dirty)
      ensures Listed(unloaded) == PositionsOf(loaded * due * evictable)
    {
      hide Map.Loaded, Map.Valid, DueBefore, NotAbove, Above, Listed, PositionsOf, Sweep;
      unloaded, list := [], [];
      var left := sectors.Keys;
      LoadedInSectors();
      SweepStarts(loaded, due, evictable, age, dirty, dtime);
      while left != {}
        invariant Valid() && left <= sectors.Keys && Sweep(unloaded, list, left, loaded, due, evictable, age, dirty, dtime)
        decreases |left|
      {
        var p :| p in left;
        unloaded, list := SweepStep(p, sectors[p], dtime, timeout, maySave, saves, unloaded, list, loaded, left, due, evictable, age, dirty);
        left := left - {p};
      }
      SweepEnds(unloaded, list, loaded, due, evictable, age, dirty, dtime);
    }

    lemma SweepStarts(loaded: set<MapBlock>, due: set<MapBlock>, evictable: set<MapBlock>, age: map<MapBlock, real>, dirty: set<MapBlock>, dtime: real)
      requires Valid() && loaded == Loaded() && age.Keys == loaded
      requires forall b :: b in loaded ==> b.usageTimer == age[b] && (b.modified <==> b in dirty)
      ensures Sweep([], [], sectors.Keys, loaded, due, evictable, age, dirty, dtime)
    {
      hide Map.Loaded, Map.Valid, Progress, NotAbove, Listed, PositionsOf, Collected;
      NothingDone(loaded, due, evictable, []);
      ProgressStarts(loaded, due * evictable, age, dirty, dtime);
      NoneCollected(sectors.Keys, loaded, due);
    }

    lemma SweepEnds(unloaded: seq<BlockPos>, list: seq<SectorPos>, loaded: set<MapBlock>, due: set<MapBlock>, evictable: set<MapBlock>,
                    age: map<MapBlock, real>, dirty: set<MapBlock>, dtime: real)
      requires Valid() && Sweep(unloaded, list, {}, loaded, due, evictable, age, dirty, dtime)
      requires forall b :: b in loaded ==> SectorOf(b.pos) in sectors
      ensures Loaded() == loaded - due * evictable
      ensures forall p :: p in list <==> p in sectors && Above(loaded, p) <= due
      ensures forall i, j :: 0 <= i < j < |list| ==> list[i] != list[j]
      ensures forall b :: b in loaded ==> b.usageTimer == age[b] + dtime
      ensures forall b :: b in loaded - due * evictable ==> (b.modified <==> b in dirty)
      ensures Listed(unloaded) == PositionsOf(loaded * due * evictable)
    {
      hide Map.Loaded, Map.Valid, Progress, Collected;
      AllNotAboveNone(loaded);
      CollectedAll(list, sectors.Keys, loaded, due);
      ProgressEnds(loaded, due * evictable, age, dirty, dtime);
    }

    lemma ProgressStarts(loaded: set<MapBlock>, gone: set<MapBlock>, age: map<MapBlock, real>, dirty: set<MapBlock>, dtime: real)
      requires Valid() && loaded == Loaded() && age.Keys == loaded
      requires forall b :: b in loaded ==> b.usageTimer == age[b] && (b.modified <==> b in dirty)
      ensures Progress(loaded, sectors.Keys, gone, age, dirty, dtime) && NotAbove(loaded, sectors.Keys) == {}
    {
      hide Map.Loaded, Map.Valid, NotAbove, Above;
      LoadedInSectors();
      NoneAboveAll(loaded, sectors.Keys);
      AllSectorBlocks(loaded);
    }

    lemma ProgressEnds(loaded: set<MapBlock>, gone: set<MapBlock>, age: map<MapBlock, real>, dirty: set<MapBlock>, dtime: real)
      requires Valid() && Progress(loaded, {}, gone, age, dirty, dtime) && NotAbove(loaded, {}) == loaded
      requires forall b :: b in loaded ==> SectorOf(b.pos) in sectors
      ensures Loaded() == loaded - gone
      ensures forall b :: b in loaded ==> b.usageTimer == age[b] + dtime
      ensures forall b :: b in loaded - gone ==> (b.modified <==> b in dirty)
    {
      hide Map.Loaded, Map.Valid, NotAbove, Above;
      SectorsHold(loaded, gone);
    }

    lemma AllSectorBlocks(loaded: set<MapBlock>)
      requires Valid() && loaded == Loaded()
      ensures forall p :: p in sectors ==> sectors[p].blocks.Values == Above(loaded, p)
    {
      forall p | p in sectors ensures sectors[p].blocks.Values == Above(loaded, p) {
        SectorBlocks(p);
      }
    }

    // What the sectors hold together.
    lemma SectorsHold(loaded: set<MapBlock>, gone: set<MapBlock>)
      requires Valid() && forall b :: b in loaded ==> SectorOf(b.pos) in sectors
      requires forall p :: p in sectors ==> sectors[p].blocks.Values == Above(loaded, p) - gone
      ensures Loaded() == loaded - gone
    {
      forall b | b in Loaded() ensures b in loaded - gone {
        var p, y :| p in sectors && y in sectors[p].blocks && sectors[p].blocks[y] == b;
        assert b in sectors[p].blocks.Values;
      }
      forall b | b in loaded - gone ensures b in Loaded() {
        assert b in sectors[SectorOf(b.pos)].blocks.Values;
        var y :| y in sectors[SectorOf(b.pos)].blocks && sectors[SectorOf(b.pos)].blocks[y] == b;
      }
    }

    // timerUpdate without a limit, up to the deletion of sectors.
    method EvictDue(dtime: real, timeout: real, maySave: bool, saves: set<BlockPos>, ghost loaded: set<MapBlock>)
      returns (unloaded: seq<BlockPos>, list: seq<SectorPos>, ghost due: set<MapBlock>, ghost evictable: set<MapBlock>)
      requires Valid() && loaded == Loaded()
      modifies sectors.Values`blocks, sectors.Values`blockCache, loaded`usageTimer, loaded`modified
      ensures due <= loaded && forall b :: b in loaded ==> (b in due <==> b.refs == 0 && old(b.usageTimer) + dtime > timeout)
      ensures evictable <= loaded && forall b :: b in loaded ==> (b in evictable <==> old(Evictable(b, maySave, saves)))
      ensures Valid() && Loaded() == loaded - due * evictable
      ensures forall p :: p in list <==> p in sectors && Above(loaded, p) <= due
      ensures forall i, j :: 0 <= i < j < |list| ==> list[i] != list[j]
      ensures forall b :: b in loaded ==> b.usageTimer == old(b.usageTimer) + dtime
      ensures forall b :: b in Loaded() ==> b.modified == old(b.modified)
      ensures Listed(unloaded) == PositionsOf(due * evictable)
    {
      hide Map.Loaded, Map.Valid, Above, Listed, PositionsOf;
      due := set b | b in loaded && b.refs == 0 && b.usageTimer + dtime > timeout;
      evictable := set b | b in loaded && Evictable(b, maySave, saves);
      ghost var age := map b | b in loaded :: b.usageTimer;
      ghost var dirty := set b | b in loaded && b.modified;
      unloaded, list := EvictSectors(dtime, timeout, maySave, saves, loaded, due, evictable, age, dirty);
      assert loaded * due * evictable == due * evictable;
    }

    /**
     timerUpdate without a limit on loaded blocks. A block goes exactly when it is due (over the timeout and held by
     nobody) and either clean or saved, where saving is possible, or in a sector that has only due blocks. These
     sectors are gone, and both caches agree with what is left.
     */
    method TimerUpdateUnlimited(dtime: real, timeout: real, maySave: bool, saves: set<BlockPos>, ghost loaded: set<MapBlock>)
      returns (unloaded: seq<BlockPos>, ghost due: set<MapBlock>, ghost evictable: set<MapBlock>)
      requires Valid() && loaded == Loaded()
      modifies this`sectors, this`sectorCache, sectors.Values`blocks, sectors.Values`blockCache, loaded`usageTimer, loaded`modified
      ensures due <= loaded && forall b :: b in loaded ==> (b in due <==> b.refs == 0 && old(b.usageTimer) + dtime > timeout)
      ensures evictable <= loaded && forall b :: b in loaded ==> (b in evictable <==> old(Evictable(b, maySave, saves)))
      ensures Valid() && Loaded() == loaded - Unloaded(loaded, due, evictable)
      ensures forall p :: p in sectors <==> p in old(sectors) && !(Above(loaded, p) <= due)
      ensures forall b :: b in loaded ==> b.usageTimer == old(b.usageTimer) + dtime
      ensures forall b :: b in Loaded() ==> b.modified == old(b.modified)
      ensures Listed(unloaded) == PositionsOf(due * evictable)
    {
      hide Map.Loaded, Map.Valid, Above, Listed, PositionsOf, Unloaded, Evictable;
      var list;
      LoadedInSectors();
      unloaded, list, due, evictable := EvictDue(dtime, timeout, maySave, saves, loaded);
      DropSectors(list, loaded - due * evictable);
      LeftOver(loaded, due, evictable, list);
    }

    // Deleting sectors unloads what they hold.
    method DropSectors(list: seq<SectorPos>, ghost held: set<MapBlock>)
      requires Valid() && held == Loaded() && forall i :: 0 <= i < |list| ==> list[i] in sectors
      requires forall i, j :: 0 <= i < j < |list| ==> list[i] != list[j]
      modifies this`sectors, this`sectorCache
      ensures Valid() && Loaded() == set b | b in held && SectorOf(b.pos) !in list
      ensures forall p :: p in sectors <==> p in old(sectors) && p !in list
    {
      LoadedHas();
      DeleteSectors(list);
      LoadedHas();
      forall b
        ensures b in Loaded() <==> b in held && SectorOf(b.pos) !in list
      {
        assert b in Loaded() <==> Has(b);
      }
    }

    static lemma LeftOver(loaded: set<MapBlock>, due: set<MapBlock>, evictable: set<MapBlock>, list: seq<SectorPos>)
      requires forall b :: b in loaded ==> (SectorOf(b.pos) in list <==> Above(loaded, SectorOf(b.pos)) <= due)
      ensures (set b | b in loaded - due * evictable && SectorOf(b.pos) !in list) == loaded - Unloaded(loaded, due, evictable)
    {
      assert forall b :: b in loaded ==> b in Above(loaded, SectorOf(b.pos));
    }

    lemma StillAsBefore(loaded: set<MapBlock>, evictable: set<MapBlock>, dirty: set<MapBlock>, maySave: bool, saves: set<BlockPos>)
      requires Valid() && Loaded() == loaded
      requires forall b :: b in loaded ==> (b in evictable <==> Evictable(b, maySave, saves)) && (b in dirty <==> b.modified)
      ensures Evicted(loaded, {}, evictable, dirty, maySave, saves)
    {
      assert loaded - {} * evictable == loaded;
    }

    lemma AfterEviction(loaded: set<MapBlock>, visited: set<MapBlock>, evictable: set<MapBlock>, dirty: set<MapBlock>, maySave: bool, saves: set<BlockPos>)
      requires Evicted(loaded, visited, evictable, dirty, maySave, saves)
      ensures Valid() && Loaded() == loaded - visited * evictable && visited <= loaded
      ensures forall b :: b in loaded - visited * evictable ==> (b.modified <==> b in dirty)
    {}

    lemma LoadedInSectors()
      requires Valid()
      ensures forall b :: b in Loaded() ==> SectorOf(b.pos) in sectors
    {
      LoadedHas();
    }
  }

  // ---------------------------------------------------------------- which blocks are visited

  ghost function SetOf(bs: seq<MapBlock>): set<MapBlock> {
    set b | b in bs
  }

  ghost function Listed(ps: seq<BlockPos>): set<BlockPos> {
    set p | p in ps
  }

  ghost function PositionsOf(bs: set<MapBlock>): set<BlockPos> {
    set b | b in bs :: b.pos
  }

  // The blocks in done are older by dtime.
  ghost predicate Aging(all: set<MapBlock>, done: set<MapBlock>, age: map<MapBlock, real>, dtime: real)
    reads all
  {
    age.Keys == all && forall b :: b in all ==> b.usageTimer == age[b] + if b in done then dtime else 0.0
  }

  ghost predicate Flagged(kept: set<MapBlock>, dirty: set<MapBlock>)
    reads kept
  {
    forall b :: b in kept ==> (b.modified <==> b in dirty)
  }

  // A part of the blocks none of which has been dealt with.
  lemma PartStarts(all: set<MapBlock>, done: set<MapBlock>, part: set<MapBlock>, due: set<MapBlock>, evictable: set<MapBlock>,
                   age: map<MapBlock, real>, dirty: set<MapBlock>, dtime: real, timeout: real, maySave: bool, saves: set<BlockPos>)
    returns (ageHere: map<MapBlock, real>)
    requires part <= all && part !! done && DueBefore(all, due, evictable, age, dirty, dtime, timeout, maySave, saves)
    requires Aging(all, done, age, dtime) && Flagged(all - done * (due * evictable), dirty)
    ensures DueBefore(part, due, evictable, ageHere, dirty, dtime, timeout, maySave, saves)
    ensures Aging(part, {}, ageHere, dtime) && Flagged(part - {} * (due * evictable), dirty) && part - {} * (due * evictable) == part
    ensures forall b :: b in part ==> b in age && b in ageHere && ageHere[b] == age[b]
  {
    ageHere := map b | b in part :: age[b];
  }

  // What the blocks were like before.
  ghost predicate DueBefore(loaded: set<MapBlock>, due: set<MapBlock>, evictable: set<MapBlock>, age: map<MapBlock, real>,
                            dirty: set<MapBlock>, dtime: real, timeout: real, maySave: bool, saves: set<BlockPos>)
    reads loaded`refs
  {
    && age.Keys == loaded
    && (forall b :: b in loaded ==> (b in due <==> b.refs == 0 && age[b] + dtime > timeout))
    && (forall b :: b in loaded ==> (b in evictable <==> b.refs == 0 && (b !in dirty || !maySave || b.pos in saves)))
  }

  // The blocks above a position.
  ghost function Above(loaded: set<MapBlock>, p: SectorPos): set<MapBlock> {
    set b | b in loaded && SectorOf(b.pos) == p
  }

  // The blocks that go without a limit: the due ones that are evictable, and all of a sector that has only due ones.
  ghost function Unloaded(loaded: set<MapBlock>, due: set<MapBlock>, evictable: set<MapBlock>): set<MapBlock> {
    set b | b in loaded && b in due && (b in evictable || Above(loaded, SectorOf(b.pos)) <= due)
  }

  /**
   Without a limit nothing but clean and saved blocks goes exactly if above every due block that could not be saved,
   or below, some block is not due: otherwise the sector goes with all it holds.
   */
  lemma UnlimitedLosesUnsaved(loaded: set<MapBlock>, due: set<MapBlock>, evictable: set<MapBlock>)
    ensures Unloaded(loaded, due, evictable) <= evictable <==>
      forall b :: b in loaded * due - evictable ==> exists c :: c in loaded - due && SectorOf(c.pos) == SectorOf(b.pos)
  {
    if Unloaded(loaded, due, evictable) <= evictable {
      forall b | b in loaded * due - evictable ensures exists c :: c in loaded - due && SectorOf(c.pos) == SectorOf(b.pos) {
        assert b !in Unloaded(loaded, due, evictable);
        var c :| c in Above(loaded, SectorOf(b.pos)) && c !in due;
        assert c in loaded - due;
      }
    } else {
      var b :| b in Unloaded(loaded, due, evictable) && b !in evictable;
      assert b in loaded * due - evictable;
      forall c | c in loaded - due ensures SectorOf(c.pos) != SectorOf(b.pos) {
        assert c !in Above(loaded, SectorOf(b.pos));
      }
    }
  }

  /** One overdue block that could not be saved, alone in its sector, is lost. */
  lemma UnsavedBlockLost(b: MapBlock, saves: set<BlockPos>)
    requires b.refs == 0 && b.modified && b.pos !in saves
    ensures !Evictable(b, true, saves) && b in Unloaded({b}, {b}, {})
  {
    assert Above({b}, SectorOf(b.pos)) == {b};
  }

  // The sectors dealt with that have only due blocks.
  ghost predicate Collected(list: seq<SectorPos>, keys: set<SectorPos>, left: set<SectorPos>, loaded: set<MapBlock>, due: set<MapBlock>) {
    && (forall p :: p in list <==> p in keys && p !in left && Above(loaded, p) <= due)
    && (forall i, j :: 0 <= i < j < |list| ==> list[i] != list[j])
  }

  lemma NoneCollected(keys: set<SectorPos>, loaded: set<MapBlock>, due: set<MapBlock>)
    ensures Collected([], keys, keys, loaded, due)
  {}

  lemma CollectedGrows(list: seq<SectorPos>, keys: set<SectorPos>, left: set<SectorPos>, loaded: set<MapBlock>, due: set<MapBlock>, p: SectorPos)
    requires Collected(list, keys, left, loaded, due) && p in left && left <= keys
    ensures Collected(if Above(loaded, p) <= due then list + [p] else list, keys, left - {p}, loaded, due)
  {
    hide Above;
  }

  lemma CollectedAll(list: seq<SectorPos>, keys: set<SectorPos>, loaded: set<MapBlock>, due: set<MapBlock>)
    requires Collected(list, keys, {}, loaded, due)
    ensures forall p :: p in list <==> p in keys && Above(loaded, p) <= due
    ensures forall i, j :: 0 <= i < j < |list| ==> list[i] != list[j]
  {
    hide Above;
  }

  lemma NothingDone(all: set<MapBlock>, due: set<MapBlock>, evictable: set<MapBlock>, unloaded: seq<BlockPos>)
    ensures SetOf([]) == {} && all - {} * due * evictable == all
    ensures Listed(unloaded) + PositionsOf({} * due * evictable) == Listed(unloaded) && Listed([]) == {}
  {
    assert {} * due * evictable == {} && PositionsOf({}) == {};
    assert all - {} == all;
  }

  lemma NextOfQueue(queue: seq<MapBlock>, i: nat)
    requires i < |queue| && forall j, k :: 0 <= j < k < |queue| ==> queue[j] != queue[k]
    ensures SetOf(queue[..i + 1]) == SetOf(queue[..i]) + {queue[i]} && queue[i] !in SetOf(queue[..i]) && queue[i] in SetOf(queue)
  {
    assert queue[..i + 1] == queue[..i] + [queue[i]];
  }

  lemma OneMoreDone(all: set<MapBlock>, done: set<MapBlock>, due: set<MapBlock>, evictable: set<MapBlock>, b: MapBlock,
                    unloaded: seq<BlockPos>, unloaded0: seq<BlockPos>)
    requires b in all - done && Listed(unloaded) == Listed(unloaded0) + PositionsOf(done * due * evictable)
    ensures b in all - done * due * evictable
    ensures b in due * evictable ==>
      && all - (done + {b}) * due * evictable == all - done * due * evictable - {b}
      && Listed(unloaded + [b.pos]) == Listed(unloaded0) + PositionsOf((done + {b}) * due * evictable)
    ensures b !in due * evictable ==> (done + {b}) * due * evictable == done * due * evictable
  {
    if b in due * evictable {
      assert (done + {b}) * due * evictable == done * due * evictable + {b};
      assert Listed(unloaded + [b.pos]) == Listed(unloaded) + {b.pos};
      assert PositionsOf(done * due * evictable + {b}) == PositionsOf(done * due * evictable) + {b.pos};
    }
  }

  lemma PositionsSplit(done: set<MapBlock>, above: set<MapBlock>, due: set<MapBlock>, evictable: set<MapBlock>)
    ensures PositionsOf((done + above) * due * evictable) == PositionsOf(done * due * evictable) + PositionsOf(above * due * evictable)
  {
    assert (done + above) * due * evictable == done * due * evictable + above * due * evictable;
  }

  // The visited blocks come oldest first, and none of the others is older.
  ghost predicate InOrder(visited: seq<MapBlock>, rest: set<MapBlock>, age: map<MapBlock, real>) {
    && (forall b :: b in visited ==> b in age) && (forall b :: b in rest ==> b in age)
    && (forall i, j :: 0 <= i < j < |visited| ==> visited[i] != visited[j] && age[visited[i]] >= age[visited[j]])
    && (forall b, c :: b in visited && c in rest ==> age[b] >= age[c])
  }

  // Each was over the timeout, or more blocks than the limit were left.
  ghost predicate Needed(visited: seq<MapBlock>, total: nat, age: map<MapBlock, real>, timeout: real, limit: nat) {
    forall i :: 0 <= i < |visited| ==> visited[i] in age && (age[visited[i]] > timeout || total - i > limit)
  }

  // The others are within both.
  ghost predicate NoneOverdue(rest: set<MapBlock>, age: map<MapBlock, real>, timeout: real, limit: nat) {
    |rest| <= limit && forall b :: b in rest ==> b in age && age[b] <= timeout
  }

  lemma VisitsStart(aged: seq<Timed>, loaded: set<MapBlock>, evictable: set<MapBlock>, age: map<MapBlock, real>, timeout: real, limit: nat)
    requires age.Keys == loaded && EachOnce(aged) && BlocksOf(aged) == loaded
    ensures SetOf([]) == {} && loaded - {} == loaded && PositionsOf({} * evictable) == {} == Listed([])
    ensures InOrder([], loaded, age) && Needed([], |loaded|, age, timeout, limit)
  {}

  // Taking the entry off leaves the others; the queue is as long as there are blocks.
  lemma QueuePops(queue: seq<Timed>, k: nat, rest: set<MapBlock>, age: map<MapBlock, real>)
    requires EachOnce(queue) && k < |queue| && BlocksOf(queue) == rest && rest <= age.Keys
    requires forall b :: b in rest ==> b.usageTimer == age[b]
    requires forall i :: 0 <= i < |queue| ==> queue[k].block.usageTimer >= queue[i].block.usageTimer
    ensures var shorter := queue[..k] + queue[k + 1..];
      EachOnce(shorter) && BlocksOf(shorter) == rest - {queue[k].block} && (forall e :: e in shorter ==> e in queue)
    ensures queue[k].block in rest && |queue| == |rest| && forall b :: b in rest ==> age[queue[k].block] >= age[b]
  {
    var shorter := queue[..k] + queue[k + 1..];
    assert forall i :: 0 <= i < |shorter| ==> shorter[i] == queue[if i < k then i else i + 1];
    forall b | b in rest - {queue[k].block}
      ensures b in BlocksOf(shorter)
    {
      var i :| 0 <= i < |queue| && queue[i].block == b;
      assert shorter[if i < k then i else i - 1] == queue[i];
    }
    QueueSize(queue);
    forall b | b in rest
      ensures age[queue[k].block] >= age[b]
    {
      var i :| 0 <= i < |queue| && queue[i].block == b;
    }
  }

  lemma {:induction false} QueueSize(queue: seq<Timed>)
    requires EachOnce(queue)
    ensures |queue| == |BlocksOf(queue)|
  {
    if queue == [] {
    } else {
      var n := |queue| - 1;
      QueueSize(queue[..n]);
      assert queue == queue[..n] + [queue[n]];
      QueueGrows(queue[..n], queue[n]);
      assert queue[n].block !in BlocksOf(queue[..n]);
    }
  }

  lemma VisitStep(visited: seq<MapBlock>, loaded: set<MapBlock>, b: MapBlock, left: nat, age: map<MapBlock, real>, timeout: real, limit: nat)
    requires SetOf(visited) <= loaded && b in loaded - SetOf(visited) && left == |loaded - SetOf(visited)|
    requires InOrder(visited, loaded - SetOf(visited), age) && Needed(visited, |loaded|, age, timeout, limit)
    requires forall c :: c in loaded - SetOf(visited) ==> age[b] >= age[c]
    requires left > limit || age[b] > timeout
    ensures SetOf(visited + [b]) <= loaded && loaded - SetOf(visited + [b]) == loaded - SetOf(visited) - {b}
    ensures SetOf(visited + [b]) == SetOf(visited) + {b}
    ensures InOrder(visited + [b], loaded - SetOf(visited + [b]), age) && Needed(visited + [b], |loaded|, age, timeout, limit)
  {
    hide SetOf;
    VisitedSize(visited, loaded - SetOf(visited), age);
    SetGrows(visited, b);
    assert |loaded| == |SetOf(visited)| + |loaded - SetOf(visited)|;
  }

  lemma {:induction false} VisitedSize(visited: seq<MapBlock>, rest: set<MapBlock>, age: map<MapBlock, real>)
    requires InOrder(visited, rest, age)
    ensures |SetOf(visited)| == |visited|
  {
    if visited == [] {
    } else {
      var n := |visited| - 1;
      VisitedSize(visited[..n], rest, age);
      assert SetOf(visited) == SetOf(visited[..n]) + {visited[n]};
    }
  }

  lemma RestNotOverdue(rest: set<MapBlock>, top: MapBlock, age: map<MapBlock, real>, timeout: real, limit: nat)
    requires rest <= age.Keys && top in rest && |rest| <= limit && age[top] <= timeout
    requires forall b :: b in rest ==> age[top] >= age[b]
    ensures NoneOverdue(rest, age, timeout, limit)
  {}

  lemma NothingLeft(rest: set<MapBlock>, age: map<MapBlock, real>, timeout: real, limit: nat)
    requires rest == {}
    ensures NoneOverdue(rest, age, timeout, limit)
  {}

  lemma PositionsGrow(unloaded: seq<BlockPos>, visited: set<MapBlock>, evictable: set<MapBlock>, b: MapBlock)
    requires Listed(unloaded) == PositionsOf(visited * evictable)
    ensures PositionsOf((visited + {b}) * evictable) == Listed(if b in evictable then unloaded + [b.pos] else unloaded)
  {
    var (gone, after) := (visited * evictable, (visited + {b}) * evictable);
    assert after == if b in evictable then gone + {b} else gone;
    assert PositionsOf(gone + {b}) == PositionsOf(gone) + {b.pos};
    assert Listed(unloaded + [b.pos]) == Listed(unloaded) + {b.pos};
  }

  // Nobody holds the block, and it is clean, saved now, or not worth saving.
  predicate Evictable(b: MapBlock, maySave: bool, saves: set<BlockPos>)
    reads b`refs, b`modified
  {
    b.refs == 0 && (!b.modified || !maySave || b.pos in saves)
  }

  datatype Timed = Timed(sect: MapSector, block: MapBlock)

  ghost function BlocksOf(queue: seq<Timed>): set<MapBlock> {
    set e | e in queue :: e.block
  }

  ghost predicate EachOnce(queue: seq<Timed>) {
    forall i, j :: 0 <= i < j < |queue| ==> queue[i].block != queue[j].block
  }

  // The blocks in none of these sectors.
  ghost function NotAbove(loaded: set<MapBlock>, left: set<SectorPos>): set<MapBlock> {
    set b | b in loaded && SectorOf(b.pos) !in left
  }

  lemma NoneAboveAll(loaded: set<MapBlock>, left: set<SectorPos>)
    requires forall b :: b in loaded ==> SectorOf(b.pos) in left
    ensures NotAbove(loaded, left) == {}
  {}

  lemma OneSectorMore(loaded: set<MapBlock>, left: set<SectorPos>, p: SectorPos)
    requires p in left
    ensures NotAbove(loaded, left - {p}) == NotAbove(loaded, left) + Above(loaded, p)
    ensures NotAbove(loaded, left) !! Above(loaded, p) && Above(loaded, p) <= loaded && NotAbove(loaded, left) <= loaded
    ensures forall b :: b in NotAbove(loaded, left) ==> SectorOf(b.pos) != p
  {}

  lemma AllNotAboveNone(loaded: set<MapBlock>)
    ensures NotAbove(loaded, {}) == loaded
  {}

  lemma NothingQueued()
    ensures BlocksOf([]) == {} && EachOnce([])
  {}

  lemma NothingListed()
    ensures SetOf([]) == {}
  {}

  lemma SetGrows(bs: seq<MapBlock>, b: MapBlock)
    ensures SetOf(bs + [b]) == SetOf(bs) + {b}
    ensures forall c :: c in SetOf(bs) <==> c in bs
  {}

  lemma AllOf(bs: seq<MapBlock>, all: set<MapBlock>)
    requires forall b :: b in bs <==> b in all
    ensures SetOf(bs) == all
  {}

  lemma QueueGrows(queue: seq<Timed>, e: Timed)
    requires EachOnce(queue)
    ensures BlocksOf(queue + [e]) == BlocksOf(queue) + {e.block}
    ensures e.block !in BlocksOf(queue) ==> EachOnce(queue + [e])
  {}
}
