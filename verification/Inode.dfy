/** Files of src/filesys/inode.c: index look-up, reading, writing, creation and removal.  Every sector
    is read and written through the buffer cache of src/filesys/cache.c, and taken and freed through
    the bitmap of src/filesys/free-map.c. */
module Inode {
  import opened Bytes
  import opened Disk
  import opened IndexTable
  import opened InodeIndex
  import opened InodeState
  import opened InodeFile
  import opened InodeLife
  import Bitmap
  import Cache

  class FileSystem {
    const cache: Cache.BufferCache
    const freeMap: Bitmap.BitArray
    ghost var secs: seq<Sector> // the array of sectors that the cache stands for
    ghost var used: seq<bool>   // the bits of the free map
    ghost var own: Owners

    // The cache stands for secs, nobody holds a block, and the free map stands for used.
    ghost predicate Backed()
      reads this`secs, this`used, cache, freeMap.elems
    {
      && cache.Valid() && cache.Idle() && cache.Sectors() == secs
      && |cache.disk| == |secs| < Cache.NO_SECTOR
      && freeMap.Valid() && freeMap.Bits() == used
    }

    ghost predicate Valid()
      reads this, cache, freeMap.elems
    {
      Backed() && Inv(secs, used, own)
    }

    /** A device with a free map and no inode on it yet. */
    constructor (device: seq<Sector>, freeMap: Bitmap.BitArray)
      requires freeMap.Valid() && freeMap.bitCnt == |device| < NO_SPACE
      ensures Valid() && secs == device && used == freeMap.Bits() && own == map[]
      ensures fresh(cache) && this.freeMap == freeMap
    {
      cache := new Cache.BufferCache(device);
      this.freeMap := freeMap;
      secs, used, own := device, freeMap.Bits(), map[];
    }

    /** Reading a sector. */
    method Fetch(t: nat) returns (s: Sector)
      requires Backed() && t < |secs|
      modifies cache
      ensures Backed() && s == secs[t]
    {
      cache.IdleIsFree(t);
      s := cache.Load(t);
    }

    // Reading one word of a table.
    method ReadWord(t: nat, k: nat) returns (w: nat)
      requires Backed() && t < |secs| && k < WORDS
      modifies cache
      ensures Backed() && w == WordAt(secs[t], k)
    {
      var s := Fetch(t);
      w := WordAt(s, k);
    }

    /** Writing a sector: the block is changed and marked dirty while it is held. */
    method Replace(t: nat, s: Sector, fromZeros: bool)
      requires Backed() && t < |secs|
      modifies this`secs, cache
      ensures Backed() && secs == old(secs)[t := s]
    {
      cache.IdleIsFree(t);
      cache.Save(t, s, fromZeros);
      secs := secs[t := s];
    }

    /** cache_flush: afterwards the disk itself holds every sector as the files show it. */
    method Sync()
      requires Backed()
      modifies cache
      ensures Backed() && cache.disk == secs
    {
      cache.Flush();
    }

    /** free_map_allocate (1, &sector): the lowest free sector, if there is one. */
    method FreeMapAllocate() returns (ok: bool, r: nat)
      requires Backed()
      modifies this`used, freeMap.elems
      ensures Backed() && (ok <==> FreeSectors(old(used)) > 0)
      ensures ok ==> r == Lowest(old(used)) < |old(used)| && !old(used)[r] && used == old(used)[r := true]
      ensures FreeSectors(used) == old(FreeSectors(used)) - (if ok then 1 else 0) && (!ok ==> used == old(used))
    {
      ok, r := freeMap.Allocate(1);
      if ok {
        FirstFree(used, r);
        used := used[r := true];
      } else {
        NoneFree(used);
      }
    }

    static lemma FirstFree(used: seq<bool>, r: nat)
      requires Bitmap.FirstRun(used, 0, 1, false, r)
      ensures r < |used| && !used[r] && Bitmap.Filled(used, r, 1, true) == used[r := true]
      ensures FreeSectors(used[r := true]) == FreeSectors(used) - 1 && r == Lowest(used)
    {
      OneTaken(used, r);
      forall j | 0 <= j < r ensures used[j] { assert !Bitmap.AllAre(used, j, 1, false); }
      LowestIs(used, r);
    }

    static lemma NoneFree(used: seq<bool>)
      requires forall r: nat :: !Bitmap.AllAre(used, r, 1, false)
      ensures FreeSectors(used) == 0
    {
      if FreeSectors(used) > 0 {
        SomeFree(used);
        var r: nat :| r < |used| && !used[r];
        assert Bitmap.AllAre(used, r, 1, false);
      }
    }

    /** access_indirect_block with write set: a missing table is allocated and emptied.  On a full disk
        nothing changes. */
    method AccessIndirectBlock(indirect: nat) returns (r: nat)
      requires Backed() && Sound(secs, used, own)
      modifies this`secs, this`used, cache, freeMap.elems
      ensures Backed()
      ensures indirect != NONE ==> r == indirect && secs == old(secs) && used == old(used)
      ensures indirect == NONE && FreeSectors(old(used)) > 0 ==>
        && r == Lowest(old(used)) < |old(used)| && !old(used)[r] && used == old(used)[r := true]
        && secs == old(secs)[r := EMPTY_TABLE]
      ensures indirect == NONE && FreeSectors(old(used)) == 0 ==>
        r == NO_SPACE && secs == old(secs) && used == old(used)
    {
      r := indirect;
      if indirect == NONE {
        var ok: bool;
        ok, r := FreeMapAllocate();
        if !ok {
          return NO_SPACE;
        }
        var table := FillTable(ZERO_SECTOR);
        Replace(r, table, true);
      }
    }

    // Puts sector r, which no slot holds, into the empty slot s of inode i: one word of table t.
    method StoreEntry(i: nat, t: nat, s: Slot, r: nat)
      requires Backed() && Sound(secs, used, own) && CanLink(Tabs(secs), own, i, s, r) && used[r]
      requires t == Table(Tabs(secs), i, s)
      modifies this`secs, this`own, cache
      ensures Backed() && Sound(secs, used, own) && Extends(old(secs), old(own), secs, own, i, {s})
      ensures Reach(Tabs(secs), i, s) == r && own == old(own)[r := Ref(i, s)]
    {
      hide Backed;
      LinkStep(secs, used, own, i, s, r);
      var table := Fetch(t);
      Replace(t, WithWord(table, Place(s), r), false);
      own := own[r := Ref(i, s)];
    }

    // The sector in data slot s of inode i, allocated if the slot is empty; t is its table.
    method AccessData(i: nat, t: nat, s: Slot) returns (sector: nat)
      requires Backed() && Sound(secs, used, own) && IsInode(own, i) && s.Valid() && s.IsData()
      requires t == Table(Tabs(secs), i, s) && t < |secs| && |Missing(Tabs(secs), i, {s})| <= FreeSectors(used)
      modifies this, cache, freeMap.elems
      ensures Backed() && Sound(secs, used, own) && IsInode(own, i)
      ensures Extends(old(secs), old(own), secs, own, i, {s})
      ensures sector == Reach(Tabs(secs), i, s) && sector < |secs|
      ensures Filled(old(Tabs(secs)), old(used), Tabs(secs), used, i, {s}, s)
      ensures old(Reach(Tabs(secs), i, s)) != NONE ==> secs == old(secs) && used == old(used) && own == old(own)
    {
      hide Backed, Filled, Extends, Missing;
      TableHeld(Tabs(secs), own, i, s);
      ExtendsReflexive(secs, own, i, {s});
      MissingOne(Tabs(secs), i, s);
      sector := ReadWord(t, Place(s));
      assert Held(Tabs(secs), own, i, s);
      if sector != NONE {
        assert Owned(Tabs(secs), own, sector);
        FilledAlready(Tabs(secs), used, i, s);
      } else {
        var ok: bool;
        ok, sector := FreeMapAllocate();
        TakenSound(secs, old(used), own, sector);
        StoreEntry(i, t, s, sector);
        SlotsNow(old(secs), old(own), secs, own, i, {s});
        FilledNow(old(Tabs(secs)), old(used), Tabs(secs), used, i, s);
      }
    }

    static lemma TakenSound(secs: seq<Sector>, used: seq<bool>, own: Owners, r: nat)
      requires Sound(secs, used, own) && r < |used| && !used[r]
      ensures r !in own && Sound(secs, used[r := true], own)
    {
      forall q | q in own ensures q != r && UsedOk(used[r := true], own, q) { assert UsedOk(used, own, q); }
    }

    // Stores a fresh table, which no slot holds yet, in the empty slot s of inode i.
    method StoreTable(i: nat, t: nat, s: Slot, table: nat, ghost secs0: seq<Sector>, ghost used0: seq<bool>)
      requires Backed() && Sound(secs0, used0, own) && IsInode(own, i) && s.Valid() && s != Self && !s.IsData()
      requires t == Table(Tabs(secs0), i, s) && t < |secs0| && Reach(Tabs(secs0), i, s) == NONE
      requires table < |used0| && !used0[table] && used == used0[table := true] && secs == secs0[table := EMPTY_TABLE]
      modifies this`secs, this`own, cache
      ensures Backed() && Sound(secs, used, own) && Extends(secs0, old(own), secs, own, i, {s})
      ensures Reach(Tabs(secs), i, s) == table
    {
      FreshTable(secs0, used0, own, table);
      assert Table(Tabs(secs), i, s) == t by {
        ParentValid(s);
        TableIsParent(Tabs(secs), i, s);
        TableIsParent(Tabs(secs0), i, s);
      }
      StoreEntry(i, t, s, table);
      FreshTableExtends(secs0, old(own), secs, own, i, {s}, table);
    }

    static lemma ParentValid(s: Slot)
      requires s.Valid()
      ensures Parent(s).Valid()
    {
    }

    // The table in slot s of inode i, allocated, emptied and stored in table t if the slot is
    // empty.
    method AccessTable(i: nat, t: nat, s: Slot) returns (table: nat)
      requires Backed() && Sound(secs, used, own) && IsInode(own, i) && s.Valid() && s != Self
      requires !s.IsData()
      requires t == Table(Tabs(secs), i, s) && t < |secs| && |Missing(Tabs(secs), i, {s})| <= FreeSectors(used)
      modifies this, cache, freeMap.elems
      ensures Backed() && Sound(secs, used, own) && IsInode(own, i)
      ensures Extends(old(secs), old(own), secs, own, i, {s})
      ensures table == Reach(Tabs(secs), i, s) && table < |secs|
      ensures Filled(old(Tabs(secs)), old(used), Tabs(secs), used, i, {s}, s)
      ensures old(Reach(Tabs(secs), i, s)) != NONE ==> secs == old(secs) && used == old(used) && own == old(own)
    {
      hide Backed, Filled, Extends, Missing;
      TableHeld(Tabs(secs), own, i, s);
      ExtendsReflexive(secs, own, i, {s});
      MissingOne(Tabs(secs), i, s);
      var word := ReadWord(t, Place(s));
      assert Held(Tabs(secs), own, i, s);
      if word != NONE {
        assert Owned(Tabs(secs), own, word);
        FilledAlready(Tabs(secs), used, i, s);
      }
      table := AccessIndirectBlock(word);
      if table != word {
        StoreTable(i, t, s, table, old(secs), old(used));
        SlotsNow(old(secs), old(own), secs, own, i, {s});
        FilledNow(old(Tabs(secs)), old(used), Tabs(secs), used, i, s);
      }
    }

    /** byte_to_sector with write set, for block n = pos / BLOCK_SECTOR_SIZE: a hole is filled, with
        the tables on the way that are missing.  Exactly that many sectors leave the free map, the
        lowest ones, and the block gets the last of them.  No other block of any inode gains or
        loses a sector. */
    method ByteToSector(i: nat, n: nat) returns (sector: nat)
      requires Backed() && Sound(secs, used, own) && IsInode(own, i) && n < MAX_BLOCKS
      requires |Missing(Tabs(secs), i, Path(DataSlot(n)))| <= FreeSectors(used)
      modifies this, cache, freeMap.elems
      ensures Backed() && Sound(secs, used, own)
      ensures Extends(old(secs), old(own), secs, own, i, Path(DataSlot(n)))
      ensures sector == Reach(Tabs(secs), i, DataSlot(n)) && sector < |secs|
      ensures Filled(old(Tabs(secs)), old(used), Tabs(secs), used, i, Path(DataSlot(n)), DataSlot(n))
      ensures old(Reach(Tabs(secs), i, DataSlot(n))) != NONE ==>
        secs == old(secs) && used == old(used) && own == old(own)
    {
      sector := AccessSlot(i, DataSlot(n));
    }

    method AccessSlot(i: nat, slot: Slot) returns (sector: nat)
      requires Backed() && Sound(secs, used, own) && IsInode(own, i) && slot.Valid() && slot.IsData()
      requires |Missing(Tabs(secs), i, Path(slot))| <= FreeSectors(used)
      modifies this, cache, freeMap.elems
      ensures Backed() && Sound(secs, used, own) && Extends(old(secs), old(own), secs, own, i, Path(slot))
      ensures sector == Reach(Tabs(secs), i, slot) && sector < |secs|
      ensures Filled(old(Tabs(secs)), old(used), Tabs(secs), used, i, Path(slot), slot)
      ensures old(Reach(Tabs(secs), i, slot)) != NONE ==> secs == old(secs) && used == old(used) && own == old(own)
    {
      assert Owned(Tabs(secs), own, i);
      if slot.Direct? {
        sector := AccessData(i, i, slot);
      } else if slot.IndirectData? {
        sector := LookupIndirectTable(i, slot.k);
      } else {
        sector := LookupDoubleIndirectTable(i, slot.j, slot.k);
      }
    }

    /** lookup_indirect_table with write set. */
    method LookupIndirectTable(i: nat, k: nat) returns (sector: nat)
      requires Backed() && Sound(secs, used, own) && IsInode(own, i) && i < |secs| && k < NUM_INDIRECT
      requires |Missing(Tabs(secs), i, Path(IndirectData(k)))| <= FreeSectors(used)
      modifies this, cache, freeMap.elems
      ensures var goal := IndirectData(k);
        && Backed() && Sound(secs, used, own) && Extends(old(secs), old(own), secs, own, i, Path(goal))
        && sector == Reach(Tabs(secs), i, goal) && sector < |secs|
        && Filled(old(Tabs(secs)), old(used), Tabs(secs), used, i, Path(goal), goal)
        && (old(Reach(Tabs(secs), i, goal)) != NONE ==> secs == old(secs) && used == old(used) && own == old(own))
    {
      hide Backed, Extends, Filled, Index, Missing;
      ghost var goal, p := IndirectData(k), {Indirect};
      assert Path(goal) == p + {goal};
      ghost var ws := Tabs(secs);
      MissingMono(ws, i, p, Path(goal));
      if Reach(ws, i, goal) != NONE { PathFilled(ws, i, goal, Indirect); }
      var indirect := AccessTable(i, i, Indirect);
      ghost var secs1, used1, own1 := secs, used, own;
      FilledCost(ws, old(used), Tabs(secs1), used1, i, p, Indirect, goal);
      sector := AccessData(i, indirect, IndirectData(k));
      ExtendsTransitive(old(secs), old(own), secs1, own1, secs, own, i, p, {goal});
      FilledNext(ws, old(used), Tabs(secs1), used1, Tabs(secs), used, i, p, Indirect, goal);
    }

    // The two tables on the way to DoubleData(j, k).
    method AccessDoubleTables(i: nat, j: nat) returns (indirect: nat)
      requires Backed() && Sound(secs, used, own) && IsInode(own, i) && i < |secs| && j < NUM_INDIRECT
      requires |Missing(Tabs(secs), i, Path(DoubleTable(j)))| <= FreeSectors(used)
      modifies this, cache, freeMap.elems
      ensures var goal := DoubleTable(j);
        && Backed() && Sound(secs, used, own) && IsInode(own, i)
        && Extends(old(secs), old(own), secs, own, i, Path(goal))
        && indirect == Reach(Tabs(secs), i, goal) && indirect < |secs|
        && Filled(old(Tabs(secs)), old(used), Tabs(secs), used, i, Path(goal), goal)
        && (old(Reach(Tabs(secs), i, goal)) != NONE ==> secs == old(secs) && used == old(used) && own == old(own))
    {
      hide Backed, Extends, Filled, Index, Missing;
      ghost var goal, p := DoubleTable(j), {Double};
      assert Path(goal) == p + {goal};
      ghost var ws := Tabs(secs);
      MissingMono(ws, i, p, Path(goal));
      if Reach(ws, i, goal) != NONE { PathFilled(ws, i, goal, Double); }
      var double := AccessTable(i, i, Double);
      ghost var secs1, used1, own1 := secs, used, own;
      FilledCost(ws, old(used), Tabs(secs1), used1, i, p, Double, goal);
      indirect := AccessTable(i, double, DoubleTable(j));
      ExtendsTransitive(old(secs), old(own), secs1, own1, secs, own, i, p, {goal});
      FilledNext(ws, old(used), Tabs(secs1), used1, Tabs(secs), used, i, p, Double, goal);
    }

    /** lookup_double_indirect_table with write set. */
    method LookupDoubleIndirectTable(i: nat, j: nat, k: nat) returns (sector: nat)
      requires Backed() && Sound(secs, used, own) && IsInode(own, i) && i < |secs| && j < NUM_INDIRECT
      requires k < NUM_INDIRECT
      requires |Missing(Tabs(secs), i, Path(DoubleData(j, k)))| <= FreeSectors(used)
      modifies this, cache, freeMap.elems
      ensures var goal := DoubleData(j, k);
        && Backed() && Sound(secs, used, own) && Extends(old(secs), old(own), secs, own, i, Path(goal))
        && sector == Reach(Tabs(secs), i, goal) && sector < |secs|
        && Filled(old(Tabs(secs)), old(used), Tabs(secs), used, i, Path(goal), goal)
        && (old(Reach(Tabs(secs), i, goal)) != NONE ==> secs == old(secs) && used == old(used) && own == old(own))
    {
      hide Backed, Extends, Filled, Index, Missing;
      ghost var goal, p := DoubleData(j, k), Path(DoubleTable(j));
      assert Path(goal) == p + {goal};
      ghost var ws := Tabs(secs);
      MissingMono(ws, i, p, Path(goal));
      if Reach(ws, i, goal) != NONE { PathFilled(ws, i, goal, DoubleTable(j)); }
      var indirect := AccessDoubleTables(i, j);
      ghost var secs1, used1, own1 := secs, used, own;
      FilledCost(ws, old(used), Tabs(secs1), used1, i, p, DoubleTable(j), goal);
      sector := AccessData(i, indirect, DoubleData(j, k));
      ExtendsTransitive(old(secs), old(own), secs1, own1, secs, own, i, p, {goal});
      FilledNext(ws, old(used), Tabs(secs1), used1, Tabs(secs), used, i, p, DoubleTable(j), goal);
    }

    // The entry for slot s in table t, NONE if there is no such table.
    method FindEntry(i: nat, t: nat, s: Slot) returns (sector: nat)
      requires Backed() && Index(Tabs(secs), own) && IsInode(own, i) && s.Valid() && s != Self
      requires t == Table(Tabs(secs), i, s)
      modifies cache
      ensures Backed() && sector == Reach(Tabs(secs), i, s) && (sector == NONE || sector < |secs|)
    {
      hide Backed;
      TableHeld(Tabs(secs), own, i, s);
      assert Held(Tabs(secs), own, i, s);
      if Reach(Tabs(secs), i, s) != NONE { assert Owned(Tabs(secs), own, Reach(Tabs(secs), i, s)); }
      sector := NONE;
      if t != NONE {
        sector := ReadWord(t, Place(s));
      }
    }

    /** byte_to_sector with write clear: the sector of block n, NONE for a hole or past the index. */
    method FindSector(i: nat, n: nat) returns (sector: nat)
      requires Backed() && Index(Tabs(secs), own) && IsInode(own, i)
      modifies cache
      ensures Backed()
      ensures n < MAX_BLOCKS ==> sector == Reach(Tabs(secs), i, DataSlot(n)) && (sector == NONE || sector < |secs|)
      ensures n >= MAX_BLOCKS ==> sector == NONE
    {
      hide Backed, Index;
      if n >= MAX_BLOCKS {
        return NONE;
      }
      var table := i;
      if n >= NUM_DIRECT + NUM_INDIRECT {
        table := FindEntry(i, i, Double);
        table := FindEntry(i, table, DoubleTable((n - NUM_DIRECT - NUM_INDIRECT) / NUM_INDIRECT));
      } else if n >= NUM_DIRECT {
        table := FindEntry(i, i, Indirect);
      }
      sector := FindEntry(i, table, DataSlot(n));
    }

    /** inode_read_at: the bytes of the file from offset on, as far as size and length allow, holes
        reading as zeros. */
    method ReadAt(i: nat, size: int, offset: nat) returns (buf: seq<byte>)
      requires Valid() && IsInode(own, i) && i < |secs|
      modifies cache
      ensures Valid()
      ensures var length := Length(secs, i);
        |buf| == if offset > length || size <= 0 then 0 else if size < length - offset then size else length - offset
      ensures forall k :: 0 <= k < |buf| ==> offset + k < MAX_LENGTH && buf[k] == FileByte(secs, i, offset + k)
    {
      hide Backed, Index, FileByte;
      var length := ReadWord(i, LENGTH);
      assert length <= MAX_LENGTH;
      buf := [];
      if offset > length {
        return;
      }
      var left, pos := size, offset;
      while left > 0
        invariant pos == offset + |buf| && left == size - |buf| && pos <= length
        invariant (if size <= 0 then buf == [] else left >= 0)
        invariant forall k :: 0 <= k < |buf| ==> buf[k] == FileByte(secs, i, offset + k)
        invariant Backed()
        decreases left
      {
        var chunk := ReadChunk(pos, left, length);
        if chunk == 0 {
          break;
        }
        var part := ReadPart(i, pos, chunk);
        buf := buf + part;
        left := left - chunk;
        pos := pos + chunk;
      }
    }

    // One chunk of inode_read_at, from one sector or a hole.
    method ReadPart(i: nat, pos: nat, chunk: nat) returns (part: seq<byte>)
      requires Backed() && Index(Tabs(secs), own) && IsInode(own, i) && pos + chunk <= MAX_LENGTH && chunk > 0
      requires pos % BLOCK_SECTOR_SIZE + chunk <= BLOCK_SECTOR_SIZE
      modifies cache
      ensures Backed()
      ensures |part| == chunk && forall k :: 0 <= k < chunk ==> part[k] == FileByte(secs, i, pos + k)
    {
      hide Reach, DataSlot;
      var sectorIdx := FindSector(i, pos / BLOCK_SECTOR_SIZE);
      var data := ZERO_SECTOR;
      if sectorIdx != NONE {
        data := Fetch(sectorIdx);
      }
      var ofs := pos % BLOCK_SECTOR_SIZE;
      part := data[ofs..ofs + chunk];
      forall k | 0 <= k < chunk ensures part[k] == FileByte(secs, i, pos + k) { SameBlockRange(pos + k, pos, chunk); }
    }

    // min of bytes left in the inode, in the sector and in the request.
    static function ReadChunk(pos: nat, left: int, length: nat): (chunk: nat)
      requires left > 0 && pos <= length
      ensures chunk <= left && pos + chunk <= length && pos % BLOCK_SECTOR_SIZE + chunk <= BLOCK_SECTOR_SIZE
      ensures chunk == 0 <==> pos == length
    {
      var inodeLeft, sectorLeft := length - pos, BLOCK_SECTOR_SIZE - pos % BLOCK_SECTOR_SIZE;
      var minLeft := if inodeLeft < sectorLeft then inodeLeft else sectorLeft;
      if left < minLeft then left else minLeft
    }

    // memcpy of one chunk into a sector; a chunk that fills the sector starts from zeros.
    static function Patch(before: Sector, ofs: nat, data: seq<byte>): (after: Sector)
      requires ofs + |data| <= BLOCK_SECTOR_SIZE
      ensures forall k :: 0 <= k < BLOCK_SECTOR_SIZE ==>
        after[k] == if ofs <= k < ofs + |data| then data[k - ofs] else before[k]
    {
      var base := if ofs == 0 && |data| == BLOCK_SECTOR_SIZE then ZERO_SECTOR else before;
      base[..ofs] + data + base[ofs + |data|..]
    }

    static lemma PatchIsPatched(before: Sector, lo: nat, hi: nat, chunk: nat, buf: seq<byte>)
      requires lo <= hi && hi % BLOCK_SECTOR_SIZE + chunk <= BLOCK_SECTOR_SIZE && hi - lo + chunk <= |buf|
      ensures Patched(before, Patch(before, hi % BLOCK_SECTOR_SIZE, buf[hi - lo..hi - lo + chunk]), lo, hi, chunk, buf)
    {
    }

    // One round of the loop of inode_write_at: the next chunk of the `size` bytes that remain.
    method WriteChunk(i: nat, buf: seq<byte>, lo: nat, hi: nat, size: nat,
                      ghost secs0: seq<Sector>, ghost used0: seq<bool>, ghost own0: Owners) returns (chunk: nat)
      requires Backed() && Writing(secs0, used0, own0, secs, used, own, i, buf, lo, hi, size) && size > 0
      requires |Missing(Tabs(secs), i, Path(DataSlot(hi / BLOCK_SECTOR_SIZE)))| <= FreeSectors(used)
      modifies this, cache, freeMap.elems
      ensures Backed() && chunk == ChunkSize(hi, size)
      ensures Writing(secs0, used0, own0, secs, used, own, i, buf, lo, hi + chunk, size - chunk)
      ensures var s := DataSlot(hi / BLOCK_SECTOR_SIZE);
        Filled(old(Tabs(secs)), old(used), Tabs(secs), used, i, Path(s), s)
    {
      hide Backed, Writing, Filled, Sound, Extends, Patched, Path, Missing, Reach;
      ghost var secsA, usedA, ownA := secs, used, own;
      WritingNow(secs0, used0, own0, secs, used, own, i, buf, lo, hi, size);
      chunk := ChunkSize(hi, size);
      var sector := ByteToSector(i, hi / BLOCK_SECTOR_SIZE);
      var before := Fetch(sector);
      var data := Patch(before, hi % BLOCK_SECTOR_SIZE, buf[hi - lo..hi - lo + chunk]);
      PatchIsPatched(before, lo, hi, chunk, buf);
      WritingRound(secs0, used0, own0, secsA, usedA, ownA, secs, used, own, i, buf, lo, hi, size, sector, data);
      RoundFilled(secsA, usedA, secs, used, own, i, hi, sector, data);
      Replace(sector, data, chunk == BLOCK_SECTOR_SIZE);
    }

    /** inode_write_at.  Reading the bytes back gives what was written; the length grows to the end
        of the write; every other byte of every inode is as ByteOutcome says: unchanged where a
        sector was allocated, still a hole where none is, and in a fresh sector whatever that
        sector held.  The free map loses exactly as many sectors as slots on the way to the blocks
        touched were empty, the lowest free ones, and each hole gets the one that Given names. */
    method WriteAt(i: nat, buf: seq<byte>, offset: nat, denyWriteCnt: nat) returns (w: nat)
      requires Valid() && IsInode(own, i) && offset + |buf| <= MAX_LENGTH
      requires denyWriteCnt == 0 ==> Demand(Tabs(secs), i, RangeSlots(offset, |buf|)) <= FreeSectors(used)
      modifies this, cache, freeMap.elems
      ensures Valid() && |secs| == old(|secs|) && IsInode(own, i) && i < |secs|
      ensures w == if denyWriteCnt > 0 then 0 else |buf|
      ensures denyWriteCnt > 0 ==> secs == old(secs) && used == old(used) && own == old(own)
      ensures denyWriteCnt == 0 ==>
        && Outcome(old(secs), old(own), secs, i, offset, offset + w, buf)
        && Spent(old(Tabs(secs)), old(used), Tabs(secs), used, i, RangeSlots(offset, |buf|))
        && (forall j: nat :: IsInode(old(own), j) && j < |secs| ==>
              Length(secs, j) ==
                if j == i && Length(old(secs), j) < offset + w then offset + w else Length(old(secs), j))
        && (forall j: nat :: IsInode(old(own), j) && j < |secs| ==> Kind(secs, j) == Kind(old(secs), j))
      ensures forall j :: IsInode(own, j) <==> IsInode(old(own), j)
    {
      hide Inv, Writing, Outcome, Spent, Demand, RangeSlots;
      InodeInRange(secs, used, own, i);
      if denyWriteCnt > 0 {
        return 0;
      }
      WriteLoop(i, buf, offset);
      WritingInodes(old(secs), old(used), old(own), secs, used, own, i, buf, offset, offset + |buf|);
      ghost var ws1 := Tabs(secs);
      SetLength(i, offset, offset + |buf|, buf, old(secs), old(used), old(own));
      SpentSame(old(Tabs(secs)), old(used), ws1, used, Tabs(secs), i, RangeSlots(offset, |buf|));
      w := |buf|;
    }

    // The loop of inode_write_at.
    method WriteLoop(i: nat, buf: seq<byte>, offset: nat)
      requires Valid() && IsInode(own, i) && offset + |buf| <= MAX_LENGTH
      requires Demand(Tabs(secs), i, RangeSlots(offset, |buf|)) <= FreeSectors(used)
      modifies this, cache, freeMap.elems
      ensures Backed()
      ensures Writing(old(secs), old(used), old(own), secs, used, own, i, buf, offset, offset + |buf|, 0)
      ensures Spent(old(Tabs(secs)), old(used), Tabs(secs), used, i, RangeSlots(offset, |buf|))
    {
      hide Backed, Writing, Paying, Spent, Filled, Missing, Path, DataSlot;
      var hi: nat, size: nat := offset, |buf|;
      ghost var ws0, used0, all := Tabs(secs), used, RangeSlots(offset, |buf|);
      ghost var k: nat := 0;
      WritingStart(secs, used, own, i, buf, offset);
      PayingStart(ws0, used, i, offset, |buf|);
      while size > 0
        invariant Backed() && Writing(old(secs), old(used), old(own), secs, used, own, i, buf, offset, hi, size)
        invariant Paying(ws0, used0, Tabs(secs), used, i, all, k, hi, size)
        decreases size
      {
        ghost var ws, usedA := Tabs(secs), used;
        PayingNow(ws0, used0, ws, usedA, i, all, k, hi, size);
        var chunk := WriteChunk(i, buf, offset, hi, size, old(secs), old(used), old(own));
        PayingNext(ws0, used0, ws, usedA, Tabs(secs), used, i, all, k, hi, size, DataSlot(hi / BLOCK_SECTOR_SIZE));
        size := size - chunk;
        hi := hi + chunk;
        k := k + 1;
      }
      PayingEnd(ws0, used0, Tabs(secs), used, i, all, k, hi);
      WritingEnd(old(secs), old(used), old(own), secs, used, own, i, buf, offset, hi);
    }

    // The end of inode_write_at.
    method SetLength(i: nat, ghost lo: nat, hi: nat, ghost buf: seq<byte>,
                     ghost secs0: seq<Sector>, ghost used0: seq<bool>, ghost own0: Owners)
      requires Backed() && Writing(secs0, used0, own0, secs, used, own, i, buf, lo, hi, 0) && i < |secs|
      modifies this`secs, cache
      ensures Valid() && |secs| == |secs0| && Outcome(secs0, own0, secs, i, lo, hi, buf)
      ensures forall j: nat :: IsInode(own0, j) && j < |secs| ==>
        Length(secs, j) == if j == i && Length(secs0, j) < hi then hi else Length(secs0, j)
      ensures forall j: nat :: IsInode(own0, j) && j < |secs| ==> Kind(secs, j) == Kind(secs0, j)
      ensures forall u: Slot {:trigger Reach(Tabs(secs), i, u)} :: u.Valid() ==>
        Reach(Tabs(secs), i, u) == old(Reach(Tabs(secs), i, u))
    {
      var s := Fetch(i);
      if WordAt(s, LENGTH) < hi {
        LengthUpdated(secs0, own0, secs, used, own, i, lo, hi, buf);
        LengthWrite(secs, used, own, i, hi);
        Replace(i, WithWord(s, LENGTH, hi), false);
      } else {
        LengthEnough(secs, own, i, hi);
      }
    }

    // The words that inode_create writes into the zeroed sector.
    method BlankSector(length: nat, isDir: nat) returns (s: Sector)
      requires length <= MAX_LENGTH && isDir <= 1
      ensures BlankInode(s, length) && WordAt(s, IS_DIR) == isDir
    {
      s := ZERO_SECTOR;
      var k := DIRECT;
      while k < WORDS
        invariant DIRECT <= k <= WORDS
        invariant forall m :: DIRECT <= m < k ==> WordAt(s, m) == NONE
      {
        forall m | 0 <= m < WORDS ensures WordAt(WithWord(s, k, NONE), m) == if m == k then NONE else WordAt(s, m) {
          WordRoundTrip(s, k, NONE, m);
        }
        s := WithWord(s, k, NONE);
        k := k + 1;
      }
      forall m | 0 <= m < WORDS
        ensures WordAt(WithWord(WithWord(s, LENGTH, length), IS_DIR, isDir), m)
             == if m == LENGTH then length else if m == IS_DIR then isDir else WordAt(s, m)
      {
        WordRoundTrip(s, LENGTH, length, m);
        WordRoundTrip(WithWord(s, LENGTH, length), IS_DIR, isDir, m);
      }
      s := WithWord(WithWord(s, LENGTH, length), IS_DIR, isDir);
    }

    // inode_create up to the first write: an inode with every slot empty.
    method CreateBlank(sector: nat, length: nat, isDir: nat)
      requires Valid() && sector < |secs| && used[sector] && sector !in own && length <= MAX_LENGTH && isDir <= 1
      modifies this`secs, this`own, cache
      ensures Valid() && |secs| == old(|secs|) && own == old(own)[sector := Ref(sector, Self)]
      ensures Length(secs, sector) == length && Kind(secs, sector) == isDir
      ensures AllHoles(Tabs(secs), sector)
      ensures forall j, pos {:trigger FileByte(secs, j, pos)} :: IsInode(old(own), j) && 0 <= pos < MAX_LENGTH ==>
        FileByte(secs, j, pos) == FileByte(old(secs), j, pos)
      ensures forall q :: 0 <= q < |secs| && q != sector ==> secs[q] == old(secs)[q]
    {
      var s := BlankSector(length, isDir);
      BlankInodeAdded(secs, used, own, sector, s, length);
      Replace(sector, s, true);
      own := own[sector := Ref(sector, Self)];
    }

    /** inode_create, on a sector that the caller has allocated.  Other files are untouched.  A byte
        of the new file is zero unless it shares the last block with byte length - 1; there it is
        whatever the sector held that the block was given, which the free map before the call
        determines: the first, second or third lowest free sector. */
    method Create(sector: nat, length: nat, isDir: nat)
      requires Valid() && sector < |secs| && used[sector] && sector !in own && length <= MAX_LENGTH && isDir <= 1
      requires length > 0 ==> |Path(LastSlot(length))| <= FreeSectors(used)
      modifies this, cache, freeMap.elems
      ensures Valid() && |secs| == old(|secs|)
      ensures forall j :: IsInode(own, j) <==> IsInode(old(own), j) || j == sector
      ensures Length(secs, sector) == length && Kind(secs, sector) == isDir
      ensures forall j: nat :: IsInode(old(own), j) && j < |secs| ==> SameHead(old(secs), secs, j)
      ensures used == if length == 0 then old(used) else Taken(old(used), |Path(LastSlot(length))|)
      ensures forall j, pos {:trigger FileByte(secs, j, pos)} :: IsInode(old(own), j) && 0 <= pos < MAX_LENGTH ==>
        FileByte(secs, j, pos) == FileByte(old(secs), j, pos)
      ensures NewBytes(old(secs), old(used), secs, sector, length)
      ensures (forall pos :: 0 <= pos < length ==> FileByte(secs, sector, pos) == 0)
         <==> StaleFree(old(secs), old(used), length)
    {
      hide Backed, Index, Within, Outcome, Spent, Demand, RangeSlots, FileByte, NewByte, StaleFree, Taken;
      CreateBlank(sector, length, isDir);
      ghost var secs1, own1 := secs, own;
      if length > 0 {
        BlankDemand(Tabs(secs), sector, length);
        var w := WriteAt(sector, [0], length - 1, 0);
        CreatedSpent(Tabs(secs1), old(used), Tabs(secs), used, sector, length);
        CreatedBytes(old(secs), old(used), old(own), secs1, own1, secs, sector, length);
      } else {
        BlankBytes(old(secs), old(used), secs, sector);
      }
      NewFileReadsZero(old(secs), old(used), secs, sector, length);
    }

    /** free_map_release (sector, 1): the assertion that the sector is in use is a precondition. */
    method FreeMapRelease(sector: nat)
      requires Backed() && sector < |used| && used[sector]
      modifies this`used, freeMap.elems
      ensures Backed() && used == old(used)[sector := false]
    {
      freeMap.Release(sector, 1);
      used := used[sector := false];
    }

    /** The last inode_close of a removed inode: it releases exactly the sectors of that inode, each
        of them once and while it is in use, and leaves every other file as it was. */
    method CloseRemoved(i: nat)
      requires Valid() && IsInode(own, i) && i < |secs|
      modifies this`used, this`own, cache, freeMap.elems
      ensures Valid() && own == Others(old(own), i)
      ensures Freed(old(used), used, SectorsOf(old(own), i))
    {
      hide Backed;
      ghost var ws := Tabs(secs);
      var length := ReadWord(i, LENGTH);
      var n := 0;
      while n * BLOCK_SECTOR_SIZE < length
        invariant Backed() && own == old(own) && Freed(old(used), used, DataBelow(own, i, n))
        decreases length - n * BLOCK_SECTOR_SIZE
      {
        var sector := FindSector(i, n);
        DataStep(ws, own, i, n);
        ReleaseSlot(i, DataSlot(n), sector, DataBelow(own, i, n), old(used));
        n := n + 1;
      }
      CloseTables(i, DataBelow(own, i, n), old(used));
      AllSectors(secs, old(used), own, i, n);
      RemovedInv(secs, old(used), used, own, i);
      own := Others(own, i);
    }

    // free_map_release of the sector in a slot of inode i, if the slot holds one.
    method ReleaseSlot(i: nat, ghost s: Slot, sector: nat, ghost gone: set<nat>, ghost used0: seq<bool>)
      requires Backed() && Sound(secs, used0, own) && IsInode(own, i) && s.Valid() && sector == Reach(Tabs(secs), i, s)
      requires Freed(used0, used, gone) && gone !! InSlot(Tabs(secs), i, s)
      modifies this`used, freeMap.elems
      ensures Backed() && Freed(used0, used, gone + InSlot(Tabs(secs), i, s))
    {
      InSlotIs(Tabs(secs), own, i, s);
      if sector != NONE {
        assert UsedOk(used0, own, sector);
        FreeMapRelease(sector);
      }
    }

    // inode_close after the data blocks: the tables, then the inode.
    method CloseTables(i: nat, ghost gone: set<nat>, ghost used0: seq<bool>)
      requires Backed() && Sound(secs, used0, own) && IsInode(own, i) && i < |secs| && Freed(used0, used, gone)
      requires forall r :: r in gone ==> r in own && own[r].slot.IsData()
      modifies this`used, cache, freeMap.elems
      ensures var ws := Tabs(secs);
        && Backed()
        && Freed(used0, used, gone + InSlot(ws, i, Indirect) + TablesBelow(own, i, NUM_INDIRECT)
                              + InSlot(ws, i, Double) + {i})
    {
      hide Backed;
      ghost var ws := Tabs(secs);
      InSlotIs(ws, own, i, Indirect);
      InSlotIs(ws, own, i, Double);
      assert Owned(ws, own, i);
      var indirect := ReadWord(i, INDIRECT);
      ReleaseSlot(i, Indirect, indirect, gone, used0);
      ghost var now := gone + InSlot(ws, i, Indirect);
      var double := ReadWord(i, DOUBLE);
      if double != NONE {
        CloseDouble(i, double, now, used0);
        ReleaseSlot(i, Double, double, now + TablesBelow(own, i, NUM_INDIRECT), used0);
      } else {
        NoTables(ws, own, i);
      }
      assert UsedOk(used0, own, i);
      FreeMapRelease(i);
    }

    // The loop over the doubly indirect table in inode_close.
    method CloseDouble(i: nat, double: nat, ghost now: set<nat>, ghost used0: seq<bool>)
      requires Backed() && Sound(secs, used0, own) && IsInode(own, i) && Freed(used0, used, now)
      requires double == Reach(Tabs(secs), i, Double) && double != NONE
      requires forall r :: r in now ==> r in own && !own[r].slot.DoubleTable?
      modifies this`used, cache, freeMap.elems
      ensures Backed() && Freed(used0, used, now + TablesBelow(own, i, NUM_INDIRECT))
    {
      hide Backed;
      ghost var ws := Tabs(secs);
      assert Held(ws, own, i, Double) && Owned(ws, own, double);
      var k := 0;
      while k < NUM_INDIRECT
        invariant 0 <= k <= NUM_INDIRECT
        invariant Backed() && Freed(used0, used, now + TablesBelow(own, i, k))
      {
        TableStep(ws, own, i, k);
        InSlotIs(ws, own, i, DoubleTable(k));
        var table := ReadWord(double, k);
        ReleaseSlot(i, DoubleTable(k), table, now + TablesBelow(own, i, k), used0);
        assert now + TablesBelow(own, i, k + 1) == now + TablesBelow(own, i, k) + InSlot(ws, i, DoubleTable(k));
        k := k + 1;
      }
    }

    static lemma NoTables(ws: Tables, own: Owners, i: nat)
      requires Index(ws, own) && IsInode(own, i) && Reach(ws, i, Double) == NONE
      ensures TablesBelow(own, i, NUM_INDIRECT) == {}
    {
      forall r | r in own && own[r].inode == i ensures !own[r].slot.DoubleTable? { assert Owned(ws, own, r); }
    }

    /** inode_close: only the last close of a removed inode touches the free map. */
    method Close(h: OpenInode)
      requires Valid() && h.openCnt > 0 && IsInode(own, h.sector) && h.sector < |secs|
      modifies this`used, this`own, h`openCnt, cache, freeMap.elems
      ensures Valid() && h.openCnt == old(h.openCnt) - 1
      ensures if h.openCnt == 0 && h.removed
              then own == Others(old(own), h.sector) && Freed(old(used), used, SectorsOf(old(own), h.sector))
              else own == old(own) && used == old(used)
    {
      h.openCnt := h.openCnt - 1;
      if h.openCnt == 0 && h.removed {
        CloseRemoved(h.sector);
      }
    }

    /** Reading back the bytes of a write that nothing denies. */
    method WriteAndReadBack(i: nat, buf: seq<byte>, offset: nat) returns (back: seq<byte>)
      requires Valid() && IsInode(own, i) && offset + |buf| <= MAX_LENGTH
      requires Demand(Tabs(secs), i, RangeSlots(offset, |buf|)) <= FreeSectors(used)
      modifies this, cache, freeMap.elems
      ensures Valid() && back == buf
    {
      var w := WriteAt(i, buf, offset, 0);
      ghost var own0 := old(own);
      assert IsInode(own0, i);
      back := ReadAt(i, |buf|, offset);
      forall k | 0 <= k < |buf| ensures back[k] == buf[k] {
        assert ByteOutcome(old(secs), old(own), secs, i, offset, offset + w, buf, i, offset + k);
      }
    }
  }

  // struct inode: one open file.
  class OpenInode {
    var sector: nat
    var openCnt: nat
    var removed: bool
  }

  /** A device on which a new file does not read as zeros: two sectors, the second of them free and
      full of sevens, and a file of two bytes created in the first. */
  method StaleByteShows() returns (device: seq<Sector>, buf: seq<byte>)
    ensures |device| == 2 && !StaleFree(device, [true, false], 2)
    ensures buf == [7, 0]
  {
    hide FileSystem.Backed, Inv, NewBytes, StaleFree, FileByte, Taken, Path, LastSlot;
    device := [ZERO_SECTOR, seq(BLOCK_SECTOR_SIZE, _ => 7)];
    var freeMap := SecondFree();
    var fs := new FileSystem(device, freeMap);
    TwoSectors();
    fs.Create(0, 2, 0);
    StaleBytes(device, fs.secs);
    buf := fs.ReadAt(0, 2, 0);
  }

  method SecondFree() returns (m: Bitmap.BitArray)
    ensures m.Valid() && fresh(m.elems) && m.bitCnt == 2 && m.Bits() == [true, false]
  {
    m := new Bitmap.BitArray(2);
    m.Set(0, true);
  }

  lemma StaleBytes(device: seq<Sector>, secs: seq<Sector>)
    requires |device| == 2 && device[1][0] == 7 && |Path(LastSlot(2))| <= FreeSectors([true, false])
    requires NewBytes(device, [true, false], secs, 0, 2)
    ensures !StaleFree(device, [true, false], 2) && FileByte(secs, 0, 0) == 7 && FileByte(secs, 0, 1) == 0
  {
    TwoSectors();
    assert NewByte(device, [true, false], secs, 0, 2, 0) && NewByte(device, [true, false], secs, 0, 2, 1);
  }

  lemma TwoSectors()
    ensures LastSlot(2) == Direct(0) && Path(LastSlot(2)) == {Direct(0)}
    ensures FreeSectors([true, false]) == 1 && NewSector([true, false], 2) == 1
  {
    var used := [true, false];
    assert used[..1] == [true] && [true][..0] == [];
    LowestIs(used, 1);
    TakenOne(used);
  }
}
