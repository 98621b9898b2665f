/** The write-back buffer cache of src/filesys/cache.c as a refinement of a plain array of sectors.

    Each call is one step: what happens when misses interleave is not part of this model. */
module Cache {
  import opened Bytes
  import opened Disk
  import opened Sequences
  import opened LruOrder

  // block_init: no sector has this number.
  const NO_SECTOR: nat := 0xFFFF_FFFF

  datatype Mode = Unlocked | ReadLocked | WriteLocked

  // struct cache_block with its read-write lock: how many readers and writers hold it.
  datatype Block = Block(sector: nat, dirty: bool, valid: bool, data: Sector,
                         readers: nat, writers: nat, mode: Mode)
  {
    predicate Pinned() { readers > 0 || writers > 0 }
  }

  // ---------------------------------------------------------------------------------------
  // Representation invariant, over the pool of blocks and the two lists of pool indices.

  // cached plus free blocks are the whole pool, each on one list.
  ghost predicate Partition(buffer: seq<nat>, free: seq<nat>) {
    && Distinct(buffer) && Distinct(free) && |buffer| + |free| == MAX_CACHE_SIZE
    && (forall b :: b in buffer ==> b < MAX_CACHE_SIZE && b !in free)
    && (forall b :: b in free ==> b < MAX_CACHE_SIZE)
    && (forall i :: 0 <= i < |buffer| ==> buffer[i] < MAX_CACHE_SIZE)
  }

  // A cached block: a real sector, dirty only if valid, and equal to the disk when valid and
  // clean, unless a writer that has yet to mark it dirty holds it.
  ghost predicate CachedOk(b: Block, disk: seq<Sector>) {
    && b.sector < |disk| && b.sector < NO_SECTOR
    && (b.dirty ==> b.valid)
    && (b.valid && !b.dirty && b.writers == 0 ==> b.data == disk[b.sector])
    && b.writers <= 1 && (b.writers > 0 ==> b.readers == 0 && b.mode == WriteLocked)
    && (b.readers > 0 ==> b.mode == ReadLocked)
  }

  ghost predicate FreeOk(b: Block) {
    !b.dirty && !b.valid && !b.Pinned()
  }

  ghost predicate NoSectorTwice(blocks: seq<Block>, buffer: seq<nat>) {
    forall b, c :: b in buffer && c in buffer && b < |blocks| && c < |blocks| && b != c ==>
      blocks[b].sector != blocks[c].sector
  }

  ghost predicate Inv(blocks: seq<Block>, buffer: seq<nat>, free: seq<nat>, disk: seq<Sector>) {
    && |blocks| == MAX_CACHE_SIZE && Partition(buffer, free)
    && (forall b :: b in buffer ==> CachedOk(blocks[b], disk))
    && (forall b :: b in free ==> FreeOk(blocks[b]))
    && NoSectorTwice(blocks, buffer)
  }

  // ---------------------------------------------------------------------------------------
  // The array of sectors that the cache stands for.

  ghost predicate Holds(blocks: seq<Block>, buffer: seq<nat>, b: nat, s: int) {
    b in buffer && b < |blocks| && blocks[b].sector == s && blocks[b].valid
  }

  /** The contents of sector s: the valid cached copy if there is one, else the disk. */
  ghost function Content(blocks: seq<Block>, buffer: seq<nat>, disk: seq<Sector>, s: int): Sector
    requires 0 <= s < |disk|
  {
    if exists b: nat :: Holds(blocks, buffer, b, s) then
      var b: nat :| Holds(blocks, buffer, b, s); blocks[b].data
    else disk[s]
  }

  ghost function View(blocks: seq<Block>, buffer: seq<nat>, disk: seq<Sector>): seq<Sector> {
    seq(|disk|, s requires 0 <= s < |disk| => Content(blocks, buffer, disk, s))
  }

  lemma ContentCached(blocks: seq<Block>, buffer: seq<nat>, free: seq<nat>, disk: seq<Sector>, b: nat)
    requires Inv(blocks, buffer, free, disk) && b in buffer
    ensures blocks[b].sector < |disk|
    ensures Content(blocks, buffer, disk, blocks[b].sector)
         == if blocks[b].valid then blocks[b].data else disk[blocks[b].sector]
  {
    var s := blocks[b].sector;
    forall c | Holds(blocks, buffer, c, s) ensures c == b {  }
    if blocks[b].valid { assert Holds(blocks, buffer, b, s); }
  }

  lemma ContentUncached(blocks: seq<Block>, buffer: seq<nat>, disk: seq<Sector>, s: nat)
    requires s < |disk| && forall b :: b in buffer ==> b < |blocks| && blocks[b].sector != s
    ensures Content(blocks, buffer, disk, s) == disk[s]
  {
  }

  // Replacing one cached block by one for the same sector changes at most that sector.
  lemma Updated(blocks: seq<Block>, buffer: seq<nat>, free: seq<nat>, disk: seq<Sector>, b: nat, nb: Block)
    requires Inv(blocks, buffer, free, disk) && b in buffer
    requires nb.sector == blocks[b].sector && CachedOk(nb, disk)
    ensures Inv(blocks[b := nb], buffer, free, disk)
    ensures nb.sector < |disk|
    ensures View(blocks[b := nb], buffer, disk)
         == View(blocks, buffer, disk)[nb.sector := if nb.valid then nb.data else disk[nb.sector]]
  {
    var blocks' := blocks[b := nb];
    assert Inv(blocks', buffer, free, disk);
    ContentCached(blocks', buffer, free, disk, b);
    forall s | 0 <= s < |disk| && s != nb.sector
      ensures Content(blocks', buffer, disk, s) == Content(blocks, buffer, disk, s)
    {
      ContentSame(blocks, blocks', buffer, free, disk, disk, s);
    }
  }

  // A sector whose cached copies are the same in both states, and likewise its disk copy, has
  // the same contents.
  lemma ContentSame(blocks: seq<Block>, blocks': seq<Block>, buffer: seq<nat>, free: seq<nat>,
                    disk: seq<Sector>, disk': seq<Sector>, s: nat)
    requires Inv(blocks, buffer, free, disk) && |blocks'| == |blocks| && s < |disk| == |disk'| && disk'[s] == disk[s]
    requires forall b :: b in buffer && (blocks[b].sector == s || blocks'[b].sector == s) ==> blocks'[b] == blocks[b]
    ensures Content(blocks', buffer, disk', s) == Content(blocks, buffer, disk, s)
  {
    if exists b :: Holds(blocks, buffer, b, s) {
      var b :| Holds(blocks, buffer, b, s);
      assert Holds(blocks', buffer, b, s);
      forall c | Holds(blocks', buffer, c, s) ensures c == b {  }
      forall c | Holds(blocks, buffer, c, s) ensures c == b {  }
    } else {
      forall c ensures !Holds(blocks', buffer, c, s) { assert !Holds(blocks, buffer, c, s); }
    }
  }

  // ---------------------------------------------------------------------------------------
  // The lists.

  /** The cached sectors in the order of the list. */
  ghost function Names(blocks: seq<Block>, buffer: seq<nat>): (r: seq<nat>)
    ensures |r| == |buffer|
  {
    seq(|buffer|, k requires 0 <= k < |buffer| => if buffer[k] < |blocks| then blocks[buffer[k]].sector else NO_SECTOR)
  }

  // The sectors whose blocks somebody holds.
  ghost function HeldSectors(blocks: seq<Block>, buffer: seq<nat>): set<nat> {
    set b | b in buffer && b < |blocks| && blocks[b].Pinned() :: blocks[b].sector
  }

  lemma NamesDistinct(blocks: seq<Block>, buffer: seq<nat>, free: seq<nat>, disk: seq<Sector>)
    requires Inv(blocks, buffer, free, disk)
    ensures Distinct(Names(blocks, buffer))
  {
    forall i, j | 0 <= i < j < |buffer| ensures Names(blocks, buffer)[i] != Names(blocks, buffer)[j] {
      assert buffer[i] in buffer && buffer[j] in buffer;
    }
  }

  // Block b at the front, taken from place k of the list.
  lemma FrontNames(blocks: seq<Block>, buffer: seq<nat>, k: nat, s: nat)
    requires k < |buffer| && Distinct(buffer) && (forall b :: b in buffer ==> b < |blocks|)
    ensures buffer[k] in buffer
    ensures Names(blocks[buffer[k] := blocks[buffer[k]].(sector := s, valid := false, dirty := false)],
                  [buffer[k]] + RemoveAt(buffer, k))
         == [s] + RemoveAt(Names(blocks, buffer), k)
    ensures blocks[buffer[k]].sector == s ==>
      Names(blocks, [buffer[k]] + RemoveAt(buffer, k)) == [s] + RemoveAt(Names(blocks, buffer), k)
  {
    assert buffer[k] in buffer;
    var rest := RemoveAt(buffer, k);
    forall i | 0 <= i < |rest| ensures rest[i] == buffer[if i < k then i else i + 1] && rest[i] in buffer { }
  }

  lemma HitOrder(blocks: seq<Block>, buffer: seq<nat>, free: seq<nat>, disk: seq<Sector>, k: nat, s: nat)
    requires Inv(blocks, buffer, free, disk) && k < |buffer| && blocks[buffer[k]].sector == s
    ensures Names(blocks, [buffer[k]] + RemoveAt(buffer, k))
         == Requested(Names(blocks, buffer), HeldSectors(blocks, buffer), s)
  {
    var names := Names(blocks, buffer);
    NamesDistinct(blocks, buffer, free, disk);
    FrontNames(blocks, buffer, k, s);
    assert names[k] == s && names[Position(names, s)] == s;
  }

  lemma NotNamed(blocks: seq<Block>, buffer: seq<nat>, s: nat)
    requires Uncached(blocks, buffer, s)
    ensures s !in Names(blocks, buffer)
  {
    forall k | 0 <= k < |buffer| ensures Names(blocks, buffer)[k] != s { assert buffer[k] in buffer; }
  }

  // A sector is held exactly if the block at its place is.
  lemma HeldAt(blocks: seq<Block>, buffer: seq<nat>, free: seq<nat>, disk: seq<Sector>, k: nat)
    requires Inv(blocks, buffer, free, disk) && k < |buffer|
    ensures Names(blocks, buffer)[k] in HeldSectors(blocks, buffer) <==> blocks[buffer[k]].Pinned()
  {
    assert buffer[k] in buffer;
  }

  lemma EvictOrder(blocks: seq<Block>, buffer: seq<nat>, free: seq<nat>, disk: seq<Sector>, k: nat, s: nat)
    requires Inv(blocks, buffer, free, disk) && k < |buffer| && !blocks[buffer[k]].Pinned() && |free| == 0
    requires (forall i :: k < i < |buffer| ==> blocks[buffer[i]].Pinned()) && Uncached(blocks, buffer, s)
    ensures buffer[k] in buffer
    ensures Names(blocks[buffer[k] := blocks[buffer[k]].(sector := s, valid := false, dirty := false)],
                  [buffer[k]] + RemoveAt(buffer, k))
         == Requested(Names(blocks, buffer), HeldSectors(blocks, buffer), s)
  {
    var names, held := Names(blocks, buffer), HeldSectors(blocks, buffer);
    FrontNames(blocks, buffer, k, s);
    NotNamed(blocks, buffer, s);
    forall i | k <= i < |buffer| ensures names[i] in held <==> i != k { HeldAt(blocks, buffer, free, disk, i); }
    var last := LastUnheld(names, held);
    assert k <= last by { assert names[k] !in held; }
    assert last == k by { assert names[last] !in held; }
  }

  lemma AdoptOrder(blocks: seq<Block>, buffer: seq<nat>, free: seq<nat>, disk: seq<Sector>, s: nat)
    requires Inv(blocks, buffer, free, disk) && |free| > 0 && Uncached(blocks, buffer, s)
    ensures free[0] in free
    ensures Names(blocks[free[0] := blocks[free[0]].(sector := s)], [free[0]] + buffer)
         == Requested(Names(blocks, buffer), HeldSectors(blocks, buffer), s)
  {
    assert free[0] in free;
    NotNamed(blocks, buffer, s);
    forall k | 0 <= k < |buffer| ensures buffer[k] != free[0] { assert buffer[k] in buffer; }
  }

  // Moving a cached block to the front of the list.
  lemma MovedToFront(blocks: seq<Block>, buffer: seq<nat>, free: seq<nat>, disk: seq<Sector>, k: nat)
    requires Inv(blocks, buffer, free, disk) && k < |buffer|
    ensures var buffer' := [buffer[k]] + RemoveAt(buffer, k);
      Inv(blocks, buffer', free, disk) && View(blocks, buffer', disk) == View(blocks, buffer, disk)
  {
    RemoveAtDistinct(buffer, k);
    var buffer' := [buffer[k]] + RemoveAt(buffer, k);
    assert forall b :: b in buffer' <==> b in buffer;
    assert Inv(blocks, buffer', free, disk);
    ReorderedView(blocks, buffer, buffer', free, disk);
  }

  lemma ReorderedView(blocks: seq<Block>, buffer: seq<nat>, buffer': seq<nat>, free: seq<nat>, disk: seq<Sector>)
    requires Inv(blocks, buffer, free, disk) && forall b :: b in buffer' <==> b in buffer
    ensures View(blocks, buffer', disk) == View(blocks, buffer, disk)
  {
    forall s | 0 <= s < |disk|
      ensures Content(blocks, buffer', disk, s) == Content(blocks, buffer, disk, s)
    {
      assert forall b :: Holds(blocks, buffer', b, s) <==> Holds(blocks, buffer, b, s);
      if exists b :: Holds(blocks, buffer, b, s) {
        var b :| Holds(blocks, buffer, b, s);
        assert forall c :: Holds(blocks, buffer, c, s) ==> c == b;
      }
    }
  }

  // ---------------------------------------------------------------------------------------
  // Misses.

  ghost predicate Uncached(blocks: seq<Block>, buffer: seq<nat>, s: nat) {
    forall b :: b in buffer ==> b < |blocks| && blocks[b].sector != s
  }

  function WrittenBack(b: Block, disk: seq<Sector>): (r: seq<Sector>)
    requires b.sector < |disk|
  {
    if b.dirty then disk[b.sector := b.data] else disk
  }

  /** evict_LRU_block: the victim is written back if dirty and takes over sector s. */
  lemma Evicted(blocks: seq<Block>, buffer: seq<nat>, free: seq<nat>, disk: seq<Sector>, v: nat, s: nat)
    requires Inv(blocks, buffer, free, disk) && v in buffer && !blocks[v].Pinned()
    requires Uncached(blocks, buffer, s) && s < |disk| && s < NO_SECTOR
    ensures var blocks', disk' := blocks[v := blocks[v].(sector := s, valid := false, dirty := false)],
        WrittenBack(blocks[v], disk);
      Inv(blocks', buffer, free, disk') && View(blocks', buffer, disk') == View(blocks, buffer, disk)
  {
    var blocks', disk' := blocks[v := blocks[v].(sector := s, valid := false, dirty := false)],
        WrittenBack(blocks[v], disk);
    var vs := blocks[v].sector;
    assert Inv(blocks', buffer, free, disk');
    forall t | 0 <= t < |disk|
      ensures Content(blocks', buffer, disk', t) == Content(blocks, buffer, disk, t)
    {
      if t == vs {
        ContentCached(blocks, buffer, free, disk, v);
        ContentUncached(blocks', buffer, disk', t);
      } else if t == s {
        ContentUncached(blocks, buffer, disk, t);
        ContentCached(blocks', buffer, free, disk', v);
      } else {
        ContentSame(blocks, blocks', buffer, free, disk, disk', t);
      }
    }
  }

  /** A block that nobody holds gets other data and is evicted.  If it was dirty or is marked so, its
      sector has the new data from then on; if not, the change is lost. */
  lemma ChangedThenEvicted(blocks: seq<Block>, buffer: seq<nat>, free: seq<nat>, disk: seq<Sector>,
                           v: nat, data: Sector, marked: bool, s: nat)
    requires Inv(blocks, buffer, free, disk) && v in buffer && !blocks[v].Pinned()
    requires blocks[v].valid
    requires Uncached(blocks, buffer, s) && s < |disk| && s < NO_SECTOR
    ensures blocks[v].sector < |disk|
    ensures var changed := blocks[v].(data := data, dirty := blocks[v].dirty || marked);
      var evicted := changed.(sector := s, valid := false, dirty := false);
      && View(blocks[v := changed], buffer, disk) == View(blocks, buffer, disk)[changed.sector := data]
      && View(blocks[v := evicted], buffer, WrittenBack(changed, disk))
         == if changed.dirty then View(blocks, buffer, disk)[changed.sector := data] else View(blocks, buffer, disk)
  {
    hide View, NoSectorTwice, Partition;
    var changed := blocks[v].(data := data, dirty := blocks[v].dirty || marked);
    var evicted := changed.(sector := s, valid := false, dirty := false);
    var held := changed.(writers := 1, mode := WriteLocked);
    Updated(blocks, buffer, free, disk, v, held);
    SameShown(blocks[v := held], blocks[v := changed], buffer, free, disk);
    if changed.dirty {
      Updated(blocks, buffer, free, disk, v, changed);
      Evicted(blocks[v := changed], buffer, free, disk, v, s);
      assert blocks[v := changed][v := evicted] == blocks[v := evicted];
    } else {
      Evicted(blocks, buffer, free, disk, v, s);
      SameShown(blocks[v := evicted.(data := blocks[v].data)], blocks[v := evicted], buffer, free, disk);
    }
  }

  // Locks, marks and the data of invalid blocks do not show.
  lemma SameShown(blocks: seq<Block>, blocks': seq<Block>, buffer: seq<nat>, free: seq<nat>, disk: seq<Sector>)
    requires Inv(blocks, buffer, free, disk) && |blocks'| == |blocks|
    requires forall b :: b in buffer ==>
      && blocks'[b].sector == blocks[b].sector && blocks'[b].valid == blocks[b].valid
      && (blocks[b].valid ==> blocks'[b].data == blocks[b].data)
    ensures View(blocks', buffer, disk) == View(blocks, buffer, disk)
  {
    forall s | 0 <= s < |disk|
      ensures Content(blocks', buffer, disk, s) == Content(blocks, buffer, disk, s)
    {
      assert forall b :: Holds(blocks', buffer, b, s) <==> Holds(blocks, buffer, b, s);
      if exists b :: Holds(blocks, buffer, b, s) {
        var b :| Holds(blocks, buffer, b, s);
        assert forall c :: Holds(blocks, buffer, c, s) ==> c == b;
      }
    }
  }

  /** A free block joins the cache for sector s. */
  lemma Adopted(blocks: seq<Block>, buffer: seq<nat>, free: seq<nat>, disk: seq<Sector>, s: nat)
    requires Inv(blocks, buffer, free, disk) && |free| > 0
    requires Uncached(blocks, buffer, s) && s < |disk| && s < NO_SECTOR
    ensures free[0] in free
    ensures var f := free[0]; var blocks' := blocks[f := blocks[f].(sector := s)];
      Inv(blocks', [f] + buffer, free[1..], disk) && View(blocks', [f] + buffer, disk) == View(blocks, buffer, disk)
  {
    var f := free[0];
    assert f in free;
    var blocks', buffer', free' := blocks[f := blocks[f].(sector := s)], [f] + buffer, free[1..];
    assert forall b :: b in buffer' <==> b == f || b in buffer;
    assert forall b :: b in free' ==> b in free && b != f;
    assert Inv(blocks', buffer', free', disk);
    forall t | 0 <= t < |disk|
      ensures Content(blocks', buffer', disk, t) == Content(blocks, buffer, disk, t)
    {
      assert forall b :: Holds(blocks', buffer', b, t) <==> Holds(blocks, buffer, b, t);
      if exists b :: Holds(blocks, buffer, b, t) {
        var b :| Holds(blocks, buffer, b, t);
        assert forall c :: Holds(blocks, buffer, c, t) ==> c == b;
      }
    }
  }

  // Write-back of one block.
  lemma Cleaned(blocks: seq<Block>, buffer: seq<nat>, free: seq<nat>, disk: seq<Sector>, b: nat)
    requires Inv(blocks, buffer, free, disk) && b in buffer && blocks[b].dirty
    ensures var disk', blocks' := disk[blocks[b].sector := blocks[b].data], blocks[b := blocks[b].(dirty := false)];
      Inv(blocks', buffer, free, disk') && View(blocks', buffer, disk') == View(blocks, buffer, disk)
  {
    var disk', blocks' := disk[blocks[b].sector := blocks[b].data], blocks[b := blocks[b].(dirty := false)];
    assert Inv(blocks', buffer, free, disk');
    forall t | 0 <= t < |disk|
      ensures Content(blocks', buffer, disk', t) == Content(blocks, buffer, disk, t)
    {
      if t == blocks[b].sector {
        ContentCached(blocks, buffer, free, disk, b);
        ContentCached(blocks', buffer, free, disk', b);
      } else {
        ContentSame(blocks, blocks', buffer, free, disk, disk', t);
      }
    }
  }

  // With every cached block clean and none held by a writer the disk is the array.
  lemma CleanIsOnDisk(blocks: seq<Block>, buffer: seq<nat>, free: seq<nat>, disk: seq<Sector>)
    requires Inv(blocks, buffer, free, disk)
    requires forall b :: b in buffer ==> !blocks[b].dirty && blocks[b].writers == 0
    ensures disk == View(blocks, buffer, disk)
  {
  }

  /** The cache and the device under it. */
  class BufferCache {
    var blocks: seq<Block>          // the pool
    var buffer: seq<nat>            // buffer_cache: cached blocks, most recently acquired first
    var free: seq<nat>              // free_cache
    var disk: seq<Sector>           // fs_device

    ghost predicate Valid()
      reads this
    {
      Inv(blocks, buffer, free, disk)
    }

    /** The cached sectors, the most recently requested first. */
    ghost function Cached(): seq<nat>
      reads this
    {
      Names(blocks, buffer)
    }

    ghost function Held(): set<nat>
      reads this
    {
      HeldSectors(blocks, buffer)
    }

    /** The plain array of sectors. */
    ghost function Sectors(): seq<Sector>
      reads this
    {
      View(blocks, buffer, disk)
    }

    /** cache_init: 64 empty blocks. */
    constructor (device: seq<Sector>)
      ensures Valid() && Sectors() == device && Cached() == [] && Held() == {}
    {
      var empty := Block(NO_SECTOR, false, false, ZERO_SECTOR, 0, 0, Unlocked);
      blocks := seq(MAX_CACHE_SIZE, _ => empty);
      buffer := [];
      free := seq(MAX_CACHE_SIZE, i => i);
      disk := device;
    }

    /** cache_lookup. */
    method Lookup(sector: nat) returns (found: bool, k: nat)
      requires Valid()
      ensures found ==> k < |buffer| && blocks[buffer[k]].sector == sector
      ensures !found ==> Uncached(blocks, buffer, sector)
    {
      k := 0;
      while k < |buffer|
        invariant 0 <= k <= |buffer|
        invariant forall i :: 0 <= i < k ==> blocks[buffer[i]].sector != sector
      {
        if blocks[buffer[k]].sector == sector {
          return true, k;
        }
        k := k + 1;
      }
      return false, 0;
    }

    /** The search of evict_LRU_block: from the back of the list, the first block that can be
        locked exclusively. */
    method FindVictim() returns (k: nat)
      requires Valid() && exists b :: b in buffer && !blocks[b].Pinned()
      ensures k < |buffer| && !blocks[buffer[k]].Pinned()
      ensures forall i :: k < i < |buffer| ==> blocks[buffer[i]].Pinned()
    {
      k := |buffer|;
      while true
        invariant 0 < k <= |buffer|
        invariant forall i :: k <= i < |buffer| ==> blocks[buffer[i]].Pinned()
        decreases k
      {
        if !blocks[buffer[k - 1]].Pinned() {
          k := k - 1;
          return;
        }
        assert exists i :: 0 <= i < |buffer| && !blocks[buffer[i]].Pinned();
        k := k - 1;
      }
    }

    // list_remove, list_push_front on buffer_cache.
    method MoveToFront(k: nat)
      requires Valid() && k < |buffer|
      modifies this`buffer
      ensures Valid() && Sectors() == old(Sectors())
      ensures buffer == [old(buffer[k])] + RemoveAt(old(buffer), k)
      ensures forall c :: c in buffer <==> c in old(buffer)
    {
      RemoveAtDistinct(buffer, k);
      MovedToFront(blocks, buffer, free, disk, k);
      buffer := [buffer[k]] + RemoveAt(buffer, k);
    }

    /** evict_LRU_block. */
    method EvictLRUBlock(sector: nat) returns (k: nat)
      requires Valid() && sector < |disk| && sector < NO_SECTOR && Uncached(blocks, buffer, sector)
      requires exists c :: c in buffer && !blocks[c].Pinned()
      modifies this`blocks, this`disk
      ensures Valid() && Sectors() == old(Sectors()) && |disk| == old(|disk|)
      ensures k < |buffer| && !old(blocks)[buffer[k]].Pinned()
      ensures forall i :: k < i < |buffer| ==> old(blocks)[buffer[i]].Pinned()
      ensures var v := buffer[k];
        blocks == old(blocks)[v := old(blocks)[v].(sector := sector, valid := false, dirty := false)]
    {
      k := FindVictim();
      var v := buffer[k];
      Evicted(blocks, buffer, free, disk, v, sector);
      disk := WrittenBack(blocks[v], disk);
      blocks := blocks[v := blocks[v].(sector := sector, valid := false, dirty := false)];
    }

    // list_front (&free_cache) takes the sector and joins the cached blocks.
    method Adopt(sector: nat)
      requires Valid() && sector < |disk| && sector < NO_SECTOR && Uncached(blocks, buffer, sector) && |free| > 0
      modifies this`blocks, this`buffer, this`free
      ensures Valid() && Sectors() == old(Sectors())
      ensures var f := old(free[0]);
        && f < |old(blocks)| && f !in old(buffer) && buffer == [f] + old(buffer) && free == old(free[1..])
        && blocks == old(blocks)[f := old(blocks)[f].(sector := sector)] && FreeOk(old(blocks)[f])
    {
      assert free[0] in free;
      Adopted(blocks, buffer, free, disk, sector);
      var f := free[0];
      blocks := blocks[f := blocks[f].(sector := sector)];
      buffer := [f] + buffer;
      free := free[1..];
    }

    /** The block that cache_get_block settles on, before its lock is taken. */
    method Settle(sector: nat) returns (b: nat)
      requires Valid() && sector < |disk| && sector < NO_SECTOR && Room(sector)
      modifies this
      ensures Valid() && Sectors() == old(Sectors()) && |disk| == old(|disk|)
      ensures b in buffer && buffer[0] == b && blocks[b].sector == sector
      ensures forall c :: c in old(buffer) && c != b ==> c in buffer && blocks[c] == old(blocks)[c]
      ensures forall c :: c in buffer && c != b ==> c in old(buffer)
      ensures !Uncached(old(blocks), old(buffer), sector) ==>
        b in old(buffer) && blocks == old(blocks) && disk == old(disk)
      ensures Uncached(old(blocks), old(buffer), sector) ==> !blocks[b].valid && !blocks[b].Pinned()
      ensures Cached() == Requested(old(Cached()), old(Held()), sector)
    {
      var found, k := Lookup(sector);
      if found {
        HitOrder(blocks, buffer, free, disk, k, sector);
        MoveToFront(k);
      } else if |free| == 0 {
        k := EvictLRUBlock(sector);
        EvictOrder(old(blocks), buffer, free, old(disk), k, sector);
        MoveToFront(k);
      } else {
        AdoptOrder(blocks, buffer, free, disk, sector);
        Adopt(sector);
      }
      b := buffer[0];
    }

    // The lock of the block for this sector, if there is one, can be had without waiting.
    ghost predicate Lockable(sector: nat, exclusive: bool)
      reads this
    {
      forall b :: b in buffer && b < |blocks| && blocks[b].sector == sector ==>
        if exclusive then !blocks[b].Pinned() else blocks[b].writers == 0
    }

    ghost predicate Room(sector: nat)
      reads this
    {
      |free| > 0 || !Uncached(blocks, buffer, sector) || exists c :: c in buffer && c < |blocks| && !blocks[c].Pinned()
    }

    /** Nobody holds a block. */
    ghost predicate Idle()
      reads this
    {
      forall b :: b in buffer && b < |blocks| ==> !blocks[b].Pinned()
    }

    /** cache_get_block: the block for this sector, locked and at the front of the list; no sector
        changes.  A miss with no free block takes the block furthest back that nobody holds, and the
        others keep their order. */
    method GetBlock(sector: nat, exclusive: bool) returns (b: nat)
      requires Valid() && sector < |disk| && sector < NO_SECTOR && Lockable(sector, exclusive) && Room(sector)
      modifies this
      ensures Valid() && Sectors() == old(Sectors()) && |disk| == old(|disk|)
      ensures b in buffer && buffer[0] == b && blocks[b].sector == sector
      ensures if exclusive then blocks[b].writers == 1 && blocks[b].readers == 0
              else blocks[b].readers > 0 && blocks[b].writers == 0
      ensures forall c :: c in old(buffer) && c != b ==> c in buffer && blocks[c] == old(blocks)[c]
      ensures forall c :: c in buffer && c != b ==> c in old(buffer)
      ensures old(Idle()) ==> blocks[b].readers == (if exclusive then 0 else 1)
      ensures !Uncached(old(blocks), old(buffer), sector) ==>
        && disk == old(disk) && b in old(buffer) && blocks[b].valid == old(blocks)[b].valid
        && blocks[b].readers == old(blocks)[b].readers + (if exclusive then 0 else 1)
      ensures Uncached(old(blocks), old(buffer), sector) ==>
        !blocks[b].valid && blocks[b].readers + blocks[b].writers == 1
      ensures Cached() == Requested(old(Cached()), old(Held()), sector)
    {
      hide Requested, Names, HeldSectors, NoSectorTwice, View, Content;
      b := Settle(sector);
      Lock(b, exclusive);
    }

    // write_lock_acquire or read_lock_acquire, where it does not wait.
    method Lock(b: nat, exclusive: bool)
      requires Valid() && b in buffer && if exclusive then !blocks[b].Pinned() else blocks[b].writers == 0
      modifies this`blocks
      ensures Valid() && Sectors() == old(Sectors()) && Cached() == old(Cached())
      ensures var was := old(blocks)[b];
        blocks == old(blocks)[b := if exclusive then was.(writers := 1, mode := WriteLocked)
                                   else was.(readers := was.readers + 1, mode := ReadLocked)]
    {
      var nb := if exclusive then blocks[b].(writers := blocks[b].writers + 1, mode := WriteLocked)
                else blocks[b].(readers := blocks[b].readers + 1, mode := ReadLocked);
      ContentCached(blocks, buffer, free, disk, b);
      Updated(blocks, buffer, free, disk, b, nb);
      blocks := blocks[b := nb];
    }

    /** cache_read_block: the contents of the block's sector. */
    method ReadBlock(b: nat) returns (data: Sector)
      requires Valid() && b in buffer && blocks[b].Pinned()
      modifies this`blocks
      ensures Valid() && Sectors() == old(Sectors())
      ensures blocks == old(blocks)[b := old(blocks)[b].(valid := true, data := data)] && Cached() == old(Cached())
      ensures data == Sectors()[blocks[b].sector]
    {
      ContentCached(blocks, buffer, free, disk, b);
      if !blocks[b].valid {
        var nb := blocks[b].(data := disk[blocks[b].sector], valid := true);
        Updated(blocks, buffer, free, disk, b, nb);
        blocks := blocks[b := nb];
      }
      data := blocks[b].data;
    }

    /** cache_zero_block. */
    method ZeroBlock(b: nat)
      requires Valid() && b in buffer && blocks[b].writers == 1
      modifies this`blocks
      ensures Valid() && Sectors() == old(Sectors())[blocks[b].sector := ZERO_SECTOR]
      ensures blocks == old(blocks)[b := old(blocks)[b].(valid := true, dirty := true, data := ZERO_SECTOR)]
      ensures Cached() == old(Cached())
    {
      var nb := blocks[b].(data := ZERO_SECTOR, dirty := true, valid := true);
      Updated(blocks, buffer, free, disk, b, nb);
      blocks := blocks[b := nb];
    }

    /** A caller that holds the block exclusively changes the data it was given. */
    method ChangeData(b: nat, data: Sector)
      requires Valid() && b in buffer && blocks[b].writers == 1 && blocks[b].valid
      modifies this`blocks
      ensures Valid() && Sectors() == old(Sectors())[blocks[b].sector := data]
      ensures blocks == old(blocks)[b := old(blocks)[b].(data := data)] && Cached() == old(Cached())
    {
      var nb := blocks[b].(data := data);
      Updated(blocks, buffer, free, disk, b, nb);
      blocks := blocks[b := nb];
    }

    /** cache_mark_block_dirty. */
    method MarkBlockDirty(b: nat)
      requires Valid() && b in buffer && blocks[b].valid
      modifies this`blocks
      ensures Valid() && Sectors() == old(Sectors())
      ensures blocks == old(blocks)[b := old(blocks)[b].(dirty := true)] && Cached() == old(Cached())
    {
      ContentCached(blocks, buffer, free, disk, b);
      Updated(blocks, buffer, free, disk, b, blocks[b].(dirty := true));
      blocks := blocks[b := blocks[b].(dirty := true)];
    }

    /** cache_put_block: a writer must have marked the block dirty if it changed it. */
    method PutBlock(b: nat)
      requires Valid() && b in buffer && blocks[b].Pinned()
      requires blocks[b].writers == 1 && blocks[b].valid && !blocks[b].dirty ==>
        blocks[b].data == disk[blocks[b].sector]
      modifies this`blocks
      ensures Valid() && Sectors() == old(Sectors())
      ensures var was := old(blocks)[b];
        blocks == old(blocks)[b := was.(writers := 0, readers := if was.readers > 0 then was.readers - 1 else 0)]
      ensures Cached() == old(Cached())
    {
      ContentCached(blocks, buffer, free, disk, b);
      var nb := blocks[b];
      if nb.mode == WriteLocked {
        nb := nb.(writers := nb.writers - 1);
      } else if nb.mode == ReadLocked {
        nb := nb.(readers := nb.readers - 1);
      }
      Updated(blocks, buffer, free, disk, b, nb);
      blocks := blocks[b := nb];
    }

    // Write-back cleans blocks that nobody holds, and leaves all others alone, on the disk too.
    static ghost predicate Settled(before: seq<Block>, after: seq<Block>, disk: seq<Sector>, disk': seq<Sector>) {
      && |after| == |before| && |disk'| == |disk|
      && (forall c :: 0 <= c < |before| ==>
            after[c] == before[c] || (!before[c].Pinned() && after[c] == before[c].(dirty := false)))
      && (forall s :: 0 <= s < |disk| && disk'[s] != disk[s] ==> Unheld(before, s))
    }

    // A block for sector s that nobody holds.
    static ghost predicate Unheld(blocks: seq<Block>, s: int) {
      exists c :: 0 <= c < |blocks| && blocks[c].sector == s && blocks[c].dirty && !blocks[c].Pinned()
    }

    // One round of the loop of cache_flush.
    method FlushOne(b: nat)
      requires Valid() && b in buffer
      modifies this`blocks, this`disk
      ensures Valid() && Sectors() == old(Sectors())
      ensures Settled(old(blocks), blocks, old(disk), disk) && (blocks[b].Pinned() || !blocks[b].dirty)
    {
      if blocks[b].dirty {
        if !blocks[b].Pinned() {
          Cleaned(blocks, buffer, free, disk, b);
          disk := disk[blocks[b].sector := blocks[b].data];
          blocks := blocks[b := blocks[b].(dirty := false)];
        }
      }
    }

    // The loop of cache_flush, from the back of the list.
    method FlushLoop()
      requires Valid()
      modifies this`blocks, this`disk
      ensures Valid() && Sectors() == old(Sectors()) && Settled(old(blocks), blocks, old(disk), disk)
      ensures forall i :: 0 <= i < |buffer| ==> blocks[buffer[i]].Pinned() || !blocks[buffer[i]].dirty
    {
      var k := |buffer|;
      while k > 0
        invariant 0 <= k <= |buffer|
        invariant Valid() && Sectors() == old(Sectors()) && Settled(old(blocks), blocks, old(disk), disk)
        invariant forall i :: k <= i < |buffer| ==> blocks[buffer[i]].Pinned() || !blocks[buffer[i]].dirty
      {
        k := k - 1;
        FlushOne(buffer[k]);
      }
    }

    /** cache_flush: no sector changes; every block that nobody holds ends clean, those that are held
        stay as they are, and when nobody holds any the disk is the array of sectors. */
    method Flush()
      requires Valid()
      modifies this`blocks, this`disk
      ensures Valid() && Sectors() == old(Sectors())
      ensures forall b :: b in buffer && !blocks[b].Pinned() ==> !blocks[b].dirty
      ensures Settled(old(blocks), blocks, old(disk), disk) && Cached() == old(Cached())
      ensures (forall b :: b in buffer ==> !old(blocks)[b].Pinned()) ==> disk == Sectors()
      ensures old(Idle()) ==> Idle() && disk == Sectors() && |disk| == old(|disk|)
    {
      FlushLoop();
      if forall b :: b in buffer ==> !blocks[b].Pinned() {
        CleanIsOnDisk(blocks, buffer, free, disk);
      }
    }

    // ---- what the layer above relies on

    lemma IdleIsFree(sector: nat)
      requires Valid() && Idle()
      ensures Lockable(sector, true) && Lockable(sector, false) && Room(sector)
    {
      if |free| == 0 {
        assert buffer[0] in buffer;
      }
    }

    /** cache_get_block, cache_read_block, cache_put_block: reading a sector. */
    method Load(sector: nat) returns (data: Sector)
      requires Valid() && sector < |disk| && sector < NO_SECTOR && Lockable(sector, false) && Room(sector)
      modifies this
      ensures Valid() && |disk| == old(|disk|) && Sectors() == old(Sectors()) && data == Sectors()[sector]
      ensures old(Idle()) ==> Idle()
      ensures Cached() == Requested(old(Cached()), old(Held()), sector)
    {
      hide Requested, Names, HeldSectors, NoSectorTwice, View, Content;
      var b := GetBlock(sector, false);
      data := ReadBlock(b);
      PutBlock(b);
    }

    /** cache_get_block, cache_read_block or cache_zero_block, a change of the data,
        cache_mark_block_dirty, cache_put_block: writing a sector. */
    method Save(sector: nat, data: Sector, fromZeros: bool)
      requires Valid() && sector < |disk| && sector < NO_SECTOR && Lockable(sector, true) && Room(sector)
      modifies this
      ensures Valid() && |disk| == old(|disk|) && Sectors() == old(Sectors())[sector := data]
      ensures old(Idle()) ==> Idle()
      ensures Cached() == Requested(old(Cached()), old(Held()), sector)
    {
      hide Requested, Names, HeldSectors, NoSectorTwice, View, Content;
      var b := GetBlock(sector, true);
      Rewrite(b, data, fromZeros);
    }

    // What the holder of a block does to it.
    method Rewrite(b: nat, data: Sector, fromZeros: bool)
      requires Valid() && b in buffer && blocks[b].writers == 1
      modifies this`blocks
      ensures Valid() && Sectors() == old(Sectors()[blocks[b].sector := data])
      ensures blocks == old(blocks)[b := blocks[b]] && !blocks[b].Pinned() && Cached() == old(Cached())
    {
      if fromZeros {
        ZeroBlock(b);
      } else {
        var before := ReadBlock(b);
      }
      ChangeData(b, data);
      MarkBlockDirty(b);
      PutBlock(b);
    }
  }

  // ---------------------------------------------------------------------------------------
  // Whole runs.

  ghost function NoneHeld(sectors: seq<nat>): seq<Request> {
    seq(|sectors|, k requires 0 <= k < |sectors| => Request(sectors[k], {}))
  }

  lemma NoneHeldMore(sectors: seq<nat>, n: nat)
    requires n < |sectors|
    ensures CachedAfter(NoneHeld(sectors[..n + 1])) == Requested(CachedAfter(NoneHeld(sectors[..n])), {}, sectors[n])
  {
    var reqs := NoneHeld(sectors[..n + 1]);
    assert reqs[..n] == NoneHeld(sectors[..n]);
  }

  /** A new cache that serves any sequence of reads: each gives what the device holds, and the sectors
      cached in the end are those that LruOrder says of that sequence. */
  method ReadAll(device: seq<Sector>, sectors: seq<nat>) returns (cache: BufferCache, data: seq<Sector>)
    requires |device| < NO_SECTOR && forall k :: 0 <= k < |sectors| ==> sectors[k] < |device|
    ensures cache.Valid() && cache.Idle() && cache.Cached() == CachedAfter(NoneHeld(sectors))
    ensures |data| == |sectors| && forall k :: 0 <= k < |sectors| ==> data[k] == device[sectors[k]]
  {
    hide Inv, Requested, Names;
    cache := new BufferCache(device);
    data := [];
    var n := 0;
    while n < |sectors|
      invariant n == |data| <= |sectors| && cache.Valid() && cache.Idle() && fresh(cache)
      invariant cache.Sectors() == device && |cache.disk| == |device|
      invariant cache.Cached() == CachedAfter(NoneHeld(sectors[..n]))
      invariant forall k :: 0 <= k < n ==> data[k] == device[sectors[k]]
    {
      cache.IdleIsFree(sectors[n]);
      NoneHeldMore(sectors, n);
      assert cache.Held() == {};
      var d := cache.Load(sectors[n]);
      data := data + [d];
      n := n + 1;
    }
    assert sectors[..n] == sectors;
  }
}
