/** Creation and removal of inodes (src/filesys/inode.c): which bytes a new file shows, and which
    sectors the last close of a removed file gives back. */
module InodeLife {
  import opened Bytes
  import opened Disk
  import opened IndexTable
  import opened InodeIndex
  import opened InodeState
  import opened InodeFile

  // ---------------------------------------------------------------------------------------
  // Creation.

  // The words of a new inode: the length, the type, and every slot empty.
  ghost predicate BlankInode(s: Sector, length: nat) {
    WordAt(s, LENGTH) == length && forall k :: DIRECT <= k < WORDS ==> WordAt(s, k) == NONE
  }

  /** A sector that no inode owns becomes an empty inode; other files do not notice. */
  lemma BlankInodeAdded(secs: seq<Sector>, used: seq<bool>, own: Owners, i: nat, s: Sector, length: nat)
    requires Inv(secs, used, own) && i < |secs| && used[i] && i !in own
    requires BlankInode(s, length) && length <= MAX_LENGTH
    ensures var secs', own' := secs[i := s], own[i := Ref(i, Self)];
      && Inv(secs', used, own') && Length(secs', i) == length
      && AllHoles(Tabs(secs'), i)
      && (forall j, pos {:trigger FileByte(secs', j, pos)} :: IsInode(own, j) && 0 <= pos < MAX_LENGTH ==>
            FileByte(secs', j, pos) == FileByte(secs, j, pos))
  {
    var secs', own' := secs[i := s], own[i := Ref(i, Self)];
    TabsWith(secs, i, s);
    NewInode(Tabs(secs), own, i, Words(s));
    forall q | q in own' ensures UsedOk(used, own', q) { if q != i { assert UsedOk(used, own, q); } }
    forall q | q in own' ensures BlockWithin(secs', own', 0, 0, q) {
      if q != i {
        assert BlockWithin(secs, own, 0, 0, q);
        assert Owned(Tabs(secs), own, q);
      }
    }
    forall j: nat | IsInode(own', j) && j < |secs'| ensures Length(secs', j) <= MAX_LENGTH {
      if j != i { assert IsInode(own, j) && secs'[j] == secs[j]; }
    }
    forall j, pos | IsInode(own, j) && 0 <= pos < MAX_LENGTH ensures FileByte(secs', j, pos) == FileByte(secs, j, pos) {
      assert Held(Tabs(secs), own, j, DataSlot(pos / BLOCK_SECTOR_SIZE));
    }
  }

  /** The slot of the block that holds the last byte of a file. */
  ghost function LastSlot(length: nat): (s: Slot)
    requires 0 < length <= MAX_LENGTH
    ensures s.Valid() && s.IsData()
  {
    DataSlot((length - 1) / BLOCK_SECTOR_SIZE)
  }

  /** One sector for a direct block, two with its table, three with both its tables. */
  lemma PathSize(n: nat)
    requires n < MAX_BLOCKS
    ensures |Path(DataSlot(n))| == if n < NUM_DIRECT then 1 else if n < NUM_DIRECT + NUM_INDIRECT then 2 else 3
  {
  }

  /** The sector that the only block of a new file gets. */
  ghost function NewSector(used: seq<bool>, length: nat): (r: nat)
    requires 0 < length <= MAX_LENGTH && |Path(LastSlot(length))| <= FreeSectors(used)
    ensures r < |used|
  {
    PathSize((length - 1) / BLOCK_SECTOR_SIZE);
    NthFree(used, |Path(LastSlot(length))| - 1)
  }

  // Byte pos of a file that inode_create made on the device secs0 with the free map used0.
  ghost predicate NewByte(secs0: seq<Sector>, used0: seq<bool>, secs: seq<Sector>, i: nat, length: nat, pos: nat)
    requires pos < MAX_LENGTH && |secs0| == |used0|
    requires length <= MAX_LENGTH && (length > 0 ==> |Path(LastSlot(length))| <= FreeSectors(used0))
  {
    if length == 0 || pos / BLOCK_SECTOR_SIZE != (length - 1) / BLOCK_SECTOR_SIZE || pos == length - 1
    then FileByte(secs, i, pos) == 0
    else FileByte(secs, i, pos) == secs0[NewSector(used0, length)][pos % BLOCK_SECTOR_SIZE]
  }

  ghost predicate NewBytes(secs0: seq<Sector>, used0: seq<bool>, secs: seq<Sector>, i: nat, length: nat)
    requires |secs0| == |used0|
    requires length <= MAX_LENGTH && (length > 0 ==> |Path(LastSlot(length))| <= FreeSectors(used0))
  {
    forall pos {:trigger NewByte(secs0, used0, secs, i, length, pos)} :: 0 <= pos < MAX_LENGTH ==>
      NewByte(secs0, used0, secs, i, length, pos)
  }

  /** What the sector for the last block holds before the place of the last byte is zero. */
  ghost predicate StaleFree(secs0: seq<Sector>, used0: seq<bool>, length: nat)
    requires |secs0| == |used0|
    requires length <= MAX_LENGTH && (length > 0 ==> |Path(LastSlot(length))| <= FreeSectors(used0))
  {
    length > 0 ==> forall k :: 0 <= k < (length - 1) % BLOCK_SECTOR_SIZE ==> secs0[NewSector(used0, length)][k] == 0
  }

  /** A new file reads as zeros exactly when the sector that its last block is given held zeros up
      to its last byte. */
  lemma NewFileReadsZero(secs0: seq<Sector>, used0: seq<bool>, secs: seq<Sector>, i: nat, length: nat)
    requires |secs0| == |used0| && length <= MAX_LENGTH
    requires length > 0 ==> |Path(LastSlot(length))| <= FreeSectors(used0)
    requires NewBytes(secs0, used0, secs, i, length)
    ensures (forall pos :: 0 <= pos < length ==> FileByte(secs, i, pos) == 0) <==> StaleFree(secs0, used0, length)
  {
    if length > 0 {
      var last := (length - 1) / BLOCK_SECTOR_SIZE;
      var r := NewSector(used0, length);
      forall pos | 0 <= pos < length
        ensures FileByte(secs, i, pos) == 0
                || (pos % BLOCK_SECTOR_SIZE < (length - 1) % BLOCK_SECTOR_SIZE
                    && FileByte(secs, i, pos) == secs0[r][pos % BLOCK_SECTOR_SIZE])
      {
        assert NewByte(secs0, used0, secs, i, length, pos);
      }
      forall k | 0 <= k < (length - 1) % BLOCK_SECTOR_SIZE
        ensures FileByte(secs, i, last * BLOCK_SECTOR_SIZE + k) == secs0[r][k]
      {
        BlockAndOffset(last, k);
        assert NewByte(secs0, used0, secs, i, length, last * BLOCK_SECTOR_SIZE + k);
      }
    }
  }

  lemma BlockAndOffset(n: nat, k: nat)
    requires k < BLOCK_SECTOR_SIZE
    ensures (n * BLOCK_SECTOR_SIZE + k) / BLOCK_SECTOR_SIZE == n
    ensures (n * BLOCK_SECTOR_SIZE + k) % BLOCK_SECTOR_SIZE == k
  {
  }

  ghost predicate AllHoles(ws: Tables, i: nat) {
    forall u: Slot {:trigger Reach(ws, i, u)} :: u.Valid() && u != Self ==> Reach(ws, i, u) == NONE
  }

  lemma LastRange(length: nat)
    requires 0 < length <= MAX_LENGTH
    ensures RangeSlots(length - 1, 1) == [LastSlot(length)]
  {
    BlocksTouchedIs(length - 1, 1);
  }

  lemma TouchedOne(s: Slot)
    ensures Touched([s]) == Path(s)
  {
    TouchedNext([], s);
    assert [] + [s] == [s] && {} + Path(s) == Path(s);
  }

  // Every slot on the way to the block is empty.
  lemma BlankDemand(ws: Tables, i: nat, length: nat)
    requires AllHoles(ws, i) && 0 < length <= MAX_LENGTH
    ensures Demand(ws, i, RangeSlots(length - 1, 1)) == |Path(LastSlot(length))|
  {
    LastRange(length);
    TouchedOne(LastSlot(length));
    PathSlots(LastSlot(length));
    assert Missing(ws, i, Path(LastSlot(length))) == Path(LastSlot(length));
  }

  lemma CreatedSpent(ws1: Tables, used0: seq<bool>, ws: Tables, used: seq<bool>, i: nat, length: nat)
    requires AllHoles(ws1, i) && 0 < length <= MAX_LENGTH
    requires Spent(ws1, used0, ws, used, i, RangeSlots(length - 1, 1))
    ensures |Path(LastSlot(length))| <= FreeSectors(used0) && used == Taken(used0, |Path(LastSlot(length))|)
    ensures Reach(ws, i, LastSlot(length)) == NewSector(used0, length)
  {
    var ss := RangeSlots(length - 1, 1);
    BlankDemand(ws1, i, length);
    LastRange(length);
    assert ss[..1] == ss && Given(ws1, used0, ws, i, ss, 0);
  }

  // secs1 is the device after the blank inode i was added, secs after the write at its end.
  ghost predicate AfterCreate(secs0: seq<Sector>, used0: seq<bool>, own0: Owners, secs1: seq<Sector>, own1: Owners,
                              secs: seq<Sector>, i: nat, length: nat) {
    && 0 < length <= MAX_LENGTH && |used0| == |secs0| == |secs1| == |secs| < NONE
    && own1 == own0[i := Ref(i, Self)] && i !in own0 && AllHoles(Tabs(secs1), i)
    && (forall q :: 0 <= q < |secs0| && q != i ==> secs1[q] == secs0[q])
    && Outcome(secs1, own1, secs, i, length - 1, length, [0])
    && |Path(LastSlot(length))| <= FreeSectors(used0)
    && Reach(Tabs(secs), i, LastSlot(length)) == NewSector(used0, length)
  }

  lemma OtherByte(secs0: seq<Sector>, used0: seq<bool>, own0: Owners, secs1: seq<Sector>, own1: Owners,
                  secs: seq<Sector>, i: nat, length: nat, j: nat, pos: nat)
    requires AfterCreate(secs0, used0, own0, secs1, own1, secs, i, length) && IsInode(own0, j) && pos < MAX_LENGTH
    ensures FileByte(secs, j, pos) == FileByte(secs1, j, pos)
  {
    assert ByteOutcome(secs1, own1, secs, i, length - 1, length, [0], j, pos);
  }

  lemma LastBlock(length: nat, n: nat)
    requires length > 0
    ensures (length - 1) / BLOCK_SECTOR_SIZE <= n && n * BLOCK_SECTOR_SIZE < length
       <==> n == (length - 1) / BLOCK_SECTOR_SIZE
  {
  }

  lemma CreatedByte(secs0: seq<Sector>, used0: seq<bool>, own0: Owners, secs1: seq<Sector>, own1: Owners,
                    secs: seq<Sector>, i: nat, length: nat, pos: nat)
    requires AfterCreate(secs0, used0, own0, secs1, own1, secs, i, length) && pos < MAX_LENGTH
    ensures NewByte(secs0, used0, secs, i, length, pos)
  {
    assert ByteOutcome(secs1, own1, secs, i, length - 1, length, [0], i, pos);
    LastBlock(length, pos / BLOCK_SECTOR_SIZE);
  }

  // What inode_create leaves on the device.
  lemma CreatedBytes(secs0: seq<Sector>, used0: seq<bool>, own0: Owners, secs1: seq<Sector>, own1: Owners,
                     secs: seq<Sector>, i: nat, length: nat)
    requires AfterCreate(secs0, used0, own0, secs1, own1, secs, i, length)
    ensures NewBytes(secs0, used0, secs, i, length)
    ensures forall j, pos {:trigger FileByte(secs, j, pos)} :: IsInode(own0, j) && 0 <= pos < MAX_LENGTH ==>
      FileByte(secs, j, pos) == FileByte(secs1, j, pos)
  {
    forall pos | 0 <= pos < MAX_LENGTH ensures NewByte(secs0, used0, secs, i, length, pos) {
      CreatedByte(secs0, used0, own0, secs1, own1, secs, i, length, pos);
    }
    forall j, pos | IsInode(own0, j) && 0 <= pos < MAX_LENGTH
      ensures FileByte(secs, j, pos) == FileByte(secs1, j, pos)
    {
      OtherByte(secs0, used0, own0, secs1, own1, secs, i, length, j, pos);
    }
  }

  lemma BlankBytes(secs0: seq<Sector>, used0: seq<bool>, secs: seq<Sector>, i: nat)
    requires |secs0| == |used0| && |secs| <= NONE && AllHoles(Tabs(secs), i)
    ensures NewBytes(secs0, used0, secs, i, 0)
  {
  }

  // ---------------------------------------------------------------------------------------
  // Removal.

  ghost function DataBelow(own: Owners, i: nat, n: nat): set<nat> {
    set r | r in own && own[r].inode == i && own[r].slot.IsData() && BlockOf(own[r].slot) < n
  }

  ghost function TablesBelow(own: Owners, i: nat, k: nat): set<nat> {
    set r | r in own && own[r].inode == i && own[r].slot.DoubleTable? && own[r].slot.j < k
  }

  // The sector in slot s, as a set.
  ghost function InSlot(ws: Tables, i: nat, s: Slot): set<nat> {
    if Reach(ws, i, s) == NONE then {} else {Reach(ws, i, s)}
  }

  /** Every sector of inode i. */
  ghost function SectorsOf(own: Owners, i: nat): set<nat> {
    set r | r in own && own[r].inode == i
  }

  lemma InSlotIs(ws: Tables, own: Owners, i: nat, s: Slot)
    requires Index(ws, own) && IsInode(own, i) && s.Valid()
    ensures forall r :: r in InSlot(ws, i, s) <==> r in own && own[r] == Ref(i, s)
  {
    assert Held(ws, own, i, s);
    forall r | r in own && own[r] == Ref(i, s) ensures Reach(ws, i, s) == r && r != NONE { assert Owned(ws, own, r); }
  }

  lemma DataStep(ws: Tables, own: Owners, i: nat, n: nat)
    requires Index(ws, own) && IsInode(own, i) && n < MAX_BLOCKS
    ensures DataBelow(own, i, n + 1) == DataBelow(own, i, n) + InSlot(ws, i, DataSlot(n))
    ensures DataBelow(own, i, n) !! InSlot(ws, i, DataSlot(n))
  {
    InSlotIs(ws, own, i, DataSlot(n));
    DataSlotInverse(n);
    forall r | r in own && own[r].slot.IsData() ensures BlockOf(own[r].slot) == n <==> own[r].slot == DataSlot(n) {
      assert Owned(ws, own, r);
      BlockOfInverse(own[r].slot);
    }
  }

  lemma TableStep(ws: Tables, own: Owners, i: nat, k: nat)
    requires Index(ws, own) && IsInode(own, i) && k < NUM_INDIRECT
    ensures TablesBelow(own, i, k + 1) == TablesBelow(own, i, k) + InSlot(ws, i, DoubleTable(k))
    ensures TablesBelow(own, i, k) !! InSlot(ws, i, DoubleTable(k))
  {
    InSlotIs(ws, own, i, DoubleTable(k));
  }

  /** Data sectors up to the length, the tables and the inode itself are all its sectors. */
  lemma AllSectors(secs: seq<Sector>, used: seq<bool>, own: Owners, i: nat, n: nat)
    requires Inv(secs, used, own) && IsInode(own, i) && i < |secs| && Length(secs, i) <= n * BLOCK_SECTOR_SIZE
    ensures var ws := Tabs(secs);
      SectorsOf(own, i) == DataBelow(own, i, n) + InSlot(ws, i, Indirect)
                           + TablesBelow(own, i, NUM_INDIRECT) + InSlot(ws, i, Double) + {i}
  {
    var ws := Tabs(secs);
    InSlotIs(ws, own, i, Indirect);
    InSlotIs(ws, own, i, Double);
    forall r | r in own && own[r].inode == i
      ensures own[r].slot.Valid() && (own[r].slot == Self ==> r == i)
      ensures (own[r].slot.IsData() ==> BlockOf(own[r].slot) < n)
    {
      assert Owned(ws, own, r) && BlockWithin(secs, own, 0, 0, r);
    }
  }

  // Before a set of sectors is released again, and after.
  ghost predicate Freed(used0: seq<bool>, used: seq<bool>, gone: set<nat>) {
    |used| == |used0| && forall r :: 0 <= r < |used| ==> used[r] == (used0[r] && r !in gone)
  }

  /** What is left is a sound file system without inode i. */
  lemma RemovedInv(secs: seq<Sector>, used0: seq<bool>, used: seq<bool>, own: Owners, i: nat)
    requires Inv(secs, used0, own) && Freed(used0, used, SectorsOf(own, i))
    ensures Inv(secs, used, Others(own, i))
  {
    var own' := Others(own, i);
    DropInode(Tabs(secs), own, i);
    forall q | q in own' ensures UsedOk(used, own', q) { assert UsedOk(used0, own, q); }
    forall q | q in own' ensures BlockWithin(secs, own', 0, 0, q) { assert BlockWithin(secs, own, 0, 0, q); }
  }
}
