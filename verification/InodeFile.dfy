/** What writing does to the bytes of files (src/filesys/inode.c). */
module InodeFile {
  import opened Bytes
  import opened Disk
  import opened IndexTable
  import opened InodeIndex
  import opened InodeState

  // ---------------------------------------------------------------------------------------
  // Data sectors and the length word are not part of the index.

  lemma DataWrite(secs: seq<Sector>, used: seq<bool>, own: Owners, r: nat, x: Sector)
    requires Sound(secs, used, own) && r in own && own[r].slot.IsData() && r < |secs|
    ensures Sound(secs[r := x], used, own)
    ensures forall j, u: Slot {:trigger Reach(Tabs(secs[r := x]), j, u)} :: IsInode(own, j) && u.Valid() ==>
      Reach(Tabs(secs[r := x]), j, u) == Reach(Tabs(secs), j, u)
    ensures !IsInode(own, r)
  {
    TabsWith(secs, r, x);
    IndexSame(Tabs(secs), Tabs(secs[r := x]), own);
  }

  lemma LengthWrite(secs: seq<Sector>, used: seq<bool>, own: Owners, i: nat, w: nat)
    requires Sound(secs, used, own) && IsInode(own, i) && i < |secs| && w <= NONE
    ensures var secs' := secs[i := WithWord(secs[i], LENGTH, w)];
      && Sound(secs', used, own) && Length(secs', i) == w && Kind(secs', i) == Kind(secs, i)
      && (forall j, u: Slot {:trigger Reach(Tabs(secs'), j, u)} :: IsInode(own, j) && u.Valid() ==>
            Reach(Tabs(secs'), j, u) == Reach(Tabs(secs), j, u))
  {
    var secs' := secs[i := WithWord(secs[i], LENGTH, w)];
    TabsWith(secs, i, WithWord(secs[i], LENGTH, w));
    WordsWith(secs[i], LENGTH, w);
    WordRoundTrip(secs[i], LENGTH, w, LENGTH);
    WordRoundTrip(secs[i], LENGTH, w, IS_DIR);
    IndexSame(Tabs(secs), Tabs(secs'), own);
  }

  // ---------------------------------------------------------------------------------------
  // Progress of a write to bytes lo up to hi of inode i, relative to the state before it.

  /** What has become of byte `pos` of inode j.  A byte in range holds what was written.  Any other
      byte is unchanged if its block had a sector; a hole is still a hole, unless its block was
      written to in part, and then the byte is whatever the fresh sector held before. */
  ghost predicate ByteOutcome(secs0: seq<Sector>, own0: Owners, secs: seq<Sector>, i: nat, lo: nat, hi: nat,
                              buf: seq<byte>, j: nat, pos: nat)
    requires pos < MAX_LENGTH && |secs| == |secs0|
  {
    var n := pos / BLOCK_SECTOR_SIZE;
    var r0, r := Reach(Tabs(secs0), j, DataSlot(n)), Reach(Tabs(secs), j, DataSlot(n));
    && (j == i && lo <= pos < hi && hi - lo <= |buf| ==> r < |secs| && FileByte(secs, j, pos) == buf[pos - lo])
    && (r0 != NONE ==> r == r0)
    && (!(j == i && lo <= pos < hi) ==>
          if r0 != NONE then FileByte(secs, j, pos) == FileByte(secs0, j, pos)
          else r == NONE || Stale(secs0, own0, secs, i, lo, hi, j, pos, r))
  }

  // Byte pos lies in sector r, which the write took from the free map, and shows what r held.
  ghost predicate Stale(secs0: seq<Sector>, own0: Owners, secs: seq<Sector>, i: nat, lo: nat, hi: nat,
                        j: nat, pos: nat, r: nat)
    requires pos < MAX_LENGTH && |secs| == |secs0|
  {
    var n := pos / BLOCK_SECTOR_SIZE;
    && j == i && lo / BLOCK_SECTOR_SIZE <= n && n * BLOCK_SECTOR_SIZE < hi && r < |secs| && r !in own0
    && FileByte(secs, j, pos) == secs0[r][pos % BLOCK_SECTOR_SIZE]
  }

  ghost predicate Outcome(secs0: seq<Sector>, own0: Owners, secs: seq<Sector>, i: nat, lo: nat, hi: nat, buf: seq<byte>)
    requires |secs| == |secs0|
  {
    forall j, pos {:trigger ByteOutcome(secs0, own0, secs, i, lo, hi, buf, j, pos)} ::
        IsInode(own0, j) && 0 <= pos < MAX_LENGTH ==>
      ByteOutcome(secs0, own0, secs, i, lo, hi, buf, j, pos)
  }

  // Bookkeeping: owners only join, sectors nobody owns are untouched, lengths and kinds stand.
  ghost predicate Kept(secs0: seq<Sector>, own0: Owners, secs: seq<Sector>, own: Owners, i: nat) {
    && |secs| == |secs0|
    && (forall q :: q in own0 ==> q in own && own[q] == own0[q])
    && (forall q :: q in own && q !in own0 ==> own[q].inode == i && own[q].slot != Self)
    && (forall q :: 0 <= q < |secs| && q !in own ==> secs[q] == secs0[q])
    && (forall q :: q in own0 && own0[q].slot == Self && q < |secs| ==> SameHead(secs0, secs, q))
  }

  ghost predicate Wrote(secs0: seq<Sector>, own0: Owners, secs: seq<Sector>, own: Owners, i: nat, lo: nat, hi: nat,
                        buf: seq<byte>) {
    Kept(secs0, own0, secs, own, i) && Outcome(secs0, own0, secs, i, lo, hi, buf)
  }

  lemma WroteNothing(secs: seq<Sector>, used: seq<bool>, own: Owners, i: nat, lo: nat, buf: seq<byte>)
    requires Sound(secs, used, own)
    ensures Wrote(secs, own, secs, own, i, lo, lo, buf)
  {
  }

  // A data block of j other than the goal keeps its sector and its bytes through index work.
  lemma ExtendsByte(secs: seq<Sector>, used: seq<bool>, own: Owners, secs1: seq<Sector>, own1: Owners,
                    i: nat, goal: Slot, j: nat, pos: nat)
    requires Sound(secs, used, own) && Extends(secs, own, secs1, own1, i, Path(goal)) && IsInode(own, j)
    requires pos < MAX_LENGTH && !(j == i && DataSlot(pos / BLOCK_SECTOR_SIZE) == goal)
    ensures var u := DataSlot(pos / BLOCK_SECTOR_SIZE); Reach(Tabs(secs1), j, u) == Reach(Tabs(secs), j, u)
    ensures FileByte(secs1, j, pos) == FileByte(secs, j, pos)
  {
    var u := DataSlot(pos / BLOCK_SECTOR_SIZE);
    assert Held(Tabs(secs), own, j, u);
  }

  // A block that was a hole before the call holds a sector that nobody owned then.
  lemma FreshSector(secs0: seq<Sector>, used0: seq<bool>, own0: Owners, secs: seq<Sector>, used: seq<bool>,
                    own: Owners, i: nat, s: Slot)
    requires Sound(secs0, used0, own0) && Sound(secs, used, own) && Kept(secs0, own0, secs, own, i)
    requires IsInode(own, i) && s.Valid() && Reach(Tabs(secs0), i, s) == NONE && Reach(Tabs(secs), i, s) != NONE
    ensures Reach(Tabs(secs), i, s) !in own0
  {
    var r := Reach(Tabs(secs), i, s);
    assert Held(Tabs(secs), own, i, s);
    forall q | q in own0 ensures q != r { assert Owned(Tabs(secs0), own0, q); }
  }

  // The chunk of buf that starts at byte hi goes into sector r.
  ghost predicate Patched(before: Sector, after: Sector, lo: nat, hi: nat, chunk: nat, buf: seq<byte>) {
    var ofs := hi % BLOCK_SECTOR_SIZE;
    && lo <= hi && ofs + chunk <= BLOCK_SECTOR_SIZE && hi - lo + chunk <= |buf|
    && (forall k :: 0 <= k < BLOCK_SECTOR_SIZE ==>
          after[k] == if ofs <= k < ofs + chunk then buf[hi - lo + k - ofs] else before[k])
  }

  // State before the call, before this round, and after the round's index work.
  ghost predicate Round(secs0: seq<Sector>, used0: seq<bool>, own0: Owners, secs: seq<Sector>, used: seq<bool>,
                        own: Owners,
                        secs1: seq<Sector>, used1: seq<bool>, own1: Owners,
                        i: nat, lo: nat, hi: nat, buf: seq<byte>, r: nat) {
    && Sound(secs0, used0, own0) && IsInode(own0, i) && hi < MAX_LENGTH && lo <= hi
    && Sound(secs, used, own) && Wrote(secs0, own0, secs, own, i, lo, hi,
        buf) && (hi == lo || hi % BLOCK_SECTOR_SIZE == 0)
    && Sound(secs1, used1, own1)
    && var goal := DataSlot(hi / BLOCK_SECTOR_SIZE);
    && Extends(secs, own, secs1, own1, i, Path(goal)) && r == Reach(Tabs(secs1), i, goal) && r < |secs1|
    && (Reach(Tabs(secs), i, goal) != NONE ==> secs1 == secs)
  }

  lemma RoundKept(secs0: seq<Sector>, used0: seq<bool>, own0: Owners, secs: seq<Sector>, used: seq<bool>, own: Owners,
                  secs1: seq<Sector>, used1: seq<bool>, own1: Owners,
                  i: nat, lo: nat, hi: nat, buf: seq<byte>, r: nat, x: Sector)
    requires Round(secs0, used0, own0, secs, used, own, secs1, used1, own1, i, lo, hi, buf, r)
    ensures r in own1 && own1[r] == Ref(i, DataSlot(hi / BLOCK_SECTOR_SIZE)) && IsInode(own1, i)
    ensures Kept(secs0, own0, secs1, own1, i) && Kept(secs0, own0, secs1[r := x], own1, i)
  {
    assert Held(Tabs(secs1), own1, i, DataSlot(hi / BLOCK_SECTOR_SIZE));
    forall q | q in own0 && own0[q].slot == Self && q < |secs|
      ensures SameHead(secs0, secs1, q) && q != r
    {
      assert own[q] == own0[q] && own1[q] == own[q];
    }
  }

  // Bytes of other blocks.
  lemma RoundElsewhere(secs0: seq<Sector>, used0: seq<bool>, own0: Owners, secs: seq<Sector>, used: seq<bool>,
                       own: Owners,
                       secs1: seq<Sector>, used1: seq<bool>, own1: Owners,
                       i: nat, lo: nat, hi: nat, buf: seq<byte>, r: nat, x: Sector, chunk: nat, j: nat, pos: nat)
    requires Round(secs0, used0, own0, secs, used, own, secs1, used1, own1, i, lo, hi, buf, r)
    requires Patched(secs1[r], x, lo, hi, chunk, buf) && IsInode(own0, j) && pos < MAX_LENGTH
    requires !(j == i && pos / BLOCK_SECTOR_SIZE == hi / BLOCK_SECTOR_SIZE)
    ensures ByteOutcome(secs0, own0, secs1[r := x], i, lo, hi + chunk, buf, j, pos)
  {
    var n, goal := pos / BLOCK_SECTOR_SIZE, DataSlot(hi / BLOCK_SECTOR_SIZE);
    DataSlotInverse(n);
    DataSlotInverse(hi / BLOCK_SECTOR_SIZE);
    RoundKept(secs0, used0, own0, secs, used, own, secs1, used1, own1, i, lo, hi, buf, r, x);
    assert ByteOutcome(secs0, own0, secs, i, lo, hi, buf, j, pos);
    assert IsInode(own, j) && IsInode(own1, j);
    ExtendsByte(secs, used, own, secs1, own1, i, goal, j, pos);
    DataWrite(secs1, used1, own1, r, x);
    assert Reach(Tabs(secs1[r := x]), j, DataSlot(n)) == Reach(Tabs(secs1), j, DataSlot(n));
    if Reach(Tabs(secs1), j, DataSlot(n)) == r { ReachInjective(Tabs(secs1), own1, i, goal, j, DataSlot(n)); }
    assert FileByte(secs1[r := x], j, pos) == FileByte(secs, j, pos);
    SameBlockRange(pos, hi, chunk);
  }

  lemma SameBlockRange(pos: nat, hi: nat, chunk: nat)
    requires hi % BLOCK_SECTOR_SIZE + chunk <= BLOCK_SECTOR_SIZE
    ensures hi <= pos < hi + chunk ==> pos / BLOCK_SECTOR_SIZE == hi / BLOCK_SECTOR_SIZE
    ensures hi <= pos < hi + chunk ==> pos % BLOCK_SECTOR_SIZE == hi % BLOCK_SECTOR_SIZE + (pos - hi)
    ensures pos / BLOCK_SECTOR_SIZE == hi / BLOCK_SECTOR_SIZE ==>
      (hi <= pos < hi + chunk <==> hi % BLOCK_SECTOR_SIZE <= pos % BLOCK_SECTOR_SIZE < hi % BLOCK_SECTOR_SIZE + chunk)
    ensures hi / BLOCK_SECTOR_SIZE * BLOCK_SECTOR_SIZE <= hi
  {
  }

  // What the sector of the block held at an offset before the chunk was copied into it.
  lemma RoundSector(secs0: seq<Sector>, used0: seq<bool>, own0: Owners, secs: seq<Sector>, used: seq<bool>, own: Owners,
                    secs1: seq<Sector>, used1: seq<bool>, own1: Owners,
                    i: nat, lo: nat, hi: nat, buf: seq<byte>, r: nat, pos: nat)
    requires Round(secs0, used0, own0, secs, used, own, secs1, used1, own1, i, lo, hi, buf, r)
    requires pos < MAX_LENGTH && pos / BLOCK_SECTOR_SIZE == hi / BLOCK_SECTOR_SIZE
    ensures var goal := DataSlot(hi / BLOCK_SECTOR_SIZE);
      && |secs1| == |secs| == |secs0|
      && (Reach(Tabs(secs0), i, goal) == NONE ==> r !in own0)
      && (if Reach(Tabs(secs), i, goal) != NONE then Reach(Tabs(secs), i, goal) == r && secs1[r] == secs[r]
          else secs1[r] == secs0[r])
  {
    var goal := DataSlot(hi / BLOCK_SECTOR_SIZE);
    RoundKept(secs0, used0, own0, secs, used, own, secs1, used1, own1, i, lo, hi, buf, r, secs1[r]);
    if Reach(Tabs(secs0), i, goal) == NONE {
      FreshSector(secs0, used0, own0, secs1, used1, own1, i, goal);
    }
    if Reach(Tabs(secs), i, goal) == NONE {
      FreshSector(secs, used, own, secs1, used1, own1, i, goal);
    }
  }

  // What becomes of a byte of the block: the copied byte, or what was there before.
  lemma ByteWritten(secs0: seq<Sector>, own0: Owners, secs: seq<Sector>, secs2: seq<Sector>,
                    i: nat, lo: nat, hi: nat, chunk: nat, buf: seq<byte>, r: nat, pos: nat, before: Sector)
    requires |secs2| == |secs| == |secs0| && r < |secs| && pos < MAX_LENGTH && lo <= hi && chunk > 0
    requires pos / BLOCK_SECTOR_SIZE == hi / BLOCK_SECTOR_SIZE && hi % BLOCK_SECTOR_SIZE + chunk <= BLOCK_SECTOR_SIZE
    requires hi == lo || hi % BLOCK_SECTOR_SIZE == 0
    requires ByteOutcome(secs0, own0, secs, i, lo, hi, buf, i, pos) && Patched(before, secs2[r], lo, hi, chunk, buf)
    requires var goal := DataSlot(hi / BLOCK_SECTOR_SIZE);
      && Reach(Tabs(secs2), i, goal) == r && (Reach(Tabs(secs0), i, goal) == NONE ==> r !in own0)
      && (if Reach(Tabs(secs), i, goal) != NONE then Reach(Tabs(secs), i, goal) == r && before == secs[r]
          else before == secs0[r])
    ensures ByteOutcome(secs0, own0, secs2, i, lo, hi + chunk, buf, i, pos)
  {
    SameBlockRange(pos, hi, chunk);
  }

  // Bytes of the block that the chunk goes to.
  lemma RoundHere(secs0: seq<Sector>, used0: seq<bool>, own0: Owners, secs: seq<Sector>, used: seq<bool>, own: Owners,
                  secs1: seq<Sector>, used1: seq<bool>, own1: Owners,
                  i: nat, lo: nat, hi: nat, buf: seq<byte>, r: nat, x: Sector, chunk: nat, pos: nat)
    requires Round(secs0, used0, own0, secs, used, own, secs1, used1, own1, i, lo, hi, buf, r)
    requires Patched(secs1[r], x, lo, hi, chunk, buf) && pos < MAX_LENGTH && chunk > 0
    requires pos / BLOCK_SECTOR_SIZE == hi / BLOCK_SECTOR_SIZE
    ensures ByteOutcome(secs0, own0, secs1[r := x], i, lo, hi + chunk, buf, i, pos)
  {
    RoundSector(secs0, used0, own0, secs, used, own, secs1, used1, own1, i, lo, hi, buf, r, pos);
    RoundKept(secs0, used0, own0, secs, used, own, secs1, used1, own1, i, lo, hi, buf, r, x);
    assert ByteOutcome(secs0, own0, secs, i, lo, hi, buf, i, pos);
    DataWrite(secs1, used1, own1, r, x);
    assert Reach(Tabs(secs1[r := x]), i, DataSlot(hi / BLOCK_SECTOR_SIZE)) == r;
    ByteWritten(secs0, own0, secs, secs1[r := x], i, lo, hi, chunk, buf, r, pos, secs1[r]);
  }

  /** One round of the loop of inode_write_at. */
  lemma RoundDone(secs0: seq<Sector>, used0: seq<bool>, own0: Owners, secs: seq<Sector>, used: seq<bool>, own: Owners,
                  secs1: seq<Sector>, used1: seq<bool>, own1: Owners,
                  i: nat, lo: nat, hi: nat, buf: seq<byte>, r: nat, x: Sector, chunk: nat)
    requires Round(secs0, used0, own0, secs, used, own, secs1, used1, own1, i, lo, hi, buf, r)
    requires Patched(secs1[r], x, lo, hi, chunk, buf) && chunk > 0
    ensures Sound(secs1[r := x], used1, own1) && Wrote(secs0, own0, secs1[r := x], own1, i, lo, hi + chunk, buf)
  {
    hide ByteOutcome, Patched, Sound, Extends, Kept;
    RoundKept(secs0, used0, own0, secs, used, own, secs1, used1, own1, i, lo, hi, buf, r, x);
    DataWrite(secs1, used1, own1, r, x);
    var secs2, hi2 := secs1[r := x], hi + chunk;
    forall j, pos | IsInode(own0, j) && 0 <= pos < MAX_LENGTH
      ensures ByteOutcome(secs0, own0, secs2, i, lo, hi2, buf, j, pos)
    {
      if j == i && pos / BLOCK_SECTOR_SIZE == hi / BLOCK_SECTOR_SIZE {
        RoundHere(secs0, used0, own0, secs, used, own, secs1, used1, own1, i, lo, hi, buf, r, x, chunk, pos);
      } else {
        RoundElsewhere(secs0, used0, own0, secs, used, own, secs1, used1, own1, i, lo, hi, buf, r, x, chunk, j, pos);
      }
    }
  }

  // The block written in this round lies before hi + chunk.
  lemma RoundWithin(secs: seq<Sector>, used: seq<bool>, own: Owners, secs1: seq<Sector>, used1: seq<bool>, own1: Owners,
                    i: nat, hi: nat, r: nat, x: Sector, chunk: nat)
    requires Sound(secs, used, own) && Sound(secs1, used1, own1) && IsInode(own, i) && hi < MAX_LENGTH && chunk > 0
    requires Extends(secs, own, secs1, own1, i, Path(DataSlot(hi / BLOCK_SECTOR_SIZE)))
    requires r in own1 && own1[r] == Ref(i, DataSlot(hi / BLOCK_SECTOR_SIZE)) && r < |secs1|
    requires Within(secs, own, i, hi)
    ensures Within(secs1[r := x], own1, i, hi + chunk)
  {
    var secs2 := secs1[r := x];
    assert r != i;
    forall q | q in own1 ensures BlockWithin(secs2, own1, i, hi + chunk, q) {
      assert Owned(Tabs(secs1), own1, q);
      InodeLength(secs, used, own, secs1, used1, own1, i, Path(DataSlot(hi / BLOCK_SECTOR_SIZE)), own1[q].inode);
      DataSlotInverse(hi / BLOCK_SECTOR_SIZE);
      if q in own { assert BlockWithin(secs, own, i, hi, q); }
    }
    forall j: nat | IsInode(own1, j) && j < |secs2| ensures Length(secs2, j) <= MAX_LENGTH {
      InodeLength(secs, used, own, secs1, used1, own1, i, Path(DataSlot(hi / BLOCK_SECTOR_SIZE)), j);
    }
  }

  lemma InodeLength(secs: seq<Sector>, used: seq<bool>, own: Owners, secs1: seq<Sector>, used1: seq<bool>, own1: Owners,
                    i: nat, filled: set<Slot>, j: nat)
    requires Sound(secs, used, own) && Sound(secs1, used1, own1) && Extends(secs, own, secs1, own1, i, filled)
    requires IsInode(own1, j)
    ensures IsInode(own, j) && j < |secs| && Length(secs1, j) == Length(secs, j)
  {
    assert Owned(Tabs(secs1), own1, j);
    assert j in own;
    assert Owned(Tabs(secs), own, j);
  }

  /** The end of inode_write_at: the length becomes the larger of itself and hi. */
  lemma LengthUpdated(secs0: seq<Sector>, own0: Owners, secs: seq<Sector>, used: seq<bool>, own: Owners, i: nat,
                      lo: nat, hi: nat, buf: seq<byte>)
    requires Sound(secs, used, own) && Wrote(secs0, own0, secs, own, i, lo, hi, buf) && Within(secs, own, i, hi)
    requires IsInode(own0, i) && i < |secs| && Length(secs, i) < hi <= MAX_LENGTH
    ensures var secs' := secs[i := WithWord(secs[i], LENGTH, hi)];
      && Sound(secs', used, own) && Outcome(secs0, own0, secs', i, lo, hi, buf) && Within(secs', own, 0, 0)
      && Length(secs', i) == hi && Kind(secs', i) == Kind(secs, i)
  {
    var secs' := secs[i := WithWord(secs[i], LENGTH, hi)];
    LengthWrite(secs, used, own, i, hi);
    forall j, pos | IsInode(own0, j) && 0 <= pos < MAX_LENGTH
      ensures ByteOutcome(secs0, own0, secs', i, lo, hi, buf, j, pos)
    {
      assert ByteOutcome(secs0, own0, secs, i, lo, hi, buf, j, pos);
      assert IsInode(own, j);
      LengthByte(secs, used, own, i, hi, j, pos);
    }
    forall q | q in own ensures BlockWithin(secs', own, 0, 0, q) { assert BlockWithin(secs, own, i, hi, q); }
  }

  lemma LengthByte(secs: seq<Sector>, used: seq<bool>, own: Owners, i: nat, w: nat, j: nat, pos: nat)
    requires Sound(secs, used, own) && IsInode(own, i) && i < |secs| && w <= NONE && IsInode(own, j) && pos < MAX_LENGTH
    ensures var secs' := secs[i := WithWord(secs[i], LENGTH, w)]; var u := DataSlot(pos / BLOCK_SECTOR_SIZE);
      FileByte(secs', j, pos) == FileByte(secs, j, pos) && Reach(Tabs(secs'), j, u) == Reach(Tabs(secs), j, u)
  {
    LengthWrite(secs, used, own, i, w);
    assert Held(Tabs(secs), own, j, DataSlot(pos / BLOCK_SECTOR_SIZE));
  }

  // Without an update the bound by hi follows from the length.
  lemma LengthEnough(secs: seq<Sector>, own: Owners, i: nat, hi: nat)
    requires Within(secs, own, i, hi) && IsInode(own, i) && i < |secs| && hi <= Length(secs, i)
    ensures Within(secs, own, 0, 0)
  {
    forall q | q in own ensures BlockWithin(secs, own, 0, 0, q) { assert BlockWithin(secs, own, i, hi, q); }
  }

  // The invariant bounds the blocks of every inode.
  lemma WithinAny(secs: seq<Sector>, own: Owners, i: nat, hi: nat)
    requires Within(secs, own, 0, 0)
    ensures Within(secs, own, i, hi)
  {
    forall q | q in own ensures BlockWithin(secs, own, i, hi, q) { assert BlockWithin(secs, own, 0, 0, q); }
  }

  // ---------------------------------------------------------------------------------------
  // Rounds.

  /** The bytes that one round moves: up to the end of the sector, or of the request. */
  function ChunkSize(offset: nat, size: nat): (chunk: nat)
    ensures chunk <= size && offset % BLOCK_SECTOR_SIZE + chunk <= BLOCK_SECTOR_SIZE && (size > 0 ==> chunk > 0)
  {
    var sectorLeft := BLOCK_SECTOR_SIZE - offset % BLOCK_SECTOR_SIZE;
    if size < sectorLeft then size else sectorLeft
  }

  /** The number of rounds, which is the number of blocks that the range of bytes touches. */
  ghost function BlocksTouched(offset: nat, size: nat): nat
    decreases size
  {
    if size == 0 then 0 else 1 + BlocksTouched(offset + ChunkSize(offset, size), size - ChunkSize(offset, size))
  }

  lemma {:induction false} BlocksTouchedIs(offset: nat, size: nat)
    requires size > 0
    ensures BlocksTouched(offset, size) == (offset + size - 1) / BLOCK_SECTOR_SIZE - offset / BLOCK_SECTOR_SIZE + 1
    decreases size
  {
    var chunk := ChunkSize(offset, size);
    if chunk < size {
      BlocksTouchedIs(offset + chunk, size - chunk);
    }
  }

  lemma TouchedInRange(offset: nat, size: nat)
    requires offset + size <= MAX_LENGTH
    ensures offset / BLOCK_SECTOR_SIZE + BlocksTouched(offset, size) <= MAX_BLOCKS
  {
    if size > 0 { BlocksTouchedIs(offset, size); }
  }

  // ---------------------------------------------------------------------------------------
  // Space: exactly the missing slots of the blocks touched are filled, from the lowest free sector on.

  /** The data slots of the blocks that a range of bytes touches. */
  ghost function RangeSlots(offset: nat, size: nat): (ss: seq<Slot>)
    requires offset + size <= MAX_LENGTH
    ensures |ss| == BlocksTouched(offset, size) && DataSlots(ss)
  {
    TouchedInRange(offset, size);
    BlocksData(offset / BLOCK_SECTOR_SIZE, BlocksTouched(offset, size));
    Blocks(offset / BLOCK_SECTOR_SIZE, BlocksTouched(offset, size))
  }

  /** How many sectors a write to the blocks in slots ss has to allocate. */
  ghost function Demand(ws: Tables, i: nat, ss: seq<Slot>): nat {
    |Missing(ws, i, Touched(ss))|
  }

  lemma DemandMono(ws: Tables, i: nat, ss: seq<Slot>, k: nat)
    requires k <= |ss|
    ensures Demand(ws, i, ss[..k]) <= Demand(ws, i, ss)
  {
    TouchedMore(ss, k);
    MissingMono(ws, i, Touched(ss[..k]), Touched(ss));
  }

  // Slot u of inode i after the blocks whose slots are t were written.
  ghost predicate SlotOk(ws0: Tables, ws: Tables, i: nat, t: set<Slot>, u: Slot) {
    if u in t then Reach(ws, i, u) != NONE else Reach(ws, i, u) == Reach(ws0, i, u)
  }

  ghost predicate Slots(ws0: Tables, ws: Tables, i: nat, t: set<Slot>) {
    forall u: Slot {:trigger SlotOk(ws0, ws, i, t, u)} :: u.Valid() ==> SlotOk(ws0, ws, i, t, u)
  }

  /** The sector that the m-th of the blocks gets if it was a hole: the lowest free one after those
      for the blocks before it and for its own tables. */
  ghost predicate Given(ws0: Tables, used0: seq<bool>, ws: Tables, i: nat, ss: seq<Slot>, m: int)
    requires 0 <= m < |ss|
  {
    Reach(ws0, i, ss[m]) == NONE ==>
      var c := Demand(ws0, i, ss[..m + 1]);
      0 < c <= FreeSectors(used0) && Reach(ws, i, ss[m]) == NthFree(used0, c - 1)
  }

  ghost predicate AllGiven(ws0: Tables, used0: seq<bool>, ws: Tables, i: nat, ss: seq<Slot>) {
    forall m {:trigger Given(ws0, used0, ws, i, ss, m)} :: 0 <= m < |ss| ==> Given(ws0, used0, ws, i, ss, m)
  }

  // The free map and the slots after the blocks in slots ss were written.
  ghost predicate Paid(ws0: Tables, used0: seq<bool>, ws: Tables, used: seq<bool>, i: nat, ss: seq<Slot>) {
    && Demand(ws0, i, ss) <= FreeSectors(used0) && used == Taken(used0, Demand(ws0, i, ss))
    && Slots(ws0, ws, i, Touched(ss))
  }

  /** What writing the blocks in slots ss takes from the free map, and where it goes: as many
      sectors as slots on the way were empty, the lowest free ones. */
  ghost predicate Spent(ws0: Tables, used0: seq<bool>, ws: Tables, used: seq<bool>, i: nat, ss: seq<Slot>) {
    Paid(ws0, used0, ws, used, i, ss) && AllGiven(ws0, used0, ws, i, ss)
  }

  lemma SpentNothing(ws: Tables, used: seq<bool>, i: nat)
    ensures Spent(ws, used, ws, used, i, [])
  {
    assert Missing(ws, i, Touched([])) == {};
  }

  /** What index work on the slots p of inode i does to the index and the free map: slot s, the last
      of them that was empty, gets the last of the lowest free sectors that were taken. */
  ghost predicate Filled(ws: Tables, used: seq<bool>, ws': Tables, used': seq<bool>, i: nat, p: set<Slot>, s: Slot) {
    var c := |Missing(ws, i, p)|;
    && c <= FreeSectors(used) && used' == Taken(used, c) && Slots(ws, ws', i, p)
    && (Reach(ws, i, s) == NONE ==> c > 0 && Reach(ws', i, s) == NthFree(used, c - 1))
    && (Reach(ws, i, s) != NONE ==> Reach(ws', i, s) == Reach(ws, i, s))
  }

  lemma FilledAlready(ws: Tables, used: seq<bool>, i: nat, s: Slot)
    requires Reach(ws, i, s) != NONE
    ensures Filled(ws, used, ws, used, i, {s}, s)
  {
    assert Missing(ws, i, {s}) == {};
    assert Taken(used, 0) == used;
  }

  lemma SlotsNow(secs: seq<Sector>, own: Owners, secs': seq<Sector>, own': Owners, i: nat, p: set<Slot>)
    requires Extends(secs, own, secs', own', i, p) && IsInode(own, i)
    requires forall u :: u in p ==> Reach(Tabs(secs'), i, u) != NONE
    ensures Slots(Tabs(secs), Tabs(secs'), i, p)
  {
    forall u: Slot | u.Valid() ensures SlotOk(Tabs(secs), Tabs(secs'), i, p, u) { }
  }

  lemma FilledNow(ws: Tables, used: seq<bool>, ws': Tables, used': seq<bool>, i: nat, s: Slot)
    requires Slots(ws, ws', i, {s}) && FreeSectors(used) > 0
    requires Reach(ws, i, s) == NONE && Reach(ws', i, s) == Lowest(used) < |used| && used' == used[Lowest(used) := true]
    ensures Filled(ws, used, ws', used', i, {s}, s)
  {
    MissingOne(ws, i, s);
    TakenOne(used);
  }

  lemma FilledCost(ws: Tables, used: seq<bool>, ws1: Tables, used1: seq<bool>, i: nat, p: set<Slot>, t: Slot, s: Slot)
    requires Filled(ws, used, ws1, used1, i, p, t) && s !in p && s.Valid() && forall u :: u in p ==> u.Valid()
    ensures |Missing(ws, i, p)| <= FreeSectors(used) && FreeSectors(used1) == FreeSectors(used) - |Missing(ws, i, p)|
    ensures |Missing(ws, i, p + {s})| == |Missing(ws, i, p)| + |Missing(ws1, i, {s})|
    ensures Reach(ws1, i, s) == Reach(ws, i, s)
  {
    assert SlotOk(ws, ws1, i, p, s);
    forall u | u in p ensures Reach(ws1, i, u) != NONE { assert SlotOk(ws, ws1, i, p, u); }
    MissingSplits(ws, ws1, i, p, {s});
  }

  // One slot after others.
  lemma FilledNext(ws: Tables, used: seq<bool>, ws1: Tables, used1: seq<bool>, ws2: Tables, used2: seq<bool>,
                   i: nat, p: set<Slot>, t: Slot, s: Slot)
    requires Filled(ws, used, ws1, used1, i, p, t) && Filled(ws1, used1, ws2, used2, i, {s}, s)
    requires s !in p && s.Valid() && forall u :: u in p ==> u.Valid()
    ensures Filled(ws, used, ws2, used2, i, p + {s}, s)
  {
    FilledCost(ws, used, ws1, used1, i, p, t, s);
    SlotsStep(ws, ws1, ws2, i, p, {s});
    TakenNext(used, |Missing(ws, i, p)|, |Missing(ws1, i, {s})|);
  }

  lemma TakenNext(used: seq<bool>, a: nat, b: nat)
    requires a + b <= FreeSectors(used)
    ensures Taken(Taken(used, a), b) == Taken(used, a + b)
    ensures b > 0 ==> NthFree(Taken(used, a), b - 1) == NthFree(used, a + b - 1)
  {
    TakenAdd(used, a, b);
    if b > 0 { NthAfter(used, a, b - 1); }
  }

  // Copying data into a sector changes nothing of this.
  lemma FilledSame(ws: Tables, used: seq<bool>, ws1: Tables, used1: seq<bool>, ws2: Tables, i: nat, p: set<Slot>,
                   s: Slot)
    requires Filled(ws, used, ws1, used1, i, p, s) && s.Valid()
    requires forall u: Slot {:trigger Reach(ws2, i, u)} :: u.Valid() ==> Reach(ws2, i, u) == Reach(ws1, i, u)
    ensures Filled(ws, used, ws2, used1, i, p, s)
  {
    forall u: Slot | u.Valid() ensures SlotOk(ws, ws2, i, p, u) { assert SlotOk(ws, ws1, i, p, u); }
  }

  lemma DemandStep(ws0: Tables, ws: Tables, i: nat, ss: seq<Slot>, s: Slot)
    requires Slots(ws0, ws, i, Touched(ss)) && DataSlots(ss) && s.Valid() && s.IsData()
    ensures Demand(ws0, i, ss + [s]) == Demand(ws0, i, ss) + |Missing(ws, i, Path(s))|
  {
    var t, p := Touched(ss), Path(s);
    TouchedNext(ss, s);
    TouchedSlots(ss);
    PathSlots(s);
    forall u | u in t ensures Reach(ws, i, u) != NONE { assert SlotOk(ws0, ws, i, t, u); }
    forall u | u in p && u !in t ensures Reach(ws, i, u) == Reach(ws0, i, u) { assert SlotOk(ws0, ws, i, t, u); }
    MissingSplits(ws0, ws, i, t, p);
  }

  lemma SlotsStep(ws0: Tables, ws: Tables, ws': Tables, i: nat, t: set<Slot>, p: set<Slot>)
    requires Slots(ws0, ws, i, t) && Slots(ws, ws', i, p)
    ensures Slots(ws0, ws', i, t + p)
  {
    forall u: Slot | u.Valid() ensures SlotOk(ws0, ws', i, t + p, u) {
      assert SlotOk(ws0, ws, i, t, u) && SlotOk(ws, ws', i, p, u);
    }
  }

  // Blocks written before keep the sectors they got.
  lemma GivenBefore(ws0: Tables, used0: seq<bool>, ws: Tables, ws': Tables, i: nat, ss: seq<Slot>, s: Slot, m: nat)
    requires m < |ss| && DataSlots(ss) && s.Valid() && s.IsData() && s !in ss
    requires Given(ws0, used0, ws, i, ss, m) && Slots(ws, ws', i, Path(s))
    ensures Given(ws0, used0, ws', i, ss + [s], m)
  {
    PathSlots(s);
    assert ss[m] in ss && (ss + [s])[m] == ss[m] && (ss + [s])[..m + 1] == ss[..m + 1];
    assert SlotOk(ws, ws', i, Path(s), ss[m]);
  }

  // The block just written.
  lemma GivenNow(ws0: Tables, used0: seq<bool>, ws: Tables, used: seq<bool>, ws': Tables, used': seq<bool>,
                 i: nat, ss: seq<Slot>, s: Slot, a: nat)
    requires Reach(ws, i, s) == Reach(ws0, i, s)
    requires Demand(ws0, i, ss + [s]) == a + |Missing(ws, i, Path(s))| <= FreeSectors(used0)
    requires used == Taken(used0, a) && Filled(ws, used, ws', used', i, Path(s), s)
    ensures Given(ws0, used0, ws', i, ss + [s], |ss|)
  {
    var b := |Missing(ws, i, Path(s))|;
    assert (ss + [s])[|ss|] == s && (ss + [s])[..|ss| + 1] == ss + [s];
    if b > 0 { NthAfter(used0, a, b - 1); }
  }

  lemma StillHole(ws0: Tables, ws: Tables, i: nat, ss: seq<Slot>, s: Slot)
    requires Slots(ws0, ws, i, Touched(ss)) && DataSlots(ss) && s.Valid() && s.IsData() && s !in ss
    ensures Reach(ws, i, s) == Reach(ws0, i, s)
  {
    TouchedSlots(ss);
    assert SlotOk(ws0, ws, i, Touched(ss), s);
  }

  lemma AllGivenStep(ws0: Tables, used0: seq<bool>, ws: Tables, ws': Tables, i: nat, ss: seq<Slot>, s: Slot)
    requires AllGiven(ws0, used0, ws, i, ss) && DataSlots(ss) && s.Valid() && s.IsData() && s !in ss
    requires Slots(ws, ws', i, Path(s)) && Given(ws0, used0, ws', i, ss + [s], |ss|)
    ensures AllGiven(ws0, used0, ws', i, ss + [s])
  {
    var more := ss + [s];
    forall m | 0 <= m < |more| ensures Given(ws0, used0, ws', i, more, m) {
      if m < |ss| {
        assert Given(ws0, used0, ws, i, ss, m);
        GivenBefore(ws0, used0, ws, ws', i, ss, s, m);
      }
    }
  }

  lemma FreeMapStep(ws0: Tables, used0: seq<bool>, ws: Tables, i: nat, ss: seq<Slot>, s: Slot)
    requires Slots(ws0, ws, i, Touched(ss)) && DataSlots(ss) && s.Valid() && s.IsData()
    requires Demand(ws0, i, ss + [s]) <= FreeSectors(used0)
    ensures var a, b := Demand(ws0, i, ss), |Missing(ws, i, Path(s))|;
      a + b <= FreeSectors(used0) && Taken(Taken(used0, a), b) == Taken(used0, Demand(ws0, i, ss + [s]))
  {
    DemandStep(ws0, ws, i, ss, s);
    TakenAdd(used0, Demand(ws0, i, ss), |Missing(ws, i, Path(s))|);
  }

  lemma SlotsNext(ws0: Tables, ws: Tables, ws': Tables, i: nat, ss: seq<Slot>, s: Slot)
    requires Slots(ws0, ws, i, Touched(ss)) && Slots(ws, ws', i, Path(s))
    ensures Slots(ws0, ws', i, Touched(ss + [s]))
  {
    SlotsStep(ws0, ws, ws', i, Touched(ss), Path(s));
    TouchedNext(ss, s);
  }

  lemma PaidStep(ws0: Tables, used0: seq<bool>, ws: Tables, used: seq<bool>, ws': Tables, used': seq<bool>,
                 i: nat, ss: seq<Slot>, s: Slot)
    requires Paid(ws0, used0, ws, used, i, ss) && DataSlots(ss) && s.Valid() && s.IsData()
    requires Demand(ws0, i, ss + [s]) <= FreeSectors(used0) && Filled(ws, used, ws', used', i, Path(s), s)
    ensures Paid(ws0, used0, ws', used', i, ss + [s])
  {
    FreeMapStep(ws0, used0, ws, i, ss, s);
    SlotsNext(ws0, ws, ws', i, ss, s);
  }

  lemma GivenNext(ws0: Tables, used0: seq<bool>, ws: Tables, used: seq<bool>, ws': Tables, used': seq<bool>,
                  i: nat, ss: seq<Slot>, s: Slot)
    requires Paid(ws0, used0, ws, used, i, ss) && DataSlots(ss) && s.Valid() && s.IsData() && s !in ss
    requires Demand(ws0, i, ss + [s]) <= FreeSectors(used0) && Filled(ws, used, ws', used', i, Path(s), s)
    ensures Given(ws0, used0, ws', i, ss + [s], |ss|)
  {
    DemandStep(ws0, ws, i, ss, s);
    StillHole(ws0, ws, i, ss, s);
    GivenNow(ws0, used0, ws, used, ws', used', i, ss, s, Demand(ws0, i, ss));
  }

  lemma SpentStep(ws0: Tables, used0: seq<bool>, ws: Tables, used: seq<bool>, ws': Tables, used': seq<bool>,
                  i: nat, ss: seq<Slot>, s: Slot)
    requires Spent(ws0, used0, ws, used, i, ss) && DataSlots(ss) && s.Valid() && s.IsData() && s !in ss
    requires Demand(ws0, i, ss + [s]) <= FreeSectors(used0) && Filled(ws, used, ws', used', i, Path(s), s)
    ensures Spent(ws0, used0, ws', used', i, ss + [s])
  {
    PaidStep(ws0, used0, ws, used, ws', used', i, ss, s);
    GivenNext(ws0, used0, ws, used, ws', used', i, ss, s);
    AllGivenStep(ws0, used0, ws, ws', i, ss, s);
  }

  // Nor does setting the length.
  lemma SpentSame(ws0: Tables, used0: seq<bool>, ws: Tables, used: seq<bool>, ws': Tables, i: nat, ss: seq<Slot>)
    requires Spent(ws0, used0, ws, used, i, ss) && DataSlots(ss)
    requires forall u: Slot {:trigger Reach(ws', i, u)} :: u.Valid() ==> Reach(ws', i, u) == Reach(ws, i, u)
    ensures Spent(ws0, used0, ws', used, i, ss)
  {
    forall u: Slot | u.Valid()
      ensures SlotOk(ws0, ws', i, Touched(ss), u)
    {
      assert SlotOk(ws0, ws, i, Touched(ss), u);
    }
    forall m | 0 <= m < |ss| ensures Given(ws0, used0, ws', i, ss, m) { assert Given(ws0, used0, ws, i, ss, m); }
  }

  // ---------------------------------------------------------------------------------------
  // The rounds of a write pay one block at a time.

  lemma RoundFilled(secs: seq<Sector>, used: seq<bool>, secs1: seq<Sector>, used1: seq<bool>, own1: Owners,
                    i: nat, hi: nat, r: nat, x: Sector)
    requires Sound(secs1, used1, own1) && IsInode(own1, i) && hi < MAX_LENGTH
    requires r in own1 && own1[r].slot.IsData() && r < |secs1|
    requires var s := DataSlot(hi / BLOCK_SECTOR_SIZE); Filled(Tabs(secs), used, Tabs(secs1), used1, i, Path(s), s)
    ensures var s := DataSlot(hi / BLOCK_SECTOR_SIZE);
        Filled(Tabs(secs), used, Tabs(secs1[r := x]), used1, i, Path(s), s)
  {
    var s := DataSlot(hi / BLOCK_SECTOR_SIZE);
    DataWrite(secs1, used1, own1, r, x);
    FilledSame(Tabs(secs), used, Tabs(secs1), used1, Tabs(secs1[r := x]), i, Path(s), s);
  }

  lemma NextOf(all: seq<Slot>, k: nat)
    requires k < |all| && DataSlots(all)
    ensures all[..k + 1] == all[..k] + [all[k]] && all[k] !in all[..k] && DataSlots(all[..k])
  {
  }

  // Enough sectors are free for the next block.
  lemma RoundPays(ws0: Tables, used0: seq<bool>, ws: Tables, used: seq<bool>, i: nat, k: nat, all: seq<Slot>)
    requires k < |all| && DataSlots(all) && Demand(ws0, i, all) <= FreeSectors(used0)
    requires Spent(ws0, used0, ws, used, i, all[..k])
    ensures |Missing(ws, i, Path(all[k]))| <= FreeSectors(used)
  {
    NextOf(all, k);
    DemandMono(ws0, i, all, k + 1);
    DemandStep(ws0, ws, i, all[..k], all[k]);
  }

  lemma RoundPaid(ws0: Tables, used0: seq<bool>, ws: Tables, used: seq<bool>, ws': Tables, used': seq<bool>,
                  i: nat, k: nat, all: seq<Slot>)
    requires k < |all| && DataSlots(all) && Demand(ws0, i, all) <= FreeSectors(used0)
    requires Spent(ws0, used0, ws, used, i, all[..k]) && Filled(ws, used, ws', used', i, Path(all[k]), all[k])
    ensures Spent(ws0, used0, ws', used', i, all[..k + 1])
  {
    NextOf(all, k);
    DemandMono(ws0, i, all, k + 1);
    SpentStep(ws0, used0, ws, used, ws', used', i, all[..k], all[k]);
  }

  // Bytes hi up to hi + size are the blocks in slots all[k..].
  ghost predicate Ahead(all: seq<Slot>, k: nat, hi: nat, size: nat) {
    && DataSlots(all) && hi + size <= MAX_LENGTH && k + BlocksTouched(hi, size) == |all|
    && (size > 0 ==> all[k..] == RangeSlots(hi, size))
  }

  lemma AheadFirst(offset: nat, size: nat)
    requires offset + size <= MAX_LENGTH
    ensures Ahead(RangeSlots(offset, size), 0, offset, size)
  {
    assert RangeSlots(offset, size)[0..] == RangeSlots(offset, size);
  }

  lemma AheadNow(all: seq<Slot>, k: nat, hi: nat, size: nat)
    requires Ahead(all, k, hi, size) && size > 0
    ensures hi < MAX_LENGTH && k < |all| && all[k] == DataSlot(hi / BLOCK_SECTOR_SIZE)
  {
    assert all[k] == all[k..][0];
  }

  lemma NextBlock(hi: nat, size: nat)
    requires ChunkSize(hi, size) < size
    ensures (hi + ChunkSize(hi, size)) / BLOCK_SECTOR_SIZE == hi / BLOCK_SECTOR_SIZE + 1
    ensures (hi + ChunkSize(hi, size)) % BLOCK_SECTOR_SIZE == 0
  {
  }

  // The blocks after the first are those of the rest of the range.
  lemma RangeRest(hi: nat, size: nat)
    requires hi + size <= MAX_LENGTH && ChunkSize(hi, size) < size
    ensures var chunk := ChunkSize(hi, size); RangeSlots(hi, size)[1..] == RangeSlots(hi + chunk, size - chunk)
  {
    NextBlock(hi, size);
  }

  lemma AheadNext(all: seq<Slot>, k: nat, hi: nat, size: nat)
    requires Ahead(all, k, hi, size) && size > 0
    ensures Ahead(all, k + 1, hi + ChunkSize(hi, size), size - ChunkSize(hi, size))
  {
    if ChunkSize(hi, size) < size {
      RangeRest(hi, size);
      assert all[k + 1..] == all[k..][1..];
    }
  }

  /** `size` bytes from byte hi on remain of a write of buf at lo that began in state 0. */
  ghost predicate Writing(secs0: seq<Sector>, used0: seq<bool>, own0: Owners,
                          secs: seq<Sector>, used: seq<bool>, own: Owners,
                          i: nat, buf: seq<byte>, lo: nat, hi: nat, size: nat) {
    && Sound(secs0, used0, own0) && IsInode(own0, i) && lo <= hi && hi + size == lo + |buf| <= MAX_LENGTH
    && Sound(secs, used, own) && Wrote(secs0, own0, secs, own, i, lo, hi, buf) && Within(secs, own, i, hi)
    && (size > 0 ==> hi == lo || hi % BLOCK_SECTOR_SIZE == 0)
  }

  lemma WritingStart(secs: seq<Sector>, used: seq<bool>, own: Owners, i: nat, buf: seq<byte>, lo: nat)
    requires Inv(secs, used, own) && IsInode(own, i) && lo + |buf| <= MAX_LENGTH
    ensures Writing(secs, used, own, secs, used, own, i, buf, lo, lo, |buf|)
  {
    WroteNothing(secs, used, own, i, lo, buf);
    WithinAny(secs, own, i, lo);
  }

  lemma WritingNow(secs0: seq<Sector>, used0: seq<bool>, own0: Owners,
                   secs: seq<Sector>, used: seq<bool>, own: Owners,
                   i: nat, buf: seq<byte>, lo: nat, hi: nat, size: nat)
    requires Writing(secs0, used0, own0, secs, used, own, i, buf, lo, hi, size) && size > 0
    ensures Sound(secs, used, own) && IsInode(own, i) && hi < MAX_LENGTH
    ensures lo <= hi && hi - lo + ChunkSize(hi, size) <= |buf|
  {
  }

  lemma WritingEnd(secs0: seq<Sector>, used0: seq<bool>, own0: Owners,
                   secs: seq<Sector>, used: seq<bool>, own: Owners, i: nat, buf: seq<byte>, lo: nat, hi: nat)
    requires Writing(secs0, used0, own0, secs, used, own, i, buf, lo, hi, 0)
    ensures hi == lo + |buf|
  {
  }

  lemma WritingInodes(secs0: seq<Sector>, used0: seq<bool>, own0: Owners,
                      secs: seq<Sector>, used: seq<bool>, own: Owners, i: nat, buf: seq<byte>, lo: nat, hi: nat)
    requires Writing(secs0, used0, own0, secs, used, own, i, buf, lo, hi, 0)
    ensures |secs| == |secs0| && IsInode(own, i) && i < |secs|
    ensures forall j :: IsInode(own, j) <==> IsInode(own0, j)
  {
    assert Owned(Tabs(secs), own, i);
  }

  // The index work of one round.
  ghost predicate Indexed(secs: seq<Sector>, own: Owners, secs1: seq<Sector>, used1: seq<bool>, own1: Owners,
                          i: nat, hi: nat, r: nat)
    requires hi < MAX_LENGTH
  {
    var goal := DataSlot(hi / BLOCK_SECTOR_SIZE);
    && Sound(secs1, used1, own1) && Extends(secs, own, secs1, own1, i, Path(goal))
    && r == Reach(Tabs(secs1), i, goal) && r < |secs1| && (Reach(Tabs(secs), i, goal) != NONE ==> secs1 == secs)
  }

  lemma IndexedRound(secs0: seq<Sector>, used0: seq<bool>, own0: Owners,
                     secs: seq<Sector>, used: seq<bool>, own: Owners,
                     secs1: seq<Sector>, used1: seq<bool>, own1: Owners,
                     i: nat, buf: seq<byte>, lo: nat, hi: nat, size: nat, r: nat)
    requires Writing(secs0, used0, own0, secs, used, own, i, buf, lo, hi, size) && size > 0
    requires Indexed(secs, own, secs1, used1, own1, i, hi, r)
    ensures Round(secs0, used0, own0, secs, used, own, secs1, used1, own1, i, lo, hi, buf, r)
  {
  }

  // The index work and the copy of one round.
  lemma WritingRound(secs0: seq<Sector>, used0: seq<bool>, own0: Owners,
                     secs: seq<Sector>, used: seq<bool>, own: Owners,
                     secs1: seq<Sector>, used1: seq<bool>, own1: Owners,
                     i: nat, buf: seq<byte>, lo: nat, hi: nat, size: nat, r: nat, x: Sector)
    requires Writing(secs0, used0, own0, secs, used, own, i, buf, lo, hi, size) && size > 0
    requires Indexed(secs, own, secs1, used1, own1, i, hi, r)
    requires Patched(secs1[r], x, lo, hi, ChunkSize(hi, size), buf)
    ensures var chunk := ChunkSize(hi, size);
      Writing(secs0, used0, own0, secs1[r := x], used1, own1, i, buf, lo, hi + chunk, size - chunk)
    ensures r in own1 && own1[r].slot.IsData() && IsInode(own1, i)
  {
    hide Sound, Wrote, Within, Extends, Patched, Round, Kept, Path, Reach;
    var chunk := ChunkSize(hi, size);
    WritingNow(secs0, used0, own0, secs, used, own, i, buf, lo, hi, size);
    IndexedRound(secs0, used0, own0, secs, used, own, secs1, used1, own1, i, buf, lo, hi, size, r);
    RoundKept(secs0, used0, own0, secs, used, own, secs1, used1, own1, i, lo, hi, buf, r, x);
    RoundDone(secs0, used0, own0, secs, used, own, secs1, used1, own1, i, lo, hi, buf, r, x, chunk);
    RoundWithin(secs, used, own, secs1, used1, own1, i, hi, r, x, chunk);
    if chunk < size { NextBlock(hi, size); }
  }

  /** Of the blocks in slots all, which need no more sectors than were free, the first k have been
      written, and bytes hi up to hi + size are the others. */
  ghost predicate Paying(ws0: Tables, used0: seq<bool>, ws: Tables, used: seq<bool>,
                         i: nat, all: seq<Slot>, k: nat, hi: nat, size: nat) {
    && Ahead(all, k, hi, size) && k <= |all| && Demand(ws0, i, all) <= FreeSectors(used0)
    && Spent(ws0, used0, ws, used, i, all[..k])
  }

  lemma PayingStart(ws: Tables, used: seq<bool>, i: nat, offset: nat, size: nat)
    requires offset + size <= MAX_LENGTH && Demand(ws, i, RangeSlots(offset, size)) <= FreeSectors(used)
    ensures Paying(ws, used, ws, used, i, RangeSlots(offset, size), 0, offset, size)
  {
    AheadFirst(offset, size);
    SpentNothing(ws, used, i);
    assert RangeSlots(offset, size)[..0] == [];
  }

  lemma PayingNow(ws0: Tables, used0: seq<bool>, ws: Tables, used: seq<bool>,
                  i: nat, all: seq<Slot>, k: nat, hi: nat, size: nat)
    requires Paying(ws0, used0, ws, used, i, all, k, hi, size) && size > 0
    ensures hi < MAX_LENGTH && |Missing(ws, i, Path(DataSlot(hi / BLOCK_SECTOR_SIZE)))| <= FreeSectors(used)
  {
    AheadNow(all, k, hi, size);
    RoundPays(ws0, used0, ws, used, i, k, all);
  }

  lemma PayingNext(ws0: Tables, used0: seq<bool>, ws: Tables, used: seq<bool>, ws': Tables, used': seq<bool>,
                   i: nat, all: seq<Slot>, k: nat, hi: nat, size: nat, s: Slot)
    requires Paying(ws0, used0, ws, used, i, all, k, hi, size) && size > 0
    requires hi < MAX_LENGTH && s == DataSlot(hi / BLOCK_SECTOR_SIZE)
    requires Filled(ws, used, ws', used', i, Path(s), s)
    ensures var chunk := ChunkSize(hi, size); Paying(ws0, used0, ws', used', i, all, k + 1, hi + chunk, size - chunk)
  {
    AheadNow(all, k, hi, size);
    RoundPaid(ws0, used0, ws, used, ws', used', i, k, all);
    AheadNext(all, k, hi, size);
  }

  lemma PayingEnd(ws0: Tables, used0: seq<bool>, ws: Tables, used: seq<bool>, i: nat, all: seq<Slot>, k: nat, hi: nat)
    requires Paying(ws0, used0, ws, used, i, all, k, hi, 0)
    ensures Spent(ws0, used0, ws, used, i, all)
  {
    assert all[..k] == all;
  }
}
