/** byte_to_sector of src/filesys/inode.c on a disk that runs full: what it has taken from the free map
    when it gives up, and whether it has marked the inode's block dirty if it changed it. */
module InodeFull {
  import opened InodeIndex
  import opened InodeState
  import opened IndexTable
  import opened Bytes
  import opened Disk
  import Cache

  // How far a look-up has come: sectors taken, and whether free_map_allocate has failed.
  datatype Progress = Progress(taken: nat, full: bool)

  // One slot on the way: nothing happens to one that is filled, nor after a failure.
  function Fill(p: Progress, hole: bool, free: nat): Progress {
    if p.full || !hole then p
    else if p.taken < free then Progress(p.taken + 1, false)
    else Progress(p.taken, true)
  }

  // What a look-up with write set ends with.
  datatype Lookup = Lookup(noSpace: bool, taken: nat, inodeChanged: bool, marked: bool)

  ghost predicate Hole(ws: Tables, i: nat, s: Slot) { Reach(ws, i, s) == NONE }

  /** The slot on the way to s that lies in the inode itself. */
  ghost function OwnSlot(s: Slot): Slot {
    match s
    case IndirectData(_) => Indirect
    case DoubleData(_, _) => Double
    case _ => s
  }

  ghost function Finish(own: Progress, end: Progress): Lookup {
    Lookup(end.full, end.taken, own.taken > 0, !end.full)
  }

  /** byte_to_sector with write set.  The inode's word is stored as soon as its sector is allocated; the
      inode's block is marked dirty at the end, and only if the look-up did not fail. */
  ghost function LookUp(ws: Tables, used: seq<bool>, i: nat, s: Slot): Lookup {
    var free, own := FreeSectors(used), Fill(Progress(0, false), Hole(ws, i, OwnSlot(s)), FreeSectors(used));
    match s
    case IndirectData(_) => Finish(own, Fill(own, Hole(ws, i, s), free))
    case DoubleData(j, _) => Finish(own, Fill(Fill(own, Hole(ws, i, DoubleTable(j)), free), Hole(ws, i, s), free))
    case _ => Finish(own, own)
  }

  lemma PathCost(ws: Tables, i: nat, s: Slot)
    requires s.IsData()
    ensures |Missing(ws, i, Path(s))| ==
      match s
      case IndirectData(_) => Cost(ws, i, Indirect) + Cost(ws, i, s)
      case DoubleData(j, _) => Cost(ws, i, Double) + Cost(ws, i, DoubleTable(j)) + Cost(ws, i, s)
      case _ => Cost(ws, i, s)
  {
    match s
    case IndirectData(_) => MissingTwo(ws, i, Indirect, s);
    case DoubleData(j, _) => MissingThree(ws, i, Double, DoubleTable(j), s);
    case _ => MissingOne(ws, i, s);
  }

  lemma MissingTwo(ws: Tables, i: nat, a: Slot, b: Slot)
    requires a != b
    ensures |Missing(ws, i, {a, b})| == Cost(ws, i, a) + Cost(ws, i, b)
  {
    MissingMore(ws, i, a, {b});
    MissingOne(ws, i, b);
    assert {a} + {b} == {a, b};
  }

  lemma MissingThree(ws: Tables, i: nat, a: Slot, b: Slot, c: Slot)
    requires a != b && a != c && b != c
    ensures |Missing(ws, i, {a, b, c})| == Cost(ws, i, a) + Cost(ws, i, b) + Cost(ws, i, c)
  {
    MissingMore(ws, i, a, {b, c});
    MissingTwo(ws, i, b, c);
    assert {a} + {b, c} == {a, b, c};
  }

  /** The look-up fails exactly if fewer sectors are free than slots on the way are empty.  It takes one
      for each of those, and when it fails it has taken every sector there was. */
  lemma LookUpTakes(ws: Tables, used: seq<bool>, i: nat, s: Slot)
    requires s.IsData()
    ensures var l, need := LookUp(ws, used, i, s), |Missing(ws, i, Path(s))|;
      (l.noSpace <==> FreeSectors(used) < need) && l.taken == if l.noSpace then FreeSectors(used) else need
  {
    PathCost(ws, i, s);
  }

  /** A look-up that changes the inode's block marks it dirty, except in one case: the table that the
      inode was missing has used up the last sectors, so that a later one cannot be had. */
  lemma MarksWhatItChanges(ws: Tables, used: seq<bool>, i: nat, s: Slot)
    requires s.IsData()
    ensures var l := LookUp(ws, used, i, s);
      (l.inodeChanged ==> l.marked)
      <==> !(Reach(ws, i, OwnSlot(s)) == NONE && 0 < FreeSectors(used) < |Missing(ws, i, Path(s))|)
  {
    PathCost(ws, i, s);
    LookUpTakes(ws, used, i, s);
  }

  lemma OwnSlotIs(secs: seq<Sector>, i: nat, s: Slot)
    requires i < |secs| && s.Valid() && s.IsData()
    ensures var own := OwnSlot(s); Place(own) < WORDS && Reach(Tabs(secs), i, own) == WordAt(secs[i], Place(own))
  {
  }

  /** The look-up has stored sector r in the inode's block, the block v of the cache, and the block is
      evicted later.  The cache shows the word until then.  Afterwards the slot is a hole again,
      exactly if the look-up failed and nothing else had marked the block dirty; r stays taken. */
  lemma LostWhenEvicted(ws: Tables, used: seq<bool>, i: nat, s: Slot, r: nat, next: nat,
                        blocks: seq<Cache.Block>, buffer: seq<nat>, free: seq<nat>, disk: seq<Sector>, v: nat)
    requires s.Valid() && s.IsData() && r < NONE && LookUp(ws, used, i, s).inodeChanged
    requires Cache.Inv(blocks, buffer, free, disk) && v in buffer && !blocks[v].Pinned()
    requires blocks[v].sector == i && blocks[v].valid && WordAt(blocks[v].data, Place(OwnSlot(s))) == NONE
    requires Cache.Uncached(blocks, buffer, next) && next < |disk| && next < Cache.NO_SECTOR
    ensures Place(OwnSlot(s)) < WORDS
    ensures var data := WithWord(blocks[v].data, Place(OwnSlot(s)), r);
      var changed := blocks[v].(data := data, dirty := blocks[v].dirty || LookUp(ws, used, i, s).marked);
      var evicted := changed.(sector := next, valid := false, dirty := false);
      && Reach(Tabs(Cache.View(blocks[v := changed], buffer, disk)), i, OwnSlot(s)) == r
      && Reach(Tabs(Cache.View(blocks[v := evicted], buffer, Cache.WrittenBack(changed, disk))), i, OwnSlot(s))
         == if FreeSectors(used) < |Missing(ws, i, Path(s))| && !blocks[v].dirty then NONE else r
  {
    hide Reach, Missing, Tabs, WordAt, WithWord;
    var view, k := Cache.View(blocks, buffer, disk), Place(OwnSlot(s));
    LookUpTakes(ws, used, i, s);
    Cache.ContentCached(blocks, buffer, free, disk, v);
    OwnSlotIs(view, i, s);
    var data := WithWord(blocks[v].data, k, r);
    WordRoundTrip(blocks[v].data, k, r, k);
    OwnSlotIs(view[i := data], i, s);
    Cache.ChangedThenEvicted(blocks, buffer, free, disk, v, data, LookUp(ws, used, i, s).marked, next);
  }

  /** An empty inode on a disk with one free sector: a write to an indirect block takes that sector for
      the table, changes the inode's block and leaves it unmarked. */
  lemma FullDiskLosesTable()
    ensures var inode: seq<nat> := seq(WORDS, _ => NONE);
      LookUp([inode, inode], [true, false], 0, IndirectData(0)) == Lookup(true, 1, true, false)
  {
    var used := [true, false];
    assert used[..1] == [true] && [true][..0] == [];
    assert FreeSectors(used) == 1;
  }
}
