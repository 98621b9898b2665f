/** The file system under src/filesys/inode.c: sectors, the map of used sectors, and what holds
    between operations. */
module InodeState {
  import opened Bytes
  import opened Disk
  import opened IndexTable
  import opened InodeIndex

  // ---------------------------------------------------------------------------------------
  // Sectors as tables of words.

  ghost function Words(s: Sector): (r: seq<nat>)
    ensures |r| == WORDS
  {
    seq(WORDS, k requires 0 <= k < WORDS => WordAt(s, k))
  }

  ghost function Tabs(secs: seq<Sector>): (r: Tables)
    ensures |r| == |secs|
  {
    seq(|secs|, t requires 0 <= t < |secs| => Words(secs[t]))
  }

  lemma WordsWith(s: Sector, k: nat, w: nat)
    requires k < WORDS && w <= NONE
    ensures Words(WithWord(s, k, w)) == Words(s)[k := w]
  {
    forall j | 0 <= j < WORDS ensures Words(WithWord(s, k, w))[j] == Words(s)[k := w][j] {
      WordRoundTrip(s, k, w, j);
    }
  }

  lemma TabsWith(secs: seq<Sector>, t: nat, s: Sector)
    requires t < |secs|
    ensures Tabs(secs[t := s]) == Tabs(secs)[t := Words(s)]
  {
  }

  // ---------------------------------------------------------------------------------------
  // Free sectors.

  ghost function FreeSectors(used: seq<bool>): nat {
    if used == [] then 0 else FreeSectors(used[..|used| - 1]) + (if used[|used| - 1] then 0 else 1)
  }

  lemma {:induction false} OneTaken(used: seq<bool>, r: nat)
    requires r < |used| && !used[r]
    ensures FreeSectors(used[r := true]) == FreeSectors(used) - 1
    decreases |used|
  {
    var n := |used| - 1;
    if r < n {
      OneTaken(used[..n], r);
      assert used[r := true][..n] == used[..n][r := true];
    } else {
      assert used[r := true][..n] == used[..n];
    }
  }

  lemma {:induction false} SomeFree(used: seq<bool>)
    requires FreeSectors(used) > 0
    ensures exists r :: 0 <= r < |used| && !used[r]
    decreases |used|
  {
    var n := |used| - 1;
    if used[n] {
      SomeFree(used[..n]);
      var r :| 0 <= r < n && !used[..n][r];
      assert !used[r];
    }
  }

  /** The lowest free sector. */
  ghost function Lowest(used: seq<bool>): (r: nat)
    ensures r <= |used| && (r < |used| ==> !used[r]) && forall k :: 0 <= k < r ==> used[k]
  {
    if used == [] || !used[0] then 0 else 1 + Lowest(used[1..])
  }

  lemma LowestIs(used: seq<bool>, r: nat)
    requires r < |used| && !used[r] && forall k :: 0 <= k < r ==> used[k]
    ensures Lowest(used) == r
  {
  }

  lemma LowestFree(used: seq<bool>)
    requires FreeSectors(used) > 0
    ensures Lowest(used) < |used|
  {
    SomeFree(used);
    var r :| 0 <= r < |used| && !used[r];
  }

  /** The free map after the k lowest free sectors were taken. */
  ghost function Taken(used: seq<bool>, k: nat): (r: seq<bool>)
    requires k <= FreeSectors(used)
    ensures |r| == |used| && FreeSectors(r) == FreeSectors(used) - k
    decreases k
  {
    if k == 0 then used
    else
      LowestFree(used);
      OneTaken(used, Lowest(used));
      Taken(used[Lowest(used) := true], k - 1)
  }

  /** The k-th lowest free sector, counted from 0. */
  ghost function NthFree(used: seq<bool>, k: nat): (r: nat)
    requires k < FreeSectors(used)
    ensures r < |used|
  {
    LowestFree(Taken(used, k));
    Lowest(Taken(used, k))
  }

  lemma TakenOne(used: seq<bool>)
    requires FreeSectors(used) > 0
    ensures var r := Lowest(used); r < |used| && Taken(used, 1) == used[r := true] && NthFree(used, 0) == r
  {
    LowestFree(used);
    OneTaken(used, Lowest(used));
    assert Taken(used, 1) == Taken(used[Lowest(used) := true], 0);
  }

  lemma {:induction false} TakenAdd(used: seq<bool>, a: nat, b: nat)
    requires a + b <= FreeSectors(used)
    ensures Taken(Taken(used, a), b) == Taken(used, a + b)
    decreases a
  {
    hide FreeSectors, Lowest;
    if a > 0 {
      LowestFree(used);
      OneTaken(used, Lowest(used));
      TakenAdd(used[Lowest(used) := true], a - 1, b);
    }
  }

  lemma NthAfter(used: seq<bool>, a: nat, b: nat)
    requires a + b < FreeSectors(used)
    ensures NthFree(Taken(used, a), b) == NthFree(used, a + b)
  {
    TakenAdd(used, a, b);
  }

  // ---------------------------------------------------------------------------------------
  // The invariant.

  const MAX_LENGTH: nat := MAX_BLOCKS * BLOCK_SECTOR_SIZE

  ghost function Length(secs: seq<Sector>, i: nat): nat
    requires i < |secs|
  {
    WordAt(secs[i], LENGTH)
  }

  // is_dir: 0 for a file, 1 for a directory.
  ghost function Kind(secs: seq<Sector>, i: nat): nat
    requires i < |secs|
  {
    WordAt(secs[i], IS_DIR)
  }

  // Inode q is as long as before and of the same kind.
  ghost predicate SameHead(secs: seq<Sector>, secs': seq<Sector>, q: nat)
    requires q < |secs| == |secs'|
  {
    Length(secs', q) == Length(secs, q) && Kind(secs', q) == Kind(secs, q)
  }

  ghost predicate UsedOk(used: seq<bool>, own: Owners, r: nat) {
    r in own && r < |used| && used[r]
  }

  /** Every sector of every inode is marked in the free map and reached by exactly one slot. */
  ghost predicate Sound(secs: seq<Sector>, used: seq<bool>, own: Owners) {
    && |used| == |secs| < NONE - 1
    && Index(Tabs(secs), own)
    && (forall r {:trigger UsedOk(used, own, r)} :: r in own ==> UsedOk(used, own, r))
  }

  // The blocks of the file end within its length, or within `extra` bytes for inode x.
  ghost predicate BlockWithin(secs: seq<Sector>, own: Owners, x: nat, extra: nat, r: nat) {
    && r in own && own[r].inode < |secs|
    && (own[r].slot.IsData() ==>
          var n := BlockOf(own[r].slot) * BLOCK_SECTOR_SIZE;
          n < Length(secs, own[r].inode) || (own[r].inode == x && n < extra))
  }

  ghost predicate Within(secs: seq<Sector>, own: Owners, x: nat, extra: nat) {
    && (forall r {:trigger BlockWithin(secs, own, x, extra, r)} :: r in own ==> BlockWithin(secs, own, x, extra, r))
    && (forall i: nat :: IsInode(own, i) && i < |secs| ==> Length(secs, i) <= MAX_LENGTH)
  }

  ghost predicate Inv(secs: seq<Sector>, used: seq<bool>, own: Owners) {
    Sound(secs, used, own) && Within(secs, own, 0, 0)
  }

  lemma InodeInRange(secs: seq<Sector>, used: seq<bool>, own: Owners, i: nat)
    requires Inv(secs, used, own) && IsInode(own, i)
    ensures i < |secs|
  {
    assert Owned(Tabs(secs), own, i);
  }

  /** A sector that a slot reaches is marked in the free map. */
  lemma ReachedIsUsed(secs: seq<Sector>, used: seq<bool>, own: Owners, i: nat, s: Slot)
    requires Sound(secs, used, own) && IsInode(own, i) && s.Valid()
    ensures var r := Reach(Tabs(secs), i, s); r != NONE ==> r < |used| && used[r]
  {
    assert Held(Tabs(secs), own, i, s);
    var r := Reach(Tabs(secs), i, s);
    if r in own { assert UsedOk(used, own, r); }
  }

  /** Byte `pos` of the file: zero where no sector is allocated. */
  ghost function FileByte(secs: seq<Sector>, i: nat, pos: nat): byte
    requires pos < MAX_LENGTH
  {
    var r := Reach(Tabs(secs), i, DataSlot(pos / BLOCK_SECTOR_SIZE));
    if r < |secs| then secs[r][pos % BLOCK_SECTOR_SIZE] else 0
  }

  // ---------------------------------------------------------------------------------------
  // One step of index work: a slot takes a sector.

  // What index work that fills the slots `filled` of inode i leaves alone.
  ghost predicate Extends(secs: seq<Sector>, own: Owners, secs': seq<Sector>, own': Owners,
                          i: nat, filled: set<Slot>) {
    && |secs'| == |secs|
    && (forall q :: q in own ==> q in own' && own'[q] == own[q])
    && (forall q :: q in own' && q !in own ==> own'[q].inode == i && own'[q].slot != Self && own'[q].slot in filled)
    && (forall q :: 0 <= q < |secs| && (q !in own' || own'[q].slot.IsData()) ==> secs'[q] == secs[q])
    && (forall q :: q in own && own[q].slot == Self && q < |secs| ==> SameHead(secs, secs', q))
    && (forall j, u: Slot {:trigger Reach(Tabs(secs'), j, u)} ::
          IsInode(own, j) && u.Valid() && !(j == i && u in filled) ==>
            Reach(Tabs(secs'), j, u) == Reach(Tabs(secs), j, u))
  }

  ghost function Linked(secs: seq<Sector>, i: nat, s: Slot, r: nat): seq<Sector>
    requires Table(Tabs(secs), i, s) < |secs| && Place(s) < WORDS && r <= NONE
  {
    var t := Table(Tabs(secs), i, s);
    secs[t := WithWord(secs[t], Place(s), r)]
  }

  lemma LinkedTabs(secs: seq<Sector>, i: nat, s: Slot, r: nat)
    requires Table(Tabs(secs), i, s) < |secs| && Place(s) < WORDS && r <= NONE
    ensures Tabs(Linked(secs, i, s, r)) == Link(Tabs(secs), i, s, r)
  {
    var t := Table(Tabs(secs), i, s);
    WordsWith(secs[t], Place(s), r);
    TabsWith(secs, t, WithWord(secs[t], Place(s), r));
  }

  // The word that is written is an entry of a table, not the length or the kind.
  lemma LinkedLength(secs: seq<Sector>, own: Owners, i: nat, s: Slot, r: nat, q: nat)
    requires Index(Tabs(secs), own) && IsInode(own, i) && s.Valid() && s != Self && r <= NONE
    requires Table(Tabs(secs), i, s) < |secs| && IsInode(own, q) && q < |secs|
    ensures Place(s) < WORDS && SameHead(secs, Linked(secs, i, s, r), q)
  {
    TableHeld(Tabs(secs), own, i, s);
    var t := Table(Tabs(secs), i, s);
    WordRoundTrip(secs[t], Place(s), r, LENGTH);
    WordRoundTrip(secs[t], Place(s), r, IS_DIR);
  }

  lemma LinkStep(secs: seq<Sector>, used: seq<bool>, own: Owners, i: nat, s: Slot, r: nat)
    requires Sound(secs, used, own) && CanLink(Tabs(secs), own, i, s, r) && used[r]
    ensures Place(s) < WORDS
    ensures var secs', own' := Linked(secs, i, s, r), own[r := Ref(i, s)];
      && Sound(secs', used, own') && Extends(secs, own, secs', own', i, {s})
      && Reach(Tabs(secs'), i, s) == r
  {
    var ws := Tabs(secs);
    TableHeld(ws, own, i, s);
    LinkedTabs(secs, i, s, r);
    LinkIndex(ws, own, i, s, r);
    var secs', own' := Linked(secs, i, s, r), own[r := Ref(i, s)];
    forall q | q in own' ensures UsedOk(used, own', q) { if q != r { assert UsedOk(used, own, q); } }
    forall q | q in own && own[q].slot == Self && q < |secs| ensures SameHead(secs, secs', q) {
      assert Owned(ws, own, q);
      LinkedLength(secs, own, i, s, r, q);
    }
    forall j, u: Slot | IsInode(own, j) && u.Valid() && !(j == i && u == s)
      ensures Reach(Tabs(secs'), j, u) == Reach(Tabs(secs), j, u)
    {
      LinkReach(ws, own, i, s, r, j, u);
    }
    LinkReach(ws, own, i, s, r, i, s);
  }

  lemma WordsEmpty()
    ensures forall k :: 0 <= k < WORDS ==> Words(EMPTY_TABLE)[k] == NONE
  {
    forall k | 0 <= k < WORDS ensures Words(EMPTY_TABLE)[k] == NONE { EmptyTableIsEmpty(k); }
  }

  /** access_indirect_block: a free sector becomes an empty table that no slot holds yet. */
  lemma FreshTable(secs: seq<Sector>, used: seq<bool>, own: Owners, r: nat)
    requires Sound(secs, used, own) && r < |used| && !used[r]
    ensures var secs', used' := secs[r := EMPTY_TABLE], used[r := true];
      && r !in own && Sound(secs', used', own) && EmptyTable(Tabs(secs'), r)
      && (forall j, u: Slot {:trigger Reach(Tabs(secs'), j, u)} :: IsInode(own, j) && u.Valid() ==>
            Reach(Tabs(secs'), j, u) == Reach(Tabs(secs), j, u))
  {
    var secs', used' := secs[r := EMPTY_TABLE], used[r := true];
    forall q | q in own ensures q != r && UsedOk(used', own, q) { assert UsedOk(used, own, q); }
    TabsWith(secs, r, EMPTY_TABLE);
    WordsEmpty();
    IndexSame(Tabs(secs), Tabs(secs'), own);
  }

  // The fresh table counts as index work once it is linked.
  lemma FreshTableExtends(secs: seq<Sector>, own: Owners, secs2: seq<Sector>, own2: Owners,
                          i: nat, filled: set<Slot>, r: nat)
    requires Index(Tabs(secs), own) && r < |secs| && r !in own && r in own2 && !own2[r].slot.IsData()
    requires Extends(secs[r := EMPTY_TABLE], own, secs2, own2, i, filled)
    requires forall j, u: Slot {:trigger Reach(Tabs(secs[r := EMPTY_TABLE]), j, u)} :: IsInode(own, j) && u.Valid() ==>
      Reach(Tabs(secs[r := EMPTY_TABLE]), j, u) == Reach(Tabs(secs), j, u)
    ensures Extends(secs, own, secs2, own2, i, filled)
  {
    var secs1 := secs[r := EMPTY_TABLE];
    forall j, u: Slot | IsInode(own, j) && u.Valid() && !(j == i && u in filled)
      ensures Reach(Tabs(secs2), j, u) == Reach(Tabs(secs), j, u)
    {
      assert Reach(Tabs(secs1), j, u) == Reach(Tabs(secs), j, u);
    }
  }

  lemma ExtendsTransitive(secs: seq<Sector>, own: Owners, secs1: seq<Sector>, own1: Owners,
                          secs2: seq<Sector>, own2: Owners, i: nat, a: set<Slot>, b: set<Slot>)
    requires Extends(secs, own, secs1, own1, i, a) && Extends(secs1, own1, secs2, own2, i, b)
    ensures Extends(secs, own, secs2, own2, i, a + b)
  {
    forall j, u: Slot | IsInode(own, j) && u.Valid() && !(j == i && u in a + b)
      ensures Reach(Tabs(secs2), j, u) == Reach(Tabs(secs), j, u)
    {
      assert IsInode(own1, j);
      assert Reach(Tabs(secs1), j, u) == Reach(Tabs(secs), j, u);
    }
  }

  lemma ExtendsReflexive(secs: seq<Sector>, own: Owners, i: nat, filled: set<Slot>)
    ensures Extends(secs, own, secs, own, i, filled)
  {
  }

}
