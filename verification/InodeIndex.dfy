/** The multi-level index of src/filesys/inode.c: which sector each slot of each inode reaches, and
    the invariant that no sector is reached twice. */
module InodeIndex {
  import opened IndexTable

  const NUM_DIRECT: nat := 123
  const NUM_INDIRECT: nat := 128
  const NUM_DOUBLE_INDIRECT: nat := 16384
  const MAX_BLOCKS: nat := NUM_DIRECT + NUM_INDIRECT + NUM_DOUBLE_INDIRECT

  // Words of `struct inode_disk`: length, is_dir, magic, direct[123], indirect, double_indirect.
  const LENGTH: nat := 0
  const IS_DIR: nat := 1
  const DIRECT: nat := 3
  const INDIRECT: nat := 126
  const DOUBLE: nat := 127

  // Every sector seen as a table of words.
  type Tables = seq<seq<nat>>

  /** The places of an inode that hold a sector. */
  datatype Slot =
    | Self
    | Direct(k: nat)
    | Indirect
    | IndirectData(k: nat)
    | Double
    | DoubleTable(j: nat)
    | DoubleData(j: nat, k: nat)
  {
    ghost predicate Valid() {
      match this
      case Self => true
      case Direct(k) => k < NUM_DIRECT
      case Indirect => true
      case IndirectData(k) => k < NUM_INDIRECT
      case Double => true
      case DoubleTable(j) => j < NUM_INDIRECT
      case DoubleData(j, k) => j < NUM_INDIRECT && k < NUM_INDIRECT
    }

    predicate IsData() {
      Direct? || IndirectData? || DoubleData?
    }
  }

  /** byte_to_sector: the slot of the n-th block of a file. */
  function DataSlot(n: nat): (s: Slot)
    requires n < MAX_BLOCKS
    ensures s.Valid() && s.IsData()
  {
    if n < NUM_DIRECT then Direct(n)
    else if n < NUM_DIRECT + NUM_INDIRECT then IndirectData(n - NUM_DIRECT)
    else DoubleData((n - NUM_DIRECT - NUM_INDIRECT) / NUM_INDIRECT, (n - NUM_DIRECT - NUM_INDIRECT) % NUM_INDIRECT)
  }

  ghost function BlockOf(s: Slot): nat
    requires s.IsData()
  {
    match s
    case Direct(k) => k
    case IndirectData(k) => NUM_DIRECT + k
    case DoubleData(j, k) => NUM_DIRECT + NUM_INDIRECT + j * NUM_INDIRECT + k
  }

  /** Blocks and data slots correspond one to one. */
  lemma DataSlotInverse(n: nat)
    requires n < MAX_BLOCKS
    ensures BlockOf(DataSlot(n)) == n
  {
  }

  lemma BlockOfInverse(s: Slot)
    requires s.IsData() && s.Valid()
    ensures BlockOf(s) < MAX_BLOCKS && DataSlot(BlockOf(s)) == s
  {
  }

  // ---------------------------------------------------------------------------------------
  // Following the index.

  ghost function Entry(ws: Tables, t: nat, k: nat): nat {
    if t < |ws| && k < |ws[t]| then ws[t][k] else NONE
  }

  // The sector that holds the table in which slot s of inode i is an entry.
  ghost function Table(ws: Tables, i: nat, s: Slot): nat {
    match s
    case IndirectData(_) => Entry(ws, i, INDIRECT)
    case DoubleTable(_) => Entry(ws, i, DOUBLE)
    case DoubleData(j, _) => Entry(ws, Entry(ws, i, DOUBLE), j)
    case _ => i
  }

  // The word of that table.
  function Place(s: Slot): nat {
    match s
    case Self => 0
    case Direct(k) => DIRECT + k
    case Indirect => INDIRECT
    case IndirectData(k) => k
    case Double => DOUBLE
    case DoubleTable(j) => j
    case DoubleData(_, k) => k
  }

  /** The sector that slot s of inode i holds, NONE if it holds none. */
  ghost function Reach(ws: Tables, i: nat, s: Slot): nat {
    if s == Self then i else Entry(ws, Table(ws, i, s), Place(s))
  }

  // The slot of the table in which s is an entry.
  ghost function Parent(s: Slot): Slot {
    match s
    case IndirectData(_) => Indirect
    case DoubleTable(_) => Double
    case DoubleData(j, _) => DoubleTable(j)
    case _ => Self
  }

  lemma TableIsParent(ws: Tables, i: nat, s: Slot)
    requires s != Self
    ensures Table(ws, i, s) == Reach(ws, i, Parent(s))
  {
  }

  // ---------------------------------------------------------------------------------------
  // The ownership invariant.

  datatype Ref = Ref(inode: nat, slot: Slot)

  // For each sector in use by an inode, the slot that holds it.
  type Owners = map<nat, Ref>

  ghost predicate Owned(ws: Tables, own: Owners, r: nat) {
    && r in own && r < |ws| && own[r].slot.Valid()
    && own[r].inode in own && own[own[r].inode] == Ref(own[r].inode, Self)
    && Reach(ws, own[r].inode, own[r].slot) == r
  }

  ghost predicate Held(ws: Tables, own: Owners, i: nat, s: Slot) {
    var r := Reach(ws, i, s);
    r == NONE || (r in own && own[r] == Ref(i, s))
  }

  // i is the sector of an inode.
  ghost predicate IsInode(own: Owners, i: nat) {
    i in own && own[i] == Ref(i, Self)
  }

  /** `own` is exactly the inverse of Reach: a sector is reached by at most one slot of at most one
      inode. */
  ghost predicate Index(ws: Tables, own: Owners) {
    && |ws| < NONE && (forall t :: 0 <= t < |ws| ==> |ws[t]| == WORDS)
    && (forall r {:trigger Owned(ws, own, r)} :: r in own ==> Owned(ws, own, r))
    && (forall i, s: Slot {:trigger Held(ws, own, i, s)} :: IsInode(own, i) && s.Valid() ==> Held(ws, own, i, s))
  }

  /** Two slots that reach the same sector are the same slot of the same inode. */
  lemma ReachInjective(ws: Tables, own: Owners, i: nat, s: Slot, j: nat, t: Slot)
    requires Index(ws, own) && IsInode(own, i) && IsInode(own, j) && s.Valid() && t.Valid()
    requires Reach(ws, i, s) == Reach(ws, j, t) != NONE
    ensures i == j && s == t
  {
    assert Held(ws, own, i, s) && Held(ws, own, j, t);
  }

  // A slot that holds a sector has a table, which is the sector of the parent slot.
  lemma TableHeld(ws: Tables, own: Owners, i: nat, s: Slot)
    requires Index(ws, own) && IsInode(own, i) && s.Valid() && s != Self
    ensures var t := Table(ws, i, s); t == NONE || (t in own && own[t] == Ref(i, Parent(s)) && t < |ws|)
    ensures Place(s) < WORDS
  {
    TableIsParent(ws, i, s);
    assert Held(ws, own, i, Parent(s));
    if Table(ws, i, s) != NONE { assert Owned(ws, own, Table(ws, i, s)); }
  }

  // ---------------------------------------------------------------------------------------
  // Changing a sector that is no table, or a word that is no entry.

  // Tables of ws that belong to some inode are the same in ws', entries included.
  ghost predicate SameEntries(ws: Tables, ws': Tables, own: Owners, t: nat) {
    t in own && t < |ws| == |ws'| && |ws'[t]| == |ws[t]| ==>
      forall k :: 0 <= k < |ws[t]| && (own[t].slot == Self ==> k >= DIRECT) ==> ws'[t][k] == ws[t][k]
  }

  lemma ReachSame(ws: Tables, ws': Tables, own: Owners, i: nat, s: Slot)
    requires Index(ws, own) && IsInode(own, i) && s.Valid() && |ws'| == |ws|
    requires forall t :: 0 <= t < |ws'| ==> |ws'[t]| == WORDS
    requires forall t :: t in own && !own[t].slot.IsData() ==> SameEntries(ws, ws', own, t)
    ensures Reach(ws', i, s) == Reach(ws, i, s)
  {
    assert Owned(ws, own, i) && SameEntries(ws, ws', own, i);
    if s != Self && Parent(s) != Self {
      TableHeld(ws, own, i, s);
      TableHeld(ws, own, i, Parent(s));
      if Parent(Parent(s)) != Self { TableHeld(ws, own, i, Parent(Parent(s))); }
      assert Reach(ws', i, Parent(s)) == Reach(ws, i, Parent(s)) by { ParentSame(ws, ws', own, i, s); }
      TableIsParent(ws, i, s);
      TableIsParent(ws', i, s);
      var t := Table(ws, i, s);
      if t != NONE { assert SameEntries(ws, ws', own, t); }
    }
  }

  lemma ParentSame(ws: Tables, ws': Tables, own: Owners, i: nat, s: Slot)
    requires Index(ws, own) && IsInode(own, i) && s.Valid() && s != Self && Parent(s) != Self && |ws'| == |ws|
    requires forall t :: 0 <= t < |ws'| ==> |ws'[t]| == WORDS
    requires forall t :: t in own && !own[t].slot.IsData() ==> SameEntries(ws, ws', own, t)
    ensures Reach(ws', i, Parent(s)) == Reach(ws, i, Parent(s))
  {
    assert Owned(ws, own, i) && SameEntries(ws, ws', own, i);
    var p := Parent(s);
    if Parent(p) != Self {
      TableHeld(ws, own, i, p);
      var t := Table(ws, i, p);
      if t != NONE { assert SameEntries(ws, ws', own, t); }
    }
  }

  lemma IndexSame(ws: Tables, ws': Tables, own: Owners)
    requires Index(ws, own) && |ws'| == |ws|
    requires forall t :: 0 <= t < |ws'| ==> |ws'[t]| == WORDS
    requires forall t :: t in own && !own[t].slot.IsData() ==> SameEntries(ws, ws', own, t)
    ensures Index(ws', own)
    ensures forall i, s: Slot :: IsInode(own, i) && s.Valid() ==> Reach(ws', i, s) == Reach(ws, i, s)
  {
    forall i, s: Slot | IsInode(own, i) && s.Valid()
      ensures Reach(ws', i, s) == Reach(ws, i, s) && Held(ws', own, i, s)
    {
      ReachSame(ws, ws', own, i, s);
      assert Held(ws, own, i, s);
    }
    forall r | r in own ensures Owned(ws', own, r) {
      assert Owned(ws, own, r);
      ReachSame(ws, ws', own, own[r].inode, own[r].slot);
    }
  }

  // ---------------------------------------------------------------------------------------
  // Filling an empty slot.

  ghost function Depth(s: Slot): nat {
    match s
    case Self => 0
    case IndirectData(_) => 2
    case DoubleTable(_) => 2
    case DoubleData(_, _) => 3
    case _ => 1
  }

  lemma PlaceInjective(s: Slot, u: Slot)
    requires s.Valid() && u.Valid() && s != Self && u != Self
    requires Parent(s) == Parent(u) && Place(s) == Place(u)
    ensures s == u
  {
  }

  ghost predicate EmptyTable(ws: Tables, r: nat) {
    r < |ws| && forall k :: 0 <= k < |ws[r]| ==> ws[r][k] == NONE
  }

  // Sector r may be put into the empty slot s of inode i.
  ghost predicate CanLink(ws: Tables, own: Owners, i: nat, s: Slot, r: nat) {
    && Index(ws, own) && IsInode(own, i) && s.Valid() && s != Self
    && Reach(ws, i, s) == NONE && Table(ws, i, s) < |ws|
    && r !in own && r < |ws| && (s.IsData() || EmptyTable(ws, r))
  }

  ghost function Link(ws: Tables, i: nat, s: Slot, r: nat): Tables
    requires Table(ws, i, s) < |ws|
  {
    var t := Table(ws, i, s);
    if Place(s) < |ws[t]| then
      var row: seq<nat> := ws[t][Place(s) := r];
      ws[t := row]
    else ws
  }

  lemma {:induction false} LinkReach(ws: Tables, own: Owners, i: nat, s: Slot, r: nat, j: nat, u: Slot)
    requires CanLink(ws, own, i, s, r) && IsInode(own, j) && u.Valid()
    ensures Reach(Link(ws, i, s, r), j, u) == if j == i && u == s then r else Reach(ws, j, u)
    decreases Depth(u)
  {
    if u != Self {
      var ws', p := Link(ws, i, s, r), Parent(u);
      TableHeld(ws, own, i, s);
      TableHeld(ws, own, j, u);
      TableIsParent(ws, j, u);
      TableIsParent(ws', j, u);
      LinkReach(ws, own, i, s, r, j, p);
      var t := Table(ws, i, s);
      if j == i && p == s {
        assert Table(ws', j, u) == r && r != t;
      } else if Table(ws, j, u) == t {
        if Place(u) == Place(s) { PlaceInjective(s, u); }
      }
    }
  }

  /** An empty slot takes a sector that no inode owns. */
  lemma LinkIndex(ws: Tables, own: Owners, i: nat, s: Slot, r: nat)
    requires CanLink(ws, own, i, s, r)
    ensures Index(Link(ws, i, s, r), own[r := Ref(i, s)])
  {
    var ws', own' := Link(ws, i, s, r), own[r := Ref(i, s)];
    forall j, u: Slot | IsInode(own', j) && u.Valid() ensures Held(ws', own', j, u) {
      LinkReach(ws, own, i, s, r, j, u);
      assert Held(ws, own, j, u);
    }
    forall q | q in own' ensures Owned(ws', own', q) {
      if q == r {
        LinkReach(ws, own, i, s, r, i, s);
      } else {
        assert Owned(ws, own, q);
        LinkReach(ws, own, i, s, r, own[q].inode, own[q].slot);
      }
    }
  }

  // ---------------------------------------------------------------------------------------
  // What a write has to allocate.

  /** The slots on the way to a slot: its tables and itself. */
  ghost function Path(s: Slot): set<Slot> {
    match s
    case IndirectData(_) => {Indirect, s}
    case DoubleTable(_) => {Double, s}
    case DoubleData(j, _) => {Double, DoubleTable(j), s}
    case _ => {s}
  }

  lemma PathSlots(s: Slot)
    requires s.Valid() && s != Self
    ensures s in Path(s) && forall u :: u in Path(s) ==> u.Valid() && u != Self && (u.IsData() ==> u == s)
  {
  }

  /** The slots of a set that hold no sector. */
  ghost function Missing(ws: Tables, i: nat, slots: set<Slot>): set<Slot> {
    set u | u in slots && Reach(ws, i, u) == NONE
  }

  ghost function Cost(ws: Tables, i: nat, s: Slot): nat {
    if Reach(ws, i, s) == NONE then 1 else 0
  }

  /** The slots on the way to any of several data slots. */
  ghost function Touched(ss: seq<Slot>): set<Slot> {
    if ss == [] then {} else Touched(ss[..|ss| - 1]) + Path(ss[|ss| - 1])
  }

  // Data slots, none of them twice.
  ghost predicate DataSlots(ss: seq<Slot>) {
    && (forall m :: 0 <= m < |ss| ==> ss[m].Valid() && ss[m].IsData())
    && (forall a, b :: 0 <= a < b < |ss| ==> ss[a] != ss[b])
  }

  lemma TouchedNext(ss: seq<Slot>, s: Slot)
    ensures Touched(ss + [s]) == Touched(ss) + Path(s)
  {
    assert (ss + [s])[..|ss|] == ss;
  }

  lemma {:induction false} TouchedSlots(ss: seq<Slot>)
    requires DataSlots(ss)
    ensures forall u :: u in Touched(ss) ==> u.Valid() && u != Self && (u.IsData() ==> u in ss)
  {
    if ss != [] {
      TouchedSlots(ss[..|ss| - 1]);
      PathSlots(ss[|ss| - 1]);
    }
  }

  lemma {:induction false} TouchedMore(ss: seq<Slot>, k: nat)
    requires k <= |ss|
    ensures Touched(ss[..k]) <= Touched(ss)
    decreases |ss|
  {
    if k < |ss| {
      TouchedMore(ss[..|ss| - 1], k);
      assert ss[..|ss| - 1][..k] == ss[..k];
    } else {
      assert ss[..k] == ss;
    }
  }

  /** The slots of cnt blocks from block n on. */
  ghost function Blocks(n: nat, cnt: nat): (ss: seq<Slot>)
    requires n + cnt <= MAX_BLOCKS
    ensures |ss| == cnt
  {
    seq(cnt, m requires 0 <= m < cnt => DataSlot(n + m))
  }

  lemma BlocksDiffer(n: nat, m: nat)
    requires n < m < MAX_BLOCKS
    ensures DataSlot(n) != DataSlot(m)
  {
    DataSlotInverse(n);
    DataSlotInverse(m);
  }

  lemma BlocksData(n: nat, cnt: nat)
    requires n + cnt <= MAX_BLOCKS
    ensures DataSlots(Blocks(n, cnt))
  {
    var ss := Blocks(n, cnt);
    forall m | 0 <= m < |ss| ensures ss[m].Valid() && ss[m].IsData() { assert ss[m] == DataSlot(n + m); }
    forall a, b | 0 <= a < b < |ss| ensures ss[a] != ss[b] {
      BlocksDiffer(n + a, n + b);
      assert ss[a] == DataSlot(n + a) && ss[b] == DataSlot(n + b);
    }
  }

  lemma MissingMono(ws: Tables, i: nat, s: set<Slot>, t: set<Slot>)
    requires s <= t
    ensures |Missing(ws, i, s)| <= |Missing(ws, i, t)|
  {
    var a, b := Missing(ws, i, s), Missing(ws, i, t);
    assert a <= b;
    assert b == a + (b - a);
  }

  // A slot that holds a sector has all its tables.
  lemma PathFilled(ws: Tables, i: nat, s: Slot, u: Slot)
    requires |ws| <= NONE && Reach(ws, i, s) != NONE && u in Path(s)
    ensures Reach(ws, i, u) != NONE
  {
  }

  lemma MissingMore(ws: Tables, i: nat, s: Slot, rest: set<Slot>)
    requires s !in rest
    ensures |Missing(ws, i, {s} + rest)| == Cost(ws, i, s) + |Missing(ws, i, rest)|
  {
    if Reach(ws, i, s) == NONE {
      assert Missing(ws, i, {s} + rest) == {s} + Missing(ws, i, rest);
    } else {
      assert Missing(ws, i, {s} + rest) == Missing(ws, i, rest);
    }
  }

  // What a path costs, one slot at a time.
  lemma MissingOne(ws: Tables, i: nat, s: Slot)
    ensures |Missing(ws, i, {s})| == Cost(ws, i, s)
  {
    MissingMore(ws, i, s, {});
    assert {s} + {} == {s} && Missing(ws, i, {}) == {};
  }

  // Once the path p is filled and nothing else changed, what is missing of p and t together was
  // missing of p, or is missing of t now.
  lemma MissingSplits(ws: Tables, ws': Tables, i: nat, p: set<Slot>, t: set<Slot>)
    requires forall u :: u in p ==> Reach(ws', i, u) != NONE
    requires forall u :: u in t && u !in p ==> Reach(ws', i, u) == Reach(ws, i, u)
    ensures |Missing(ws, i, p + t)| == |Missing(ws, i, p)| + |Missing(ws', i, t)|
  {
    var a, b := Missing(ws, i, p), Missing(ws', i, t);
    assert Missing(ws, i, p + t) == a + b;
    assert a !! b;
  }

  // ---------------------------------------------------------------------------------------
  // Whole inodes.

  // A sector that no inode owns becomes an inode with every slot empty.
  lemma NewInode(ws: Tables, own: Owners, i: nat, words: seq<nat>)
    requires Index(ws, own) && i !in own && i < |ws| && |words| == WORDS
    requires forall k :: DIRECT <= k < WORDS ==> words[k] == NONE
    ensures Index(ws[i := words], own[i := Ref(i, Self)])
    ensures forall j, s: Slot :: IsInode(own, j) && s.Valid() ==> Reach(ws[i := words], j, s) == Reach(ws, j, s)
    ensures forall s: Slot :: s.Valid() && s != Self ==> Reach(ws[i := words], i, s) == NONE
  {
    var ws', own' := ws[i := words], own[i := Ref(i, Self)];
    IndexSame(ws, ws', own);
    forall s: Slot | s.Valid() && s != Self ensures Reach(ws', i, s) == NONE { }
    forall j, s: Slot | IsInode(own', j) && s.Valid() ensures Held(ws', own', j, s) {
      if j != i { assert Held(ws', own, j, s); }
    }
    forall r | r in own' ensures Owned(ws', own', r) {
      if r != i { assert Owned(ws', own, r); }
    }
  }

  ghost function Others(own: Owners, i: nat): Owners {
    map r | r in own && own[r].inode != i :: own[r]
  }

  // Forgetting an inode leaves the index of the others.
  lemma DropInode(ws: Tables, own: Owners, i: nat)
    requires Index(ws, own)
    ensures Index(ws, Others(own, i))
  {
    var own' := Others(own, i);
    forall j, s: Slot | IsInode(own', j) && s.Valid() ensures Held(ws, own', j, s) {
      assert Held(ws, own, j, s);
    }
    forall r | r in own' ensures Owned(ws, own', r) {
      assert Owned(ws, own, r);
    }
  }
}
