/** Boundary tags of src/lib/user/malloc.c and the tiling of the heap they describe.

    A block starts at a header word; its size in words is in the header.  A free block repeats
    its header in its last word, a used block has no footer, and the header of the block to the
    right records in `pinuse` whether the block to its left is in use. */
module UserHeapBlocks {
  import opened UserHeapLists

  // inuse, no size: the prologue footer and the epilogue header.
  const FENCE := Word(true, false, 0)
  const MIN_BLOCK_SIZE_WORDS: nat := 8

  // First block header: three words into the heap, so that payloads are 16-byte aligned.
  const FIRST: nat := HEAP + 3

  /** mark_block_used: no footer is written, the right neighbour's pinuse is set. */
  function MarkUsed(mem: Memory, b: nat, size: nat): (r: Memory)
    requires 0 < size && b + size < |mem|
    ensures |r| == |mem|
  {
    var m := mem[b := Word(true, mem[b].pinuse, size)];
    m[b + size := m[b + size].(pinuse := true)]
  }

  /** mark_block_free: header, then footer as a copy of the header, then the neighbour's pinuse. */
  function MarkFree(mem: Memory, b: nat, size: nat): (r: Memory)
    requires 1 < size && b + size < |mem|
    ensures |r| == |mem|
  {
    var header := Word(false, mem[b].pinuse, size);
    var m := mem[b := header][b + size - 1 := header];
    m[b + size := m[b + size].(pinuse := false)]
  }

  // ---------------------------------------------------------------------------------------
  // The tiling.

  datatype Block = Block(size: nat, used: bool)

  type Layout = map<nat, Block>

  // Byte address 12 mod 16: the word after a header is 16-byte aligned.
  ghost predicate Aligned(a: nat) { a % 4 == 3 }

  lemma AlignedPlus(a: nat, words: nat)
    requires Aligned(a) && words % 4 == 0
    ensures Aligned(a + words)
  {
  }

  ghost function Next(lay: Layout, b: nat): nat
    requires b in lay
  {
    b + lay[b].size
  }

  // Block b has a legal size and place, and ends where a block or the epilogue starts.
  ghost predicate Tile(lay: Layout, end: nat, b: nat) {
    && b in lay && FIRST <= b && Aligned(b)
    && lay[b].size >= MIN_BLOCK_SIZE_WORDS && lay[b].size % 4 == 0
    && Next(lay, b) <= end && (Next(lay, b) in lay || Next(lay, b) == end)
  }

  ghost predicate InOrder(lay: Layout, b: nat, c: nat)
    requires b in lay && c in lay
  {
    b < c ==> Next(lay, b) <= c
  }

  ghost predicate Follows(lay: Layout, c: nat) {
    exists p :: p in lay && Next(lay, p) == c
  }

  ghost predicate Tiles(lay: Layout, end: nat) {
    forall b {:trigger Tile(lay, end, b)} :: b in lay ==> Tile(lay, end, b)
  }

  ghost predicate Ordered(lay: Layout) {
    forall b, c {:trigger InOrder(lay, b, c)} :: b in lay && c in lay ==> InOrder(lay, b, c)
  }

  ghost predicate Chained(lay: Layout, end: nat) {
    forall c {:trigger Follows(lay, c)} :: (c in lay || c == end) && c != FIRST ==> Follows(lay, c)
  }

  /** The blocks of lay tile the words from FIRST up to the epilogue at `end`. */
  ghost predicate Geometry(lay: Layout, end: nat) {
    && FIRST <= end && Aligned(end) && (FIRST == end || FIRST in lay)
    && Tiles(lay, end) && Ordered(lay) && Chained(lay, end)
  }

  // The words of memory agree with block b.
  ghost predicate Tagged(mem: Memory, lay: Layout, b: nat) {
    && b in lay && lay[b].size >= 1 && Next(lay, b) < |mem|
    && mem[b].inuse == lay[b].used && mem[b].size == lay[b].size
    && mem[Next(lay, b)].pinuse == lay[b].used
    && (!lay[b].used ==> mem[Next(lay, b) - 1].size == lay[b].size && !mem[Next(lay, b) - 1].inuse)
  }

  ghost predicate Tags(mem: Memory, lay: Layout) {
    && FIRST < |mem| && mem[FIRST - 1] == FENCE && mem[FIRST].pinuse
    && mem[|mem| - 1].inuse && mem[|mem| - 1].size == 0
    && (forall b {:trigger Tagged(mem, lay, b)} :: b in lay ==> Tagged(mem, lay, b))
  }

  // A word that is neither a boundary tag nor a fence: static data, or strictly inside a block.
  ghost predicate Untagged(lay: Layout, a: nat) {
    a < HEAP || exists b :: b in lay && b < a < Next(lay, b) - 1
  }

  lemma TagsFrame(mem: Memory, mem': Memory, lay: Layout)
    requires FIRST < |mem| && Geometry(lay, |mem| - 1) && Tags(mem, lay) && |mem'| == |mem|
    requires forall a :: 0 <= a < |mem| && mem'[a] != mem[a] ==> Untagged(lay, a)
    ensures Tags(mem', lay)
  {
    forall b | b in lay
      ensures Tagged(mem', lay, b)
    {
      assert Tagged(mem, lay, b) && Tile(lay, |mem| - 1, b);
      TagWord(lay, |mem| - 1, b);
    }
    EndTags(lay, |mem| - 1);
  }

  // Headers, footers and the word after a block are never strictly inside a block.
  lemma TagWord(lay: Layout, end: nat, b: nat)
    requires Geometry(lay, end) && b in lay
    ensures !Untagged(lay, b) && !Untagged(lay, Next(lay, b) - 1) && !Untagged(lay, Next(lay, b))
  {
    assert Tile(lay, end, b);
    forall c | c in lay
      ensures !(c < b < Next(lay, c) - 1) && !(c < Next(lay, b) - 1 < Next(lay, c) - 1)
      ensures !(c < Next(lay, b) < Next(lay, c) - 1)
    {
      assert Tile(lay, end, c) && InOrder(lay, b, c) && InOrder(lay, c, b);
    }
  }

  lemma EndTags(lay: Layout, end: nat)
    requires Geometry(lay, end)
    ensures !Untagged(lay, FIRST - 1) && !Untagged(lay, FIRST) && !Untagged(lay, end)
  {
    forall c | c in lay
      ensures FIRST <= c && Next(lay, c) <= end
    {
      assert Tile(lay, end, c);
    }
  }

  // ---------------------------------------------------------------------------------------
  // How the operations change the tiling.

  ghost function Retagged(lay: Layout, b: nat, used: bool): Layout
    requires b in lay
  {
    lay[b := Block(lay[b].size, used)]
  }

  ghost function Merged(lay: Layout, b: nat): Layout
    requires b in lay && Next(lay, b) in lay
  {
    (lay - {Next(lay, b)})[b := Block(lay[b].size + lay[Next(lay, b)].size, false)]
  }

  ghost function Split(lay: Layout, b: nat, size: nat): Layout
    requires b in lay && size < lay[b].size
  {
    lay[b := Block(size, true)][b + size := Block(lay[b].size - size, false)]
  }

  ghost function Extended(lay: Layout, end: nat, words: nat): Layout {
    lay[end := Block(words, false)]
  }

  lemma RetaggedGeometry(lay: Layout, end: nat, b: nat, used: bool)
    requires Geometry(lay, end) && b in lay
    ensures Geometry(Retagged(lay, b, used), end)
  {
    var lay' := Retagged(lay, b, used);
    forall c | c in lay' ensures Tile(lay', end, c) { assert Tile(lay, end, c); }
    forall c, d | c in lay' && d in lay' ensures InOrder(lay', c, d) { assert InOrder(lay, c, d); }
    forall c | (c in lay' || c == end) && c != FIRST ensures Follows(lay', c) {
      assert Follows(lay, c);
      var p :| p in lay && Next(lay, p) == c;
      assert p in lay' && Next(lay', p) == c;
    }
  }

  lemma MergedTile(lay: Layout, end: nat, b: nat, c: nat)
    requires Geometry(lay, end) && b in lay && Next(lay, b) in lay && c in Merged(lay, b)
    ensures Tile(Merged(lay, b), end, c)
  {
    assert Tile(lay, end, b) && Tile(lay, end, Next(lay, b));
    assert Tile(lay, end, c) && InOrder(lay, c, b) && InOrder(lay, b, c);
  }

  lemma MergedInOrder(lay: Layout, end: nat, b: nat, c: nat, d: nat)
    requires Geometry(lay, end) && b in lay && Next(lay, b) in lay && c in Merged(lay, b) && d in Merged(lay, b)
    ensures InOrder(Merged(lay, b), c, d)
  {
    assert InOrder(lay, c, d) && InOrder(lay, b, d) && InOrder(lay, Next(lay, b), d);
    assert Tile(lay, end, d);
  }

  lemma MergedGeometry(lay: Layout, end: nat, b: nat)
    requires Geometry(lay, end) && b in lay && Next(lay, b) in lay
    ensures Geometry(Merged(lay, b), end)
  {
    var lay', q := Merged(lay, b), Next(lay, b);
    forall c | c in lay' ensures Tile(lay', end, c) { MergedTile(lay, end, b, c); }
    forall c, d | c in lay' && d in lay' ensures InOrder(lay', c, d) { MergedInOrder(lay, end, b, c, d); }
    forall c | (c in lay' || c == end) && c != FIRST ensures Follows(lay', c) {
      assert Follows(lay, c);
      var p :| p in lay && Next(lay, p) == c;
      if p == q { assert Next(lay', b) == c; } else { assert p in lay' && Next(lay', p) == c; }
    }
    assert Tile(lay, end, b);
  }

  lemma SplitTile(lay: Layout, end: nat, b: nat, size: nat, c: nat)
    requires Geometry(lay, end) && b in lay && size % 4 == 0
    requires MIN_BLOCK_SIZE_WORDS <= size && size + MIN_BLOCK_SIZE_WORDS <= lay[b].size && c in Split(lay, b, size)
    ensures Tile(Split(lay, b, size), end, c)
  {
    hide Aligned;
    assert Tile(lay, end, b);
    AlignedPlus(b, size);
    if c != b + size { assert Tile(lay, end, c); }
  }

  lemma SplitFollows(lay: Layout, end: nat, b: nat, size: nat, c: nat)
    requires Geometry(lay, end) && b in lay && size < lay[b].size && b + size !in lay
    requires (c in Split(lay, b, size) || c == end) && c != FIRST
    ensures Follows(Split(lay, b, size), c)
  {
    var lay', q := Split(lay, b, size), b + size;
    if c == q { assert Next(lay', b) == c; } else {
      assert Follows(lay, c);
      var p :| p in lay && Next(lay, p) == c;
      if p == b { assert Next(lay', q) == c; } else { assert p in lay' && Next(lay', p) == c; }
    }
  }

  lemma SplitFresh(lay: Layout, end: nat, b: nat, size: nat)
    requires Geometry(lay, end) && b in lay && 0 < size < lay[b].size
    ensures b + size !in lay
  {
    forall c | c in lay ensures c != b + size { assert InOrder(lay, b, c); }
  }

  lemma SplitGeometry(lay: Layout, end: nat, b: nat, size: nat)
    requires Geometry(lay, end) && b in lay && size % 4 == 0
    requires MIN_BLOCK_SIZE_WORDS <= size && size + MIN_BLOCK_SIZE_WORDS <= lay[b].size
    ensures Geometry(Split(lay, b, size), end) && b + size !in lay
  {
    var lay' := Split(lay, b, size);
    SplitFresh(lay, end, b, size);
    forall c | c in lay' ensures Tile(lay', end, c) { SplitTile(lay, end, b, size, c); }
    forall c, d | c in lay' && d in lay' ensures InOrder(lay', c, d) { SplitInOrder(lay, end, b, size, c, d); }
    forall c | (c in lay' || c == end) && c != FIRST ensures Follows(lay', c) { SplitFollows(lay, end, b, size, c); }
  }

  lemma SplitInOrder(lay: Layout, end: nat, b: nat, size: nat, c: nat, d: nat)
    requires Geometry(lay, end) && b in lay && size < lay[b].size && b + size !in lay
    requires c in Split(lay, b, size) && d in Split(lay, b, size)
    ensures InOrder(Split(lay, b, size), c, d)
  {
    var q := b + size;
    if c != q && d != q {
      assert InOrder(lay, c, d);
    } else if c != q {
      assert InOrder(lay, c, b) && InOrder(lay, b, c);
    } else if d != q {
      assert InOrder(lay, b, d) && InOrder(lay, d, b);
    }
  }

  lemma ExtendedInOrder(lay: Layout, end: nat, words: nat, c: nat, d: nat)
    requires Geometry(lay, end) && c in Extended(lay, end, words) && d in Extended(lay, end, words)
    ensures InOrder(Extended(lay, end, words), c, d)
  {
    if c != end { assert Tile(lay, end, c); }
    if d != end { assert Tile(lay, end, d); }
    if c != end && d != end { assert InOrder(lay, c, d); }
  }

  lemma ExtendedFollows(lay: Layout, end: nat, words: nat, c: nat)
    requires Geometry(lay, end) && end !in lay && (c in lay || c == end) && c != FIRST
    ensures Follows(Extended(lay, end, words), c)
  {
    assert Follows(lay, c);
    var p :| p in lay && Next(lay, p) == c;
    assert p in Extended(lay, end, words) && Next(Extended(lay, end, words), p) == c;
  }

  lemma ExtendedTile(lay: Layout, end: nat, words: nat, c: nat)
    requires Geometry(lay, end) && words >= MIN_BLOCK_SIZE_WORDS && words % 4 == 0 && c in Extended(lay, end, words)
    ensures Tile(Extended(lay, end, words), end + words, c)
  {
    if c != end { assert Tile(lay, end, c); }
  }

  lemma ExtendedParts(lay: Layout, end: nat, words: nat)
    requires Geometry(lay, end) && words >= MIN_BLOCK_SIZE_WORDS && words % 4 == 0
    ensures Tiles(Extended(lay, end, words), end + words) && Ordered(Extended(lay, end, words))
    ensures end !in lay
  {
    var lay' := Extended(lay, end, words);
    forall c | c in lay ensures c < end { assert Tile(lay, end, c); }
    forall c | c in lay' ensures Tile(lay', end + words, c) { ExtendedTile(lay, end, words, c); }
    forall c, d | c in lay' && d in lay' ensures InOrder(lay', c, d) { ExtendedInOrder(lay, end, words, c, d); }
  }

  lemma ExtendedChained(lay: Layout, end: nat, words: nat)
    requires Geometry(lay, end) && end !in lay
    ensures Chained(Extended(lay, end, words), end + words)
  {
    var lay' := Extended(lay, end, words);
    assert Next(lay', end) == end + words;
    forall c | (c in lay' || c == end + words) && c != FIRST ensures Follows(lay', c) {
      if c != end + words { ExtendedFollows(lay, end, words, c); }
    }
  }

  lemma ExtendedGeometry(lay: Layout, end: nat, words: nat)
    requires Geometry(lay, end) && words >= MIN_BLOCK_SIZE_WORDS && words % 4 == 0
    ensures Geometry(Extended(lay, end, words), end + words) && end !in lay
  {
    ExtendedParts(lay, end, words);
    ExtendedChained(lay, end, words);
    AlignedPlus(end, words);
  }

  // ---------------------------------------------------------------------------------------
  // The tag writes that go with those changes.

  // Header and right edge of c lie outside block b, unless c starts right after b.
  lemma Elsewhere(lay: Layout, end: nat, b: nat, c: nat)
    requires Geometry(lay, end) && b in lay && c in lay && b != c
    ensures c < b ==> Next(lay, c) <= b
    ensures b < c ==> Next(lay, b) <= c
    ensures Tile(lay, end, b) && Tile(lay, end, c)
  {
    assert InOrder(lay, b, c) && InOrder(lay, c, b);
    assert Tile(lay, end, b) && Tile(lay, end, c);
  }

  lemma FreedTags(mem: Memory, lay: Layout, b: nat)
    requires FIRST < |mem| && Geometry(lay, |mem| - 1) && Tags(mem, lay) && b in lay
    ensures lay[b].size > 1 && Next(lay, b) < |mem|
    ensures Tags(MarkFree(mem, b, lay[b].size), Retagged(lay, b, false))
  {
    var end := |mem| - 1;
    assert Tile(lay, end, b);
    var mem', lay' := MarkFree(mem, b, lay[b].size), Retagged(lay, b, false);
    forall c | c in lay' ensures Tagged(mem', lay', c) {
      assert Tagged(mem, lay, c);
      if c != b { Elsewhere(lay, end, b, c); }
    }
  }

  lemma UsedTags(mem: Memory, lay: Layout, b: nat)
    requires FIRST < |mem| && Geometry(lay, |mem| - 1) && Tags(mem, lay) && b in lay
    ensures lay[b].size > 1 && Next(lay, b) < |mem|
    ensures Tags(MarkUsed(mem, b, lay[b].size), Retagged(lay, b, true))
  {
    var end := |mem| - 1;
    assert Tile(lay, end, b);
    var mem', lay' := MarkUsed(mem, b, lay[b].size), Retagged(lay, b, true);
    forall c | c in lay' ensures Tagged(mem', lay', c) {
      assert Tagged(mem, lay, c);
      if c != b { Elsewhere(lay, end, b, c); }
    }
  }

  lemma MergedTags(mem: Memory, lay: Layout, b: nat)
    requires FIRST < |mem| && Geometry(lay, |mem| - 1) && Tags(mem, lay) && b in lay && Next(lay, b) in lay
    ensures var size := lay[b].size + lay[Next(lay, b)].size;
      1 < size && b + size < |mem| && Tags(MarkFree(mem, b, size), Merged(lay, b))
  {
    hide Geometry, Tagged, MarkFree;
    MergedFences(mem, lay, b);
    var size := lay[b].size + lay[Next(lay, b)].size;
    var mem', lay' := MarkFree(mem, b, size), Merged(lay, b);
    MergedFences(mem, lay, b);
    forall c | c in lay' ensures Tagged(mem', lay', c) {
      if c != b { MergedTagged(mem, lay, b, c); }
    }
  }

  // The fences and the merged block itself.
  lemma MergedFences(mem: Memory, lay: Layout, b: nat)
    requires FIRST < |mem| && Geometry(lay, |mem| - 1) && Tags(mem, lay) && b in lay && Next(lay, b) in lay
    ensures var size := lay[b].size + lay[Next(lay, b)].size;
      && 1 < size && b + size < |mem|
      && var r := MarkFree(mem, b, size);
      && Tagged(r, Merged(lay, b), b)
      && r[FIRST - 1] == FENCE && r[FIRST].pinuse && r[|r| - 1].inuse && r[|r| - 1].size == 0
  {
    var end, q := |mem| - 1, Next(lay, b);
    assert Tile(lay, end, b) && Tile(lay, end, q);
    assert Tagged(mem, lay, b);
  }

  // A block that is not part of the merger keeps its tags.
  lemma MergedTagged(mem: Memory, lay: Layout, b: nat, c: nat)
    requires FIRST < |mem| && Geometry(lay, |mem| - 1) && Tags(mem, lay) && b in lay && Next(lay, b) in lay
    requires c in lay && c != b && c != Next(lay, b)
    ensures var size := lay[b].size + lay[Next(lay, b)].size;
      1 < size && b + size < |mem| && Tagged(MarkFree(mem, b, size), Merged(lay, b), c)
  {
    var end, q := |mem| - 1, Next(lay, b);
    assert Tile(lay, end, b) && Tile(lay, end, q);
    assert Tagged(mem, lay, c) && Tagged(mem, lay, b);
    Elsewhere(lay, end, b, c);
    Elsewhere(lay, end, q, c);
  }

  // The words written when the first `size` of `total` words become used and the rest stays free.
  ghost predicate SplitWrites(mem: Memory, r: Memory, b: nat, size: nat, total: nat)
    requires 1 < size && size + 1 < total && b + total < |mem|
  {
    && |r| == |mem|
    && r[b] == Word(true, mem[b].pinuse, size) && r[b + size] == Word(false, true, total - size)
    && r[b + total - 1] == Word(false, true, total - size) && r[b + total] == mem[b + total].(pinuse := false)
    && (forall a :: 0 <= a < |mem| && a != b && a != b + size && a != b + total - 1 && a != b + total ==>
          r[a] == mem[a])
  }

  lemma SplitTagged(mem: Memory, r: Memory, lay: Layout, b: nat, size: nat, c: nat)
    requires FIRST < |mem| && Geometry(lay, |mem| - 1) && Tags(mem, lay) && b in lay
    requires MIN_BLOCK_SIZE_WORDS <= size && size + MIN_BLOCK_SIZE_WORDS <= lay[b].size && Next(lay, b) < |mem|
    requires SplitWrites(mem, r, b, size, lay[b].size) && c in Split(lay, b, size)
    ensures Tagged(r, Split(lay, b, size), c)
  {
    if c != b && c != b + size {
      assert Tagged(mem, lay, c);
      Elsewhere(lay, |mem| - 1, b, c);
    }
  }

  lemma SplitTags(mem: Memory, lay: Layout, b: nat, size: nat)
    requires FIRST < |mem| && Geometry(lay, |mem| - 1) && Tags(mem, lay) && b in lay
    requires MIN_BLOCK_SIZE_WORDS <= size && size + MIN_BLOCK_SIZE_WORDS <= lay[b].size
    ensures Next(lay, b) < |mem|
    ensures Tags(MarkFree(MarkUsed(mem, b, size), b + size, lay[b].size - size), Split(lay, b, size))
  {
    assert Tile(lay, |mem| - 1, b);
    var r := MarkFree(MarkUsed(mem, b, size), b + size, lay[b].size - size);
    assert SplitWrites(mem, r, b, size, lay[b].size);
    forall c | c in Split(lay, b, size) ensures Tagged(r, Split(lay, b, size), c) {
      SplitTagged(mem, r, lay, b, size, c);
    }
  }

  lemma ExtendedTags(mem: Memory, lay: Layout, words: nat, fresh': Memory)
    requires FIRST < |mem| && Geometry(lay, |mem| - 1) && Tags(mem, lay)
    requires words >= MIN_BLOCK_SIZE_WORDS && |fresh'| == words
    ensures var b := |mem| - 1;
      Tags(MarkFree(mem + fresh', b, words)[b + words := FENCE], Extended(lay, b, words))
  {
    hide Geometry;
    var b := |mem| - 1;
    var r := MarkFree(mem + fresh', b, words)[b + words := FENCE];
    assert |r| == b + words + 1 && r[b] == Word(false, mem[b].pinuse, words) && r[b + words - 1] == r[b];
    assert r[..b] == mem[..b];
    assert r[FIRST - 1] == r[..b][FIRST - 1];
    if FIRST < b { assert r[FIRST] == r[..b][FIRST]; }
    forall c | c in Extended(lay, b, words) ensures Tagged(r, Extended(lay, b, words), c) {
      if c != b { ExtendedTagged(mem, r, lay, words, c); }
    }
  }

  lemma ExtendedTagged(mem: Memory, r: Memory, lay: Layout, words: nat, c: nat)
    requires FIRST < |mem| && Geometry(lay, |mem| - 1) && Tags(mem, lay) && c in lay
    requires var b := |mem| - 1; b < |r| && r[b].pinuse == mem[b].pinuse && r[..b] == mem[..b] && c != b
    ensures Tagged(r, Extended(lay, |mem| - 1, words), c)
  {
    var b := |mem| - 1;
    assert Tagged(mem, lay, c) && Tile(lay, b, c);
    assert r[c] == r[..b][c] && r[Next(lay, c) - 1] == r[..b][Next(lay, c) - 1];
    if Next(lay, c) < b { assert r[Next(lay, c)] == r[..b][Next(lay, c)]; }
  }
}
