/** 32-bit little-endian words in a sector: the on-disk form of `struct inode_disk` and of the
    indirect tables (src/filesys/inode.c). */
module IndexTable {
  import opened Bytes
  import opened Disk

  const WORDS: nat := 128

  // (block_sector_t) -1: the slot is empty.
  const NONE: nat := 0xFFFF_FFFF
  // free_map_allocate failed.
  const NO_SPACE: nat := 0xFFFF_FFFE

  function WordAt(s: Sector, k: nat): (w: nat)
    requires k < WORDS
    ensures w <= NONE
  {
    s[4 * k] as nat + 0x100 * (s[4 * k + 1] as nat)
    + 0x1_0000 * (s[4 * k + 2] as nat) + 0x100_0000 * (s[4 * k + 3] as nat)
  }

  function ByteOf(w: nat, n: nat): (b: byte)
    requires n < 4
  {
    (match n
     case 0 => w % 0x100
     case 1 => w / 0x100 % 0x100
     case 2 => w / 0x1_0000 % 0x100
     case _ => w / 0x100_0000 % 0x100) as byte
  }

  function WithWord(s: Sector, k: nat, w: nat): (r: Sector)
    requires k < WORDS && w <= NONE
  {
    s[4 * k := ByteOf(w, 0)][4 * k + 1 := ByteOf(w, 1)][4 * k + 2 := ByteOf(w, 2)][4 * k + 3 := ByteOf(w, 3)]
  }

  lemma FourBytes(w: nat)
    requires w <= NONE
    ensures w % 0x100 + 0x100 * (w / 0x100 % 0x100) + 0x1_0000 * (w / 0x1_0000 % 0x100)
        + 0x100_0000 * (w / 0x100_0000 % 0x100) == w
  {
    var a := w / 0x100;
    var b := a / 0x100;
    var c := b / 0x100;
    assert w / 0x1_0000 == b;
    assert w / 0x100_0000 == c;
    assert c < 0x100;
  }

  /** Storing a word and reading any word back. */
  lemma WordRoundTrip(s: Sector, k: nat, w: nat, j: nat)
    requires k < WORDS && j < WORDS && w <= NONE
    ensures WordAt(WithWord(s, k, w), j) == if j == k then w else WordAt(s, j)
  {
    FourBytes(w);
  }

  // A table with every slot empty.
  const EMPTY_TABLE: Sector := seq(BLOCK_SECTOR_SIZE, _ => 255 as byte)

  lemma EmptyTableIsEmpty(k: nat)
    requires k < WORDS
    ensures WordAt(EMPTY_TABLE, k) == NONE
  {
  }

  /** The loop that fills a fresh table: every word -1, whatever was there. */
  method FillTable(s: Sector) returns (r: Sector)
    ensures r == EMPTY_TABLE
  {
    r := s;
    var i := 0;
    while i < WORDS
      invariant 0 <= i <= WORDS
      invariant forall n :: 0 <= n < 4 * i ==> r[n] == 255
    {
      r := WithWord(r, i, NONE);
      i := i + 1;
    }
  }
}
