/** Sectors of the file system device (src/devices/block.h). */
module Disk {
  import opened Bytes

  const BLOCK_SECTOR_SIZE: nat := 512

  type Sector = s: seq<byte> | |s| == BLOCK_SECTOR_SIZE witness ZeroBytes(BLOCK_SECTOR_SIZE)

  function ZeroBytes(n: nat): (s: seq<byte>)
    ensures |s| == n && forall i :: 0 <= i < n ==> s[i] == 0
  {
    seq(n, _ => 0)
  }

  const ZERO_SECTOR: Sector := ZeroBytes(BLOCK_SECTOR_SIZE)
}
