/** What a page size fixes for heap pages and free space map pages alike. */
module PageLayout {
  const HEADER := 14
  const SLOT_SIZE := 7

  predicate PageSize(p: int) { p in {32, 64, 128, 256, 512, 1024, 2048, 4096, 8192, 16384, 32768} }

  /** The bytes behind the header. */
  function DataSize(pageSize: int): int { pageSize - HEADER }

  /** The longest record an empty page takes. */
  function MaxTuple(pageSize: int): int { DataSize(pageSize) - SLOT_SIZE }
}

/** Powers, shared by the height of the index and the reach of the free space map. */
module Powers {
  function Pow(b: nat, e: nat): nat { if e == 0 then 1 else b * Pow(b, e - 1) }
}
