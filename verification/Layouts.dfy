/** How many bytes, MICROs and BLOCKs make up the nodes of the hierarchy. */
module Layouts {
  datatype Layout = Layout(microBytes: int, microsPerBlock: int, blocksPerPage: int) {
    /** core.Layout.__post_init__. */
    predicate Valid() {
      && 1 <= microBytes <= 65536 && 1 <= microsPerBlock <= 65536 && 1 <= blocksPerPage <= 65536
      && Capacity() <= 16777216
    }

    /** Bytes in a full PAGE. */
    function Capacity(): int {
      microBytes * microsPerBlock * blocksPerPage
    }

    /** The further limits of exact_layout. */
    predicate Exact() {
      && Valid()
      && microBytes <= 1024 && microsPerBlock <= 256 && blocksPerPage <= 256
      && Capacity() <= 1048576
    }

    /** Bytes in a full MICRO, BLOCK or PAGE. */
    function Width(level: nat): (w: nat)
      requires Valid() && level < 3
      ensures 0 < w
    {
      if level == 0 then microBytes
      else if level == 1 then microBytes * microsPerBlock
      else Capacity()
    }
  }

  /** The layouts that can be made, limit by limit. */
  lemma ValidMeans(layout: Layout)
    ensures layout.Valid() <==>
            && 1 <= layout.microBytes <= 65536 && 1 <= layout.microsPerBlock <= 65536
            && 1 <= layout.blocksPerPage <= 65536
            && layout.microBytes * layout.microsPerBlock * layout.blocksPerPage <= 16777216
  {
  }

  /** The layouts exact_layout returns, limit by limit. */
  lemma ExactMeans(layout: Layout)
    ensures layout.Exact() <==>
            && 1 <= layout.microBytes <= 1024
            && 1 <= layout.microsPerBlock <= 256
            && 1 <= layout.blocksPerPage <= 256
            && layout.microBytes * layout.microsPerBlock * layout.blocksPerPage <= 1048576
  {
  }
}
