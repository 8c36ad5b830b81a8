/** Constants of the allocator's memory layout and the ways a run can stop. */
module Layout {

  const PAGE_SIZE: int := 4096
  const MAP_START: int := 0x1000_0000_0000
  const INITIAL_PAGES: int := 16
  const GENERATION_CHILDREN: int := 16
  const MAX_MAPS: int := 65530

  // Sizes of the C structs on a 64-bit target.
  const PAGE_HEADER: int := 24
  const SEGMENT_HEADER: int := 16
  const ADDRESS_SIZE: int := 8
  const GENERATION: int := 136

  const NULL: int := 0

  /** Why a call did not return: the failing assertion, or the exit taken.
      `Going` means that the call returned. */
  datatype Stop =
    | Going
    | NoNeighbour    // "oh no": an exact hit on the first or the last map
    | LeftMost       // "unimplemented: hitting left most map"
    | EmptyLeft      // assert(lptr->len != 0)
    | PastEnd        // remove_map past the last map
    | TableFull      // the table has no room for two more maps
    | ShortGrowth    // the doubled heap still does not include the address
    | NoFit          // a fresh page does not fit the segment
    | NotUsed        // freeing a segment twice
    | NoGeneration   // checking out an id that no generation has
    | OutOfHeap      // a copy that runs past the end of the heap
    | OutsideMutation  // a fault while nothing is being mutated
    | NoPage         // a fault outside every page
    | NoSegment      // a fault in a page, but in none of its segments
    | NotCommitted   // a fault on a page that is not committed
    | WildPointer    // a pointer that is no payload: what happens then is not modelled

  /** The size in bytes of a number of physical pages. */
  function Bytes(pages: int): int
  {
    4096 * pages
  }

  predicate Aligned(addr: int) { addr % 4096 == 0 }

  function RoundDown(addr: int): (r: int)
    ensures r <= addr < r + PAGE_SIZE && Aligned(r)
  {
    addr - addr % 4096
  }

  function RoundUp(addr: int): (r: int)
    ensures addr <= r < addr + PAGE_SIZE && Aligned(r)
  {
    if addr % 4096 != 0 then RoundDown(addr + 4096) else addr
  }
}
