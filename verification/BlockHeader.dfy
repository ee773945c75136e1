/** The block header `blknode_t`, its flag byte, and the `MPOOL_*` macros on it. */
module BlockHeader {
  import opened BuddyTree

  /** `ptr` is the offset, from the start of the pool, that `mpool_alloc` hands out. */
  datatype Header = Header(flags: bv8, logsize: nat, ptr: nat)

  const NODE_AVAIL: bv8 := 1
  const NODE_LR: bv8 := 2
  const NODE_PARENT: bv8 := 4

  predicate FlagAvail(f: bv8) { f & NODE_AVAIL != 0 }

  predicate FlagRight(f: bv8) { f & NODE_LR != 0 }

  predicate FlagParent(f: bv8) { f & NODE_PARENT != 0 }

  /** Sets or clears the AVAIL bit and leaves the other bits alone. */
  function MarkAvail(f: bv8, avail: bool): (r: bv8)
    ensures FlagAvail(r) == avail && FlagRight(r) == FlagRight(f) && FlagParent(r) == FlagParent(f)
  {
    if avail then f | NODE_AVAIL else f & !NODE_AVAIL
  }

  /** Sets or clears the LR bit and leaves the other bits alone. */
  function MarkRight(f: bv8, right: bool): (r: bv8)
    ensures FlagAvail(r) == FlagAvail(f) && FlagRight(r) == right && FlagParent(r) == FlagParent(f)
  {
    if right then f | NODE_LR else f & !NODE_LR
  }

  /** Sets or clears the PARENT bit and leaves the other bits alone. */
  function MarkParent(f: bv8, parent: bool): (r: bv8)
    ensures FlagAvail(r) == FlagAvail(f) && FlagRight(r) == FlagRight(f) && FlagParent(r) == parent
  {
    if parent then f | NODE_PARENT else f & !NODE_PARENT
  }

  /** `MPOOL_BLOCK_INIT`: every field set, whatever the memory held in the flag byte before. */
  function BlockInit(garbage: bv8, ptr: nat, avail: bool, right: bool, parent: bool, logsize: nat): (h: Header)
    ensures Describes(h, Block(avail, logsize), Position(right, parent), ptr)
  {
    Header(MarkParent(MarkRight(MarkAvail(garbage, avail), right), parent), logsize, ptr)
  }

  /** The header says what the tree says. */
  ghost predicate Describes(h: Header, s: Slot, p: Position, ptr: nat) {
    && s == Block(FlagAvail(h.flags), h.logsize)
    && p == Position(FlagRight(h.flags), FlagParent(h.flags))
    && h.ptr == ptr
  }

  /** Two headers agree in every field and in the three flag bits that have a meaning. */
  ghost predicate SameFields(h: Header, h': Header) {
    && FlagAvail(h'.flags) == FlagAvail(h.flags) && FlagRight(h'.flags) == FlagRight(h.flags)
    && FlagParent(h'.flags) == FlagParent(h.flags) && h'.logsize == h.logsize && h'.ptr == h.ptr
  }
}
