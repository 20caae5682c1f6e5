/** The flags byte of a page header: what its bits say, and why a deleted page must
    lose its cached copy. */
module Bits {
  import opened Image

  const PH_USED: byte := 0x01
  const PH_FINAL: byte := 0x02
  const PH_INDEX: byte := 0x04
  const PH_IXDELE: byte := 0x40
  const PH_DELET: byte := 0x80

  /** Flag bits are active when clear. */
  function Flag(on: bool, mask: byte): byte
  {
    if on then 0xff ^ mask else 0xff
  }

  function FlagsOf(h: Header): byte
  {
    Flag(true, PH_USED) & Flag(h.final, PH_FINAL) & Flag(h.ix, PH_INDEX)
    & Flag(!h.live, PH_DELET) & Flag(!h.ixlive, PH_IXDELE)
  }

  /** The flags byte a deletion writes. */
  const DELETE_FLAGS: byte := 0xff ^ (PH_DELET | PH_USED)

  /** The flags byte the removal of an object writes to its header. */
  const REMOVE_FLAGS: byte := 0xff ^ (PH_USED | PH_INDEX | PH_FINAL | PH_IXDELE)

  /** Finishing a page and marking an object as being removed only clear flag bits,
      and leave flash with the flags of the page afterwards. */
  lemma FlagWritesClear(h: Header)
    ensures 0xff & FlagsOf(h) == FlagsOf(h)
    ensures FlagsOf(h) & FlagsOf(h.(final := true)) == FlagsOf(h.(final := true))
    ensures h.final && h.ix && h.live && h.ixlive ==>
              && REMOVE_FLAGS == FlagsOf(h.(ixlive := false))
              && FlagsOf(h) & REMOVE_FLAGS == REMOVE_FLAGS
  {
  }

  /** The flags byte a deletion writes leaves flash with the flags of the dead page,
      but it is not those flags: a copy of the page that took the byte would differ
      from flash whenever the page was finished, an index page, or being removed. */
  lemma DeleteNeedsDrop(h: Header)
    ensures FlagsOf(h) & DELETE_FLAGS == FlagsOf(h.(live := false))
    ensures FlagsOf(h) & DELETE_FLAGS == DELETE_FLAGS <==> !h.final && !h.ix && h.ixlive
  {
  }

  /** A page no header has been written to. */
  lemma ErasedFlags(h: Header)
    requires !h.final && !h.ix && h.ixlive && !h.live
    ensures FlagsOf(h) == DELETE_FLAGS
  {
  }
}
