/**
 * The cuckoo hash configuration: the per-entry sizes used in the storage
 * estimates, and `ibltNumOfCells`, the number of IBLT cells each table
 * entry needs for a wanted success rate in restoring its rule list.
 */
module CuckooConfig {
  /** Bits of one rule in a raw linked list: 32 for the rule number, 32 for the pointer. */
  const SidEntryInLinkedList: nat := 64
  /** Bits of one IBLT cell: 32 for the xor of rule numbers and 8 for the bloom filter. */
  const IbltCellSize: nat := 40

  /** The substring shapes the table knows: L of 4 or 8 bytes, a gap G of 1 or 2. */
  predicate SupportedShape(l: nat, g: nat)
  {
    (l == 8 || l == 4) && (g == 1 || g == 2)
  }

  /** The success rates, in whole percent, the table knows. */
  predicate KnownRate(rate: int)
  {
    rate == 100 || rate == 99 || rate == 95 || rate == 85
  }

  /**
   * `ibltNumOfCells(L, G, success_rate)`, with `rate` the already truncated
   * `int(success_rate * 100)`. Unknown shapes and unknown rates give 0;
   * every known combination gives a power of two between 4 and 256.
   */
  function IbltNumOfCells(l: nat, g: nat, rate: int): (r: nat)
    ensures r != 0 <==> SupportedShape(l, g) && KnownRate(rate)
    ensures r == 0 || r == 4 || r == 8 || r == 16 || r == 32 || r == 64 || r == 128 || r == 256
  {
    if l == 8 && g == 1 then
      match rate
      case 100 => 128
      case 99 => 32
      case 95 => 8
      case 85 => 4
      case _ => 0
    else if l == 8 && g == 2 then
      match rate
      case 100 => 128
      case 99 => 32
      case 95 => 8
      case 85 => 4
      case _ => 0
    else if l == 4 && g == 1 then
      match rate
      case 100 => 256
      case 99 => 64
      case 95 => 16
      case 85 => 8
      case _ => 0
    else if l == 4 && g == 2 then
      match rate
      case 100 => 256
      case 99 => 64
      case 95 => 16
      case 85 => 8
      case _ => 0
    else 0
  }

  /** Eight-byte substrings: 128, 32, 8 and 4 cells for 100, 99, 95 and 85 percent. */
  lemma EightByteCells(g: nat)
    requires g == 1 || g == 2
    ensures IbltNumOfCells(8, g, 100) == 128 && IbltNumOfCells(8, g, 99) == 32
    ensures IbltNumOfCells(8, g, 95) == 8 && IbltNumOfCells(8, g, 85) == 4
  {
  }

  /** Asking for a lower success rate never needs more cells. */
  lemma CellsShrinkWithRate(l: nat, g: nat)
    requires SupportedShape(l, g)
    ensures IbltNumOfCells(l, g, 100) > IbltNumOfCells(l, g, 99) > IbltNumOfCells(l, g, 95) > IbltNumOfCells(l, g, 85) > 0
  {
  }

  /** Four-byte substrings need twice the cells of eight-byte ones, at every gap and rate. */
  lemma ShortSubstringsNeedTwice(g: nat, rate: int)
    ensures IbltNumOfCells(4, g, rate) == 2 * IbltNumOfCells(8, g, rate)
  {
  }

  /** The gap does not change the cell count. */
  lemma GapIrrelevant(l: nat, rate: int)
    ensures IbltNumOfCells(l, 1, rate) == IbltNumOfCells(l, 2, rate)
  {
  }
}
