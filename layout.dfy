/** The memory layout the tracker decodes, stated as functions of the game's RAM
    image (a byte sequence indexed by absolute address):

      - a 32-bit pointer stored at POINTER_ADDRESS, read as an unsigned
        little-endian word; the inventory table starts BASE_DISPLACEMENT bytes
        after the address it holds;
      - one SLOT_STRIDE-byte slot per category, at the category's ordinal;
      - in each slot, a one-byte count at COUNT_OFFSET and, from the start of
        the slot, one 4-byte word per owned part whose first byte is the part's
        catalog index.

    The Inventory module's methods are proved to compute exactly these values. */
module Layout {
  import opened Categories

  newtype byte = b: int | 0 <= b < 256

  const POINTER_ADDRESS: nat := 0x9044c30
  const BASE_DISPLACEMENT: nat := 0x3AA4
  const SLOT_STRIDE: nat := 0x204
  const COUNT_OFFSET: nat := 0x200
  const U32_LIMIT: nat := 0x1_0000_0000

  /** One read performed on the RAM: `length` bytes starting at `offset`. */
  datatype Access = ReadAt(offset: nat, length: nat)

  // ---------------------------------------------------------------------------
  // Unsigned 32-bit little-endian words

  /** The unsigned value of a 4-byte little-endian word. */
  function DecodeU32(w: seq<byte>): (v: nat)
    requires |w| == 4
    ensures v < U32_LIMIT
  {
    w[0] as nat + 0x100 * w[1] as nat + 0x1_0000 * w[2] as nat + 0x100_0000 * w[3] as nat
  }

  /** The 4-byte little-endian encoding of a 32-bit value. */
  function EncodeU32(v: nat): (w: seq<byte>)
    requires v < U32_LIMIT
    ensures |w| == 4
  {
    [(v % 0x100) as byte, (v / 0x100 % 0x100) as byte,
     (v / 0x100 / 0x100 % 0x100) as byte, (v / 0x100 / 0x100 / 0x100) as byte]
  }

  /** Euclidean division by 0x100: low byte and the rest. */
  lemma SplitLowByte(x: nat, lo: nat, hi: nat)
    requires lo < 0x100 && x == lo + 0x100 * hi
    ensures x % 0x100 == lo && x / 0x100 == hi
  {
  }

  lemma DecodeEncode(v: nat)
    requires v < U32_LIMIT
    ensures DecodeU32(EncodeU32(v)) == v
  {
    var q1 := v / 0x100;
    var q2 := q1 / 0x100;
    var q3 := q2 / 0x100;
    assert v == v % 0x100 + 0x100 * q1;
    assert q1 == q1 % 0x100 + 0x100 * q2;
    assert q2 == q2 % 0x100 + 0x100 * q3;
  }

  lemma EncodeDecode(w: seq<byte>)
    requires |w| == 4
    ensures EncodeU32(DecodeU32(w)) == w
  {
    var b0, b1, b2, b3 := w[0] as nat, w[1] as nat, w[2] as nat, w[3] as nat;
    var v := DecodeU32(w);
    SplitLowByte(v, b0, b1 + 0x100 * b2 + 0x1_0000 * b3);
    SplitLowByte(b1 + 0x100 * b2 + 0x1_0000 * b3, b1, b2 + 0x100 * b3);
    SplitLowByte(b2 + 0x100 * b3, b2, b3);
  }

  // ---------------------------------------------------------------------------
  // The inventory table

  predicate PointerReadable(mem: seq<byte>)
  {
    POINTER_ADDRESS + 4 <= |mem|
  }

  /** inventory_start: the pointer word at POINTER_ADDRESS plus BASE_DISPLACEMENT. */
  function InventoryStart(mem: seq<byte>): (start: nat)
    requires PointerReadable(mem)
    ensures BASE_DISPLACEMENT <= start < U32_LIMIT + BASE_DISPLACEMENT
  {
    DecodeU32(mem[POINTER_ADDRESS..POINTER_ADDRESS + 4]) + BASE_DISPLACEMENT
  }

  /** The table start depends on the four pointer bytes and on nothing else. */
  lemma InventoryStartDependsOnPointer(m1: seq<byte>, m2: seq<byte>)
    requires PointerReadable(m1) && PointerReadable(m2)
    requires m1[POINTER_ADDRESS..POINTER_ADDRESS + 4] == m2[POINTER_ADDRESS..POINTER_ADDRESS + 4]
    ensures InventoryStart(m1) == InventoryStart(m2)
  {
  }

  /** Every table start in range is reached by exactly the pointer that encodes it. */
  lemma InventoryStartOfPointer(mem: seq<byte>, start: nat)
    requires PointerReadable(mem)
    requires BASE_DISPLACEMENT <= start < U32_LIMIT + BASE_DISPLACEMENT
    ensures InventoryStart(mem) == start
        <==> mem[POINTER_ADDRESS..POINTER_ADDRESS + 4] == EncodeU32(start - BASE_DISPLACEMENT)
  {
    var w := mem[POINTER_ADDRESS..POINTER_ADDRESS + 4];
    DecodeEncode(start - BASE_DISPLACEMENT);
    EncodeDecode(w);
  }

  /** Start of a category's slot in a table that starts at `base`. */
  function SlotAddress(base: nat, t: Category): nat
  {
    base + PartIdx(t) * 0x204  // SLOT_STRIDE, written out so the product stays linear
  }

  /** Address of a category's one-byte owned count. */
  function CountAddress(base: nat, t: Category): nat
  {
    SlotAddress(base, t) + COUNT_OFFSET
  }

  /** Address of the i-th identifier word of a category. */
  function WordAddress(base: nat, t: Category, i: nat): nat
  {
    SlotAddress(base, t) + 4 * i
  }

  predicate CountReadable(mem: seq<byte>, t: Category)
  {
    PointerReadable(mem) && CountAddress(InventoryStart(mem), t) < |mem|
  }

  /** The owned count byte of category t. */
  function Count(mem: seq<byte>, t: Category): nat
    requires CountReadable(mem, t)
  {
    mem[CountAddress(InventoryStart(mem), t)] as nat
  }

  /** Every byte that owned_parts(t) reads lies inside the image. */
  predicate SlotReadable(mem: seq<byte>, t: Category)
  {
    CountReadable(mem, t) && SlotAddress(InventoryStart(mem), t) + 4 * Count(mem, t) <= |mem|
  }

  /** Where owned_parts(t) leaves the cursor: just past its last identifier word. */
  function CursorAfter(mem: seq<byte>, t: Category): nat
    requires SlotReadable(mem, t)
  {
    SlotAddress(InventoryStart(mem), t) + 4 * Count(mem, t)
  }

  // ---------------------------------------------------------------------------
  // Decoding the owned parts

  /** The first bytes of the n consecutive 4-byte words starting at addr. */
  function IdentifierBytes(mem: seq<byte>, addr: nat, n: nat): (ids: seq<nat>)
    requires addr + 4 * n <= |mem|
    ensures |ids| == n
    ensures forall i :: 0 <= i < n ==> ids[i] == mem[addr + 4 * i] as nat
  {
    if n == 0 then [] else IdentifierBytes(mem, addr, n - 1) + [mem[addr + 4 * (n - 1)] as nat]
  }

  /** owned_parts(t): as many identifiers as the count byte says, each the first
      byte of its word in the category's slot. */
  function OwnedParts(mem: seq<byte>, t: Category): (ids: seq<nat>)
    requires SlotReadable(mem, t)
    ensures |ids| == mem[CountAddress(InventoryStart(mem), t)] as nat < 0x100
    ensures forall i :: 0 <= i < |ids| ==>
              ids[i] == mem[WordAddress(InventoryStart(mem), t, i)] as nat && ids[i] < 0x100
  {
    IdentifierBytes(mem, SlotAddress(InventoryStart(mem), t), Count(mem, t))
  }

  /** A zero count byte means no part is owned. */
  lemma OwnedPartsEmpty(mem: seq<byte>, t: Category)
    requires SlotReadable(mem, t)
    ensures OwnedParts(mem, t) == [] <==> Count(mem, t) == 0
  {
  }

  /** The LEGS example: with the table at `base`, a count of 2 and words starting
      with bytes 7 and 15, owned_parts('LEGS') is [7, 15] in that order. */
  lemma LegsExample(mem: seq<byte>, base: nat)
    requires PointerReadable(mem)
    requires BASE_DISPLACEMENT <= base < U32_LIMIT + BASE_DISPLACEMENT
    requires mem[POINTER_ADDRESS..POINTER_ADDRESS + 4] == EncodeU32(base - BASE_DISPLACEMENT)
    requires base + 3 * SLOT_STRIDE + COUNT_OFFSET < |mem|
    requires mem[base + 3 * SLOT_STRIDE + COUNT_OFFSET] == 2
    requires mem[base + 3 * SLOT_STRIDE] == 7 && mem[base + 3 * SLOT_STRIDE + 4] == 15
    ensures SlotReadable(mem, LEGS) && OwnedParts(mem, LEGS) == [7, 15]
  {
    assert InventoryStart(mem) == base by { InventoryStartOfPointer(mem, base); }
    assert SlotAddress(base, LEGS) == base + 3 * SLOT_STRIDE;
    var ids := OwnedParts(mem, LEGS);
    assert |ids| == 2 && ids[0] == 7 && ids[1] == 15;
  }

  // ---------------------------------------------------------------------------
  // Where the reads fall

  /** Distinct categories have disjoint slots, so their count bytes differ. */
  lemma SlotsDisjoint(base: nat, t1: Category, t2: Category, a: nat)
    requires t1 != t2
    requires SlotAddress(base, t1) <= a < SlotAddress(base, t1) + SLOT_STRIDE
    ensures !(SlotAddress(base, t2) <= a < SlotAddress(base, t2) + SLOT_STRIDE)
    ensures CountAddress(base, t1) != CountAddress(base, t2)
  {
    PartIdxBijective(t1, t2, 0);
  }

  /** With at most 128 owned parts, every identifier read stays inside the
      category's own slot and before its count byte. */
  lemma WordsInsideSlot(base: nat, t: Category, n: nat, i: nat)
    requires n <= COUNT_OFFSET / 4 && i < n
    ensures SlotAddress(base, t) <= WordAddress(base, t, i)
    ensures WordAddress(base, t, i) + 4 <= CountAddress(base, t) < SlotAddress(base, t) + SLOT_STRIDE
  {
  }

  /** Nothing in the code bounds the count: a count above 128 makes the 129th
      read start at the count byte itself, and a count above 129 makes the 130th
      read start in the next category's slot. */
  lemma OverlongCountLeavesSlot(base: nat, t: Category)
    ensures WordAddress(base, t, COUNT_OFFSET / 4) == CountAddress(base, t)
    ensures PartIdx(t) + 1 < CATEGORY_COUNT ==>
              WordAddress(base, t, COUNT_OFFSET / 4 + 1) == SlotAddress(base, Declared[PartIdx(t) + 1])
  {
    var i := PartIdx(t);
    if i + 1 < CATEGORY_COUNT {
      PartIdxOfDeclared(i + 1);
      assert SlotAddress(base, Declared[i + 1]) == base + i * 0x204 + 0x204;
    }
  }

  // ---------------------------------------------------------------------------
  // The reads owned_parts performs

  /** n 4-byte reads at consecutive words from addr. */
  function IdentifierReads(addr: nat, n: nat): (r: seq<Access>)
    ensures |r| == n
    ensures forall i :: 0 <= i < n ==> r[i] == ReadAt(addr + 4 * i, 4)
  {
    if n == 0 then [] else IdentifierReads(addr, n - 1) + [ReadAt(addr + 4 * (n - 1), 4)]
  }

  /** The reads of one owned_parts(t) call, in order: the pointer, the count
      byte, the pointer again (inventory_start is not cached), then one word per
      owned part. */
  function OwnedPartsReads(mem: seq<byte>, t: Category): seq<Access>
    requires SlotReadable(mem, t)
  {
    [ReadAt(POINTER_ADDRESS, 4), ReadAt(CountAddress(InventoryStart(mem), t), 1),
     ReadAt(POINTER_ADDRESS, 4)]
    + IdentifierReads(SlotAddress(InventoryStart(mem), t), Count(mem, t))
  }

  /** owned_parts reads the count before any identifier, reads exactly `count`
      identifier words and nothing else, and with a zero count reads no identifier. */
  lemma OwnedPartsReadsCount(mem: seq<byte>, t: Category)
    requires SlotReadable(mem, t)
    ensures var r := OwnedPartsReads(mem, t);
      && |r| == 3 + |OwnedParts(mem, t)|
      && r[1] == ReadAt(CountAddress(InventoryStart(mem), t), 1)
      && (forall k :: 3 <= k < |r| ==>
            r[k].length == 4 && r[k].offset == WordAddress(InventoryStart(mem), t, k - 3))
      && (Count(mem, t) == 0 ==> r == [r[0], r[1], r[2]])
  {
  }

  /** With a count of at most 128, every read owned_parts makes after the
      header lies in the category's slot and before its count byte. */
  lemma {:induction false} OwnedPartsReadsInSlot(mem: seq<byte>, t: Category)
    requires SlotReadable(mem, t) && Count(mem, t) <= COUNT_OFFSET / 4
    ensures var r := OwnedPartsReads(mem, t); var base := InventoryStart(mem);
      forall k :: 3 <= k < |r| ==>
        SlotAddress(base, t) <= r[k].offset && r[k].offset + r[k].length <= CountAddress(base, t)
  {
    var r := OwnedPartsReads(mem, t);
    var base := InventoryStart(mem);
    forall k | 3 <= k < |r|
      ensures SlotAddress(base, t) <= r[k].offset && r[k].offset + r[k].length <= CountAddress(base, t)
    {
      WordsInsideSlot(base, t, Count(mem, t), k - 3);
    }
  }
}
