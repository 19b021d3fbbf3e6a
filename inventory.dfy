/** The RAM reader and ArmoredCoreInventory: the imperative decoder that seeks
    and reads through a single cursor, proved to return what the Layout module
    specifies and to perform exactly the reads Layout.OwnedPartsReads lists. */
module Inventory {
  import opened Categories
  import opened Layout

  /** The remote RAM: an image indexed by absolute address and one seek/read
      cursor. `Trace` records every read made so far. */
  class Ram {
    const mem: seq<byte>
    var pos: nat
    ghost var Trace: seq<Access>

    constructor (image: seq<byte>)
      ensures mem == image && pos == 0 && Trace == []
    {
      mem := image;
      pos := 0;
      Trace := [];
    }

    method Seek(offset: nat)
      modifies this`pos
      ensures pos == offset
    {
      pos := offset;
    }

    /** Reads exactly n bytes at the cursor and advances it past them. */
    method Read(n: nat) returns (bytes: seq<byte>)
      requires pos + n <= |mem|
      modifies this`pos, this`Trace
      ensures bytes == mem[old(pos)..old(pos) + n]
      ensures pos == old(pos) + n
      ensures Trace == old(Trace) + [ReadAt(old(pos), n)]
    {
      bytes := mem[pos..pos + n];
      pos := pos + n;
      Trace := Trace + [ReadAt(old(pos), n)];
    }
  }

  class ArmoredCoreInventory {
    const ram: Ram

    constructor (ram: Ram)
      ensures this.ram == ram
    {
      this.ram := ram;
    }

    /** inventory_start: re-read from the pointer on every call. */
    method InventoryStart() returns (start: nat)
      requires PointerReadable(ram.mem)
      modifies ram`pos, ram`Trace
      ensures start == Layout.InventoryStart(ram.mem)
      ensures ram.pos == POINTER_ADDRESS + 4
      ensures ram.Trace == old(ram.Trace) + [ReadAt(POINTER_ADDRESS, 4)]
    {
      ram.Seek(POINTER_ADDRESS);
      var word := ram.Read(4);
      start := DecodeU32(word) + BASE_DISPLACEMENT;
    }

    /** owned_parts: reads the count byte, seeks back to the slot start and
        keeps the first byte of each of `count` 4-byte words. */
    method OwnedParts(t: Category) returns (parts: seq<nat>)
      requires SlotReadable(ram.mem, t)
      modifies ram`pos, ram`Trace
      ensures parts == Layout.OwnedParts(ram.mem, t)
      ensures ram.pos == CursorAfter(ram.mem, t)
      ensures ram.Trace == old(ram.Trace) + OwnedPartsReads(ram.mem, t)
    {
      ghost var mem := ram.mem;
      ghost var base := Layout.InventoryStart(mem);
      ghost var before := ram.Trace;
      var start := InventoryStart();
      ram.Seek(start + PartIdx(t) * 0x204 + COUNT_OFFSET);
      var countByte := ram.Read(1);
      var cnt := countByte[0] as nat;
      assert cnt == Count(mem, t);
      start := InventoryStart();
      var slot := start + PartIdx(t) * 0x204;
      assert slot == SlotAddress(base, t);
      ram.Seek(slot);
      assert ram.Trace == before
        + [ReadAt(POINTER_ADDRESS, 4), ReadAt(CountAddress(base, t), 1), ReadAt(POINTER_ADDRESS, 4)];
      parts := ReadIdentifiers(slot, cnt);
    }

    /** The loop of owned_parts: from the cursor at `slot`, reads `count` 4-byte
        words and keeps the first byte of each. */
    method ReadIdentifiers(slot: nat, count: nat) returns (parts: seq<nat>)
      requires ram.pos == slot && slot + 4 * count <= |ram.mem|
      modifies ram`pos, ram`Trace
      ensures parts == IdentifierBytes(ram.mem, slot, count)
      ensures ram.pos == slot + 4 * count
      ensures ram.Trace == old(ram.Trace) + IdentifierReads(slot, count)
    {
      parts := [];
      for i := 0 to count
        invariant ram.pos == slot + 4 * i
        invariant parts == IdentifierBytes(ram.mem, slot, i)
        invariant ram.Trace == old(ram.Trace) + IdentifierReads(slot, i)
      {
        var word := ram.Read(4);
        parts := parts + [word[0] as nat];
      }
    }
  }
}
