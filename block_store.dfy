/**
 * The block-store device of src/block_store.c as a mutable object.
 *
 * The object holds the array of blocks; there is no separate bitmap state.
 * Exactly as in the C code, the occupancy bitmap is an overlay: its bits are
 * the bits of the bytes of blocks `BITMAP_START_BLOCK ..`, so setting a bit
 * rewrites a byte of one of those blocks and writing one of those blocks
 * rewrites bits. Every method is proved to change the blocks exactly as the
 * matching function of module Device says; the constructor is proved to reach
 * the reservation state that `Device.ReservedIsCreated` identifies with
 * `Device.Created`. The properties of the device are proved about those
 * functions.
 */
module Store {
  import opened Config
  import opened Bitmap
  import Device
  import Serial

  class BlockStore {
    /** `bs->blocks`: block `id` is `blocks[id]`. */
    var blocks: array<seq<Byte>>

    ghost predicate Valid()
      reads this, blocks
    {
      blocks.Length == BLOCK_STORE_NUM_BLOCKS && Device.WellFormed(blocks[..])
    }

    /** The abstract value of the device. */
    ghost function Contents(): Device.Image
      reads this, blocks
    {
      blocks[..]
    }

    /**
     * `block_store_create`: zeroed storage, then every block that backs the
     * bitmap is claimed through `Request`, stopping at the first refusal.
     * Afterwards exactly the bitmap's own blocks are in use and every other
     * block is zero. `Device.ReservedIsCreated` shows that this state is
     * `Device.Created()` and nothing else.
     */
    constructor ()
      ensures Valid() && fresh(blocks)
      ensures Device.ReservedUpTo(Contents(), BITMAP_START_BLOCK + BITMAP_NUM_BLOCKS)
      ensures Device.UsedBlocks(Contents()) == BITMAP_NUM_BLOCKS
    {
      blocks := new seq<Byte>[BLOCK_STORE_NUM_BLOCKS](_ => Device.ZeroBlock());
      new;
      Device.ZeroedBits(Contents());
      var i := BITMAP_START_BLOCK;
      while i < BITMAP_START_BLOCK + BITMAP_NUM_BLOCKS
        invariant BITMAP_START_BLOCK <= i <= BITMAP_START_BLOCK + BITMAP_NUM_BLOCKS
        invariant Valid() && fresh(blocks)
        invariant Device.ReservedUpTo(Contents(), i)
      {
        Device.RequestExtendsReservation(Contents(), i);
        var ok := Request(i);
        if !ok {
          break;
        }
        i := i + 1;
      }
      CountInterval(BLOCK_STORE_NUM_BLOCKS, BITMAP_START_BLOCK, BITMAP_START_BLOCK + BITMAP_NUM_BLOCKS);
    }

    // -------------------------------------------------------------------
    // The bitmap primitives, acting on the overlay bytes

    /** `bitmap_test`. */
    method Test(id: nat) returns (isSet: bool)
      requires Valid() && id < BLOCK_STORE_NUM_BLOCKS
      ensures isSet == Device.Bits(Contents())[id]
    {
      var k := id / 8;
      isSet := BitOf(blocks[Device.MapBlock(k)][k % BLOCK_SIZE_BYTES], id % 8);
      assert Device.MapByte(Contents(), k) == blocks[Device.MapBlock(k)][k % BLOCK_SIZE_BYTES];
    }

    /** `bitmap_set`. */
    method SetBit(id: nat)
      requires Valid() && id < BLOCK_STORE_NUM_BLOCKS
      modifies blocks
      ensures Valid()
      ensures Contents() == Device.WithBitmapBit(old(Contents()), id, true)
    {
      var k := id / 8;
      var b, o := Device.MapBlock(k), k % BLOCK_SIZE_BYTES;
      blocks[b] := blocks[b][o := WithBit(blocks[b][o], id % 8)];
    }

    /** `bitmap_reset`. */
    method ResetBit(id: nat)
      requires Valid() && id < BLOCK_STORE_NUM_BLOCKS
      modifies blocks
      ensures Valid()
      ensures Contents() == Device.WithBitmapBit(old(Contents()), id, false)
    {
      var k := id / 8;
      var b, o := Device.MapBlock(k), k % BLOCK_SIZE_BYTES;
      blocks[b] := blocks[b][o := WithoutBit(blocks[b][o], id % 8)];
    }

    /**
     * `bitmap_ffz`: scans the bits in ascending order for the first clear one;
     * the bit count when there is none.
     */
    method FindFirstZero() returns (index: nat)
      requires Valid()
      ensures index <= BITMAP_SIZE_BITS
      ensures index < BITMAP_SIZE_BITS ==> !Device.Bits(Contents())[index]
      ensures forall j :: 0 <= j < index ==> Device.Bits(Contents())[j]
    {
      index := 0;
      ghost var bits := Device.Bits(Contents());
      while index < BITMAP_SIZE_BITS
        invariant index <= BITMAP_SIZE_BITS
        invariant forall j :: 0 <= j < index ==> bits[j]
      {
        var isSet := Test(index);
        if !isSet {
          return;
        }
        index := index + 1;
      }
    }

    /** `bitmap_total_set`: counts the set bits one by one. */
    method CountSetBits() returns (count: nat)
      requires Valid()
      ensures count == CountSet(Device.Bits(Contents()))
    {
      ghost var bits := Device.Bits(Contents());
      count := 0;
      var i := 0;
      while i < BITMAP_SIZE_BITS
        invariant i <= BITMAP_SIZE_BITS
        invariant count == CountSet(bits[..i])
      {
        var isSet := Test(i);
        CountSetPrefixStep(bits, i);
        if isSet {
          count := count + 1;
        }
        i := i + 1;
      }
      assert bits[..i] == bits;
    }

    // -------------------------------------------------------------------
    // The block-store operations

    /** `block_store_allocate`. */
    method Allocate() returns (id: nat)
      requires Valid()
      modifies blocks
      ensures Valid()
      ensures Device.Step(id, Contents()) == Device.Allocate(old(Contents()))
    {
      var index := FindFirstZero();
      assert index == FirstZero(Device.Bits(Contents()));
      if index >= BLOCK_STORE_NUM_BLOCKS {
        return SIZE_MAX;
      }
      SetBit(index);
      return index;
    }

    /** `block_store_request`. */
    method Request(id: nat) returns (ok: bool)
      requires Valid()
      modifies blocks
      ensures Valid()
      ensures Device.Step(ok, Contents()) == Device.Request(old(Contents()), id)
    {
      if id >= BLOCK_STORE_NUM_BLOCKS {
        return false;
      }
      var taken := Test(id);
      if taken {
        return false;
      }
      SetBit(id);
      var nowSet := Test(id);
      if !nowSet {
        return false;
      }
      return true;
    }

    /** `block_store_release`. */
    method Release(id: nat)
      requires Valid()
      modifies blocks
      ensures Valid()
      ensures Contents() == Device.Release(old(Contents()), id)
    {
      if id >= BLOCK_STORE_NUM_BLOCKS {
        return;
      }
      ResetBit(id);
    }

    /** `block_store_get_used_blocks`. */
    method GetUsedBlocks() returns (used: nat)
      requires Valid()
      ensures used == Device.UsedBlocks(Contents())
      ensures used <= BLOCK_STORE_NUM_BLOCKS
    {
      used := CountSetBits();
    }

    /** `block_store_get_free_blocks`: the total less the used count. */
    method GetFreeBlocks() returns (free: nat)
      requires Valid()
      ensures free + Device.UsedBlocks(Contents()) == GetTotalBlocks()
    {
      var used := GetUsedBlocks();
      free := BLOCK_STORE_NUM_BLOCKS - used;
    }

    /** `block_store_get_total_blocks`: a constant, no device needed. */
    static function GetTotalBlocks(): (total: nat)
      ensures total == BITMAP_SIZE_BITS
    {
      BLOCK_STORE_NUM_BLOCKS
    }

    /** `block_store_read`: copies block `id` into the front of `buffer`. */
    method Read(id: nat, buffer: seq<Byte>) returns (count: nat, filled: seq<Byte>)
      requires Valid() && (id < BLOCK_STORE_NUM_BLOCKS ==> |buffer| >= BLOCK_SIZE_BYTES)
      ensures Device.Transfer(count, filled) == Device.Read(Contents(), id, buffer)
    {
      if id >= BLOCK_STORE_NUM_BLOCKS {
        return 0, buffer;
      }
      filled := blocks[id] + buffer[BLOCK_SIZE_BYTES..];
      return BLOCK_SIZE_BYTES, filled;
    }

    /** `block_store_write`: copies the front of `buffer` into block `id`. */
    method Write(id: nat, buffer: seq<Byte>) returns (count: nat)
      requires Valid() && (id < BLOCK_STORE_NUM_BLOCKS ==> |buffer| >= BLOCK_SIZE_BYTES)
      modifies blocks
      ensures Valid()
      ensures Device.Step(count, Contents()) == Device.Write(old(Contents()), id, buffer)
    {
      if id >= BLOCK_STORE_NUM_BLOCKS {
        return 0;
      }
      blocks[id] := buffer[..BLOCK_SIZE_BYTES];
      return BLOCK_SIZE_BYTES;
    }

    /**
     * The byte stream of `block_store_serialize`: the exported bitmap, then
     * every block in ascending id order, counting the bytes written.
     */
    method Serialize() returns (written: nat, file: seq<Byte>)
      requires Valid()
      ensures file == Serial.Layout(Contents())
      ensures written == |file| == BITMAP_SIZE_BYTES + BLOCK_STORE_NUM_BLOCKS * BLOCK_SIZE_BYTES
    {
      ghost var s := Contents();
      file := Device.Export(blocks[..]);
      written := BITMAP_SIZE_BYTES;
      var i := 0;
      while i < BLOCK_STORE_NUM_BLOCKS
        invariant i <= BLOCK_STORE_NUM_BLOCKS
        invariant file == Device.Export(s) + Serial.Flatten(s[..i])
        invariant written == BITMAP_SIZE_BYTES + i * BLOCK_SIZE_BYTES
      {
        assert s[..i + 1][..i] == s[..i];
        file := file + blocks[i];
        written := written + BLOCK_SIZE_BYTES;
        i := i + 1;
      }
      assert s[..i] == s;
    }
  }

  /**
   * The life of a fresh device: the bitmap occupies blocks 0..7, so the used
   * count is 8, the first allocation hands out block 8, and block 8 then
   * cannot be requested.
   */
  method Scenario(data: seq<Byte>)
    requires |data| == BLOCK_SIZE_BYTES
  {
    var bs := new BlockStore();
    var used := bs.GetUsedBlocks();
    assert used == BITMAP_NUM_BLOCKS;
    ghost var before := bs.Contents();
    assert !Device.Bits(before)[8];
    assert forall j :: 0 <= j < 8 ==> Device.Bits(before)[j];
    var id := bs.Allocate();
    assert id == 8;
    var ok := bs.Request(id);
    assert !ok;
    Device.UsedCountAfterSteps(before, id);
    ScenarioReuse(bs, data);
  }

  /**
   * The scenario continued, with blocks 0..8 in use: what is written to block 8
   * reads back; releasing it brings the used count back to 8 and makes it the
   * next block handed out again.
   */
  method ScenarioReuse(bs: BlockStore, data: seq<Byte>)
    requires bs.Valid() && |data| == BLOCK_SIZE_BYTES
    requires forall j :: 0 <= j <= 8 ==> Device.Bits(bs.Contents())[j]
    requires Device.UsedBlocks(bs.Contents()) == BITMAP_NUM_BLOCKS + 1
    modifies bs.blocks
  {
    var id := 8;
    ghost var start := bs.Contents();
    var n := bs.Write(id, data);
    assert n == BLOCK_SIZE_BYTES;
    var m, out := bs.Read(id, seq(BLOCK_SIZE_BYTES, _ => 0));
    assert m == BLOCK_SIZE_BYTES && out == data;
    ghost var written := bs.Contents();
    Device.WriteOutsideBitmapKeepsBits(start, id, data);
    Device.UsedCountAfterSteps(written, id);
    Device.AllocateAfterRelease(written, id);
    bs.Release(id);
    var used := bs.GetUsedBlocks();
    assert used == BITMAP_NUM_BLOCKS;
    id := bs.Allocate();
    assert id == 8;
  }
}
