/**
 * The block-store device as a value: the ordered sequence of blocks, the
 * occupancy bitmap read out of the blocks that back it (the overlay), and the
 * effect of every operation of src/block_store.c on that value. The class in
 * block_store.dfy is proved to change its state exactly as these functions say.
 */
module Device {
  import opened Config
  import opened Bitmap

  /** The contents of every block, in ascending id order. */
  type Image = seq<seq<Byte>>

  /** `NUM_BLOCKS` blocks of `BLOCK_SIZE_BYTES` bytes each. */
  predicate WellFormed(s: Image) {
    && |s| == BLOCK_STORE_NUM_BLOCKS
    && forall b :: 0 <= b < |s| ==> |s[b]| == BLOCK_SIZE_BYTES
  }

  /** One block of zero bytes. */
  function ZeroBlock(): (z: seq<Byte>)
    ensures |z| == BLOCK_SIZE_BYTES
  {
    seq(BLOCK_SIZE_BYTES, _ => 0)
  }

  /** The storage right after `memset(bs, 0, ...)`. */
  function Zeroed(): (s: Image)
    ensures WellFormed(s)
  {
    seq(BLOCK_STORE_NUM_BLOCKS, _ => ZeroBlock())
  }

  /** The outcome of an operation: what it returns and the device afterwards. */
  datatype Step<T> = Step(result: T, image: Image)

  /** What a read hands back: the byte count it reports and the caller's buffer after the copy. */
  datatype Transfer = Transfer(count: nat, buffer: seq<Byte>)

  // ---------------------------------------------------------------------
  // The bitmap overlay

  /** Block `b` is one of the blocks that back the bitmap. */
  predicate IsBitmapBlock(b: nat) {
    BITMAP_START_BLOCK <= b < BITMAP_START_BLOCK + BITMAP_NUM_BLOCKS
  }

  /** The block that holds byte `k` of the bitmap. */
  function MapBlock(k: nat): (b: nat)
    requires k < BITMAP_SIZE_BYTES
    ensures IsBitmapBlock(b)
  {
    BITMAP_START_BLOCK + k / BLOCK_SIZE_BYTES
  }

  /** Byte `k` of the bitmap: a byte of one of the blocks that back it. */
  function MapByte(s: Image, k: nat): Byte
    requires WellFormed(s) && k < BITMAP_SIZE_BYTES
  {
    s[MapBlock(k)][k % BLOCK_SIZE_BYTES]
  }

  /** `bitmap_export` of the overlay: the bitmap's bytes, read in place. */
  function Export(s: Image): (bytes: seq<Byte>)
    requires WellFormed(s)
    ensures |bytes| == BITMAP_SIZE_BYTES
  {
    seq(BITMAP_SIZE_BYTES, k => if 0 <= k < BITMAP_SIZE_BYTES then MapByte(s, k) else 0)
  }

  /** The occupancy bitmap: bit `i` is set iff block `i` is in use. */
  function Bits(s: Image): (bits: seq<bool>)
    requires WellFormed(s)
    ensures |bits| == BLOCK_STORE_NUM_BLOCKS
  {
    Unpack(Export(s), BITMAP_SIZE_BITS)
  }

  /** The block whose bytes hold bit `i` of the bitmap. */
  function HoldingBlock(i: nat): (b: nat)
    requires i < BLOCK_STORE_NUM_BLOCKS
    ensures IsBitmapBlock(b)
  {
    MapBlock(i / 8)
  }

  /**
   * `bitmap_set` (v = true) and `bitmap_reset` (v = false) on the overlay:
   * exactly bit `i` becomes `v`, and the only block whose bytes change is the
   * one that holds that bit.
   */
  function WithBitmapBit(s: Image, i: nat, v: bool): (r: Image)
    requires WellFormed(s) && i < BLOCK_STORE_NUM_BLOCKS
    ensures WellFormed(r)
    ensures Bits(r) == Bits(s)[i := v]
    ensures forall b :: 0 <= b < |s| && b != HoldingBlock(i) ==> r[b] == s[b]
  {
    var k := i / 8;
    var b := MapBlock(k);
    var o := k % BLOCK_SIZE_BYTES;
    var x := s[b][o];
    var r := s[b := s[b][o := if v then WithBit(x, i % 8) else WithoutBit(x, i % 8)]];
    assert WellFormed(r);
    forall j | 0 <= j < BLOCK_STORE_NUM_BLOCKS ensures Bits(r)[j] == Bits(s)[i := v][j] {
      BitAfterUpdate(s, r, i, v, j);
    }
    r
  }

  lemma BitAfterUpdate(s: Image, r: Image, i: nat, v: bool, j: nat)
    requires WellFormed(s) && i < BLOCK_STORE_NUM_BLOCKS && j < BLOCK_STORE_NUM_BLOCKS
    requires WellFormed(r)
    requires
      var k := i / 8;
      var x := s[MapBlock(k)][k % BLOCK_SIZE_BYTES];
      r == s[MapBlock(k) := s[MapBlock(k)][k % BLOCK_SIZE_BYTES :=
                                                 if v then WithBit(x, i % 8) else WithoutBit(x, i % 8)]]
    ensures Bits(r)[j] == (if j == i then v else Bits(s)[j])
  { }

  /** In zeroed storage no bitmap bit is set. */
  lemma ZeroedBits(s: Image)
    requires WellFormed(s)
    requires forall b :: 0 <= b < |s| ==> s[b] == ZeroBlock()
    ensures Bits(s) == Interval(BLOCK_STORE_NUM_BLOCKS, BITMAP_START_BLOCK, BITMAP_START_BLOCK)
  {
    forall j | 0 <= j < BLOCK_STORE_NUM_BLOCKS ensures !Bits(s)[j] {
      assert MapByte(s, j / 8) == 0;
    }
  }

  /** Only the blocks that back the bitmap carry bitmap bits. */
  lemma BitsReadOnlyBitmapBlocks(s: Image, t: Image)
    requires WellFormed(s) && WellFormed(t)
    requires forall b: nat :: IsBitmapBlock(b) ==> s[b] == t[b]
    ensures Bits(s) == Bits(t)
  { }

  // ---------------------------------------------------------------------
  // Operations

  /**
   * `block_store_allocate`: claims the lowest free block and returns its id, or
   * returns `SIZE_MAX` and changes nothing when every block is in use.
   */
  function Allocate(s: Image): (st: Step<nat>)
    requires WellFormed(s)
    ensures WellFormed(st.image)
    ensures st.result == SIZE_MAX <==> forall j :: 0 <= j < BLOCK_STORE_NUM_BLOCKS ==> Bits(s)[j]
    ensures st.result == SIZE_MAX ==> st.image == s
    ensures st.result != SIZE_MAX ==>
              && st.result < BLOCK_STORE_NUM_BLOCKS
              && !Bits(s)[st.result]
              && (forall j :: 0 <= j < st.result ==> Bits(s)[j])
              && Bits(st.image) == Bits(s)[st.result := true]
              && (forall b :: 0 <= b < |s| && b != HoldingBlock(st.result) ==> st.image[b] == s[b])
  {
    var index := FirstZero(Bits(s));
    if index >= BLOCK_STORE_NUM_BLOCKS then Step(SIZE_MAX, s)
    else Step(index, WithBitmapBit(s, index, true))
  }

  /**
   * `block_store_request`: claims block `id` if it is in range and free; else
   * reports failure and changes nothing.
   */
  function Request(s: Image, id: nat): (st: Step<bool>)
    requires WellFormed(s)
    ensures WellFormed(st.image)
    ensures st.result <==> id < BLOCK_STORE_NUM_BLOCKS && !Bits(s)[id]
    ensures !st.result ==> st.image == s
    ensures st.result ==>
              && Bits(st.image) == Bits(s)[id := true]
              && (forall b :: 0 <= b < |s| && b != HoldingBlock(id) ==> st.image[b] == s[b])
  {
    if id >= BLOCK_STORE_NUM_BLOCKS then Step(false, s)
    else if Bits(s)[id] then Step(false, s)
    else
      var t := WithBitmapBit(s, id, true);
      if !Bits(t)[id] then Step(false, t) else Step(true, t)
  }

  /**
   * `block_store_release`: frees block `id`; an id out of range is ignored.
   */
  function Release(s: Image, id: nat): (r: Image)
    requires WellFormed(s)
    ensures WellFormed(r)
    ensures id >= BLOCK_STORE_NUM_BLOCKS ==> r == s
    ensures id < BLOCK_STORE_NUM_BLOCKS ==>
              && Bits(r) == Bits(s)[id := false]
              && (forall b :: 0 <= b < |s| && b != HoldingBlock(id) ==> r[b] == s[b])
  {
    if id >= BLOCK_STORE_NUM_BLOCKS then s
    else WithBitmapBit(s, id, false)
  }

  /**
   * `block_store_write`: block `id` takes the first `BLOCK_SIZE_BYTES` bytes of
   * `buffer` and the call reports that many bytes; an id out of range
   * transfers nothing.
   */
  function Write(s: Image, id: nat, buffer: seq<Byte>): (st: Step<nat>)
    requires WellFormed(s)
    requires id < BLOCK_STORE_NUM_BLOCKS ==> |buffer| >= BLOCK_SIZE_BYTES
    ensures WellFormed(st.image)
    ensures st.result == if id < BLOCK_STORE_NUM_BLOCKS then BLOCK_SIZE_BYTES else 0
    ensures id < BLOCK_STORE_NUM_BLOCKS ==> st.image[id] == buffer[..BLOCK_SIZE_BYTES]
    ensures forall b :: 0 <= b < |s| && b != id ==> st.image[b] == s[b]
  {
    if id >= BLOCK_STORE_NUM_BLOCKS then Step(0, s)
    else Step(BLOCK_SIZE_BYTES, s[id := buffer[..BLOCK_SIZE_BYTES]])
  }

  /**
   * `block_store_read`: the caller's buffer receives block `id` in its first
   * `BLOCK_SIZE_BYTES` bytes, the rest of it is untouched; an id out of range
   * leaves the buffer as it was and reports 0.
   */
  function Read(s: Image, id: nat, buffer: seq<Byte>): (r: Transfer)
    requires WellFormed(s)
    requires id < BLOCK_STORE_NUM_BLOCKS ==> |buffer| >= BLOCK_SIZE_BYTES
    ensures |r.buffer| == |buffer|
    ensures r.count == if id < BLOCK_STORE_NUM_BLOCKS then BLOCK_SIZE_BYTES else 0
    ensures id < BLOCK_STORE_NUM_BLOCKS ==> r.buffer[..BLOCK_SIZE_BYTES] == s[id]
    ensures id < BLOCK_STORE_NUM_BLOCKS ==> r.buffer[BLOCK_SIZE_BYTES..] == buffer[BLOCK_SIZE_BYTES..]
    ensures id >= BLOCK_STORE_NUM_BLOCKS ==> r.buffer == buffer
  {
    if id >= BLOCK_STORE_NUM_BLOCKS then Transfer(0, buffer)
    else Transfer(BLOCK_SIZE_BYTES, s[id] + buffer[BLOCK_SIZE_BYTES..])
  }

  /** `block_store_get_used_blocks`: the number of set bitmap bits. */
  function UsedBlocks(s: Image): (n: nat)
    requires WellFormed(s)
    ensures n <= BLOCK_STORE_NUM_BLOCKS
  {
    CountSet(Bits(s))
  }

  /** `block_store_get_free_blocks`. */
  function FreeBlocks(s: Image): (n: nat)
    requires WellFormed(s)
    ensures n + UsedBlocks(s) == BLOCK_STORE_NUM_BLOCKS
  {
    BLOCK_STORE_NUM_BLOCKS - UsedBlocks(s)
  }

  // ---------------------------------------------------------------------
  // Construction

  /**
   * The self-reservation loop of `block_store_create`: request every id in
   * `[i, end)` in turn, stopping at the first refusal.
   */
  function Reserve(s: Image, i: nat, end: nat): (r: Image)
    requires WellFormed(s)
    ensures WellFormed(r)
    decreases end - i
  {
    if i >= end then s
    else
      var st := Request(s, i);
      if !st.result then st.image else Reserve(st.image, i + 1, end)
  }

  /** The device `block_store_create` returns. */
  function Created(): (s: Image)
    ensures WellFormed(s)
  {
    Reserve(Zeroed(), BITMAP_START_BLOCK, BITMAP_START_BLOCK + BITMAP_NUM_BLOCKS)
  }

  /**
   * The state of the self-reservation loop before it requests id `i`: ids
   * `[BITMAP_START_BLOCK, i)` are in use, no other id is, and every block
   * outside the bitmap range is still zero.
   */
  ghost predicate ReservedUpTo(s: Image, i: nat)
    requires WellFormed(s)
  {
    && Bits(s) == Interval(BLOCK_STORE_NUM_BLOCKS, BITMAP_START_BLOCK, i)
    && forall b :: 0 <= b < BLOCK_STORE_NUM_BLOCKS && !IsBitmapBlock(b) ==> s[b] == ZeroBlock()
  }

  /** Each request of the self-reservation loop succeeds and extends the reservation by one id. */
  lemma RequestExtendsReservation(s: Image, i: nat)
    requires WellFormed(s)
    requires BITMAP_START_BLOCK <= i < BITMAP_START_BLOCK + BITMAP_NUM_BLOCKS
    requires ReservedUpTo(s, i)
    ensures Request(s, i).result
    ensures ReservedUpTo(Request(s, i).image, i + 1)
  {
    var t := Request(s, i).image;
    assert Bits(t) == Interval(BLOCK_STORE_NUM_BLOCKS, BITMAP_START_BLOCK, i + 1);
  }

  /**
   * A reservation state fixes the whole device: the blocks outside the bitmap
   * are zero, and the bitmap blocks hold nothing but bitmap bytes, whose bits
   * are given.
   */
  lemma ReservationDeterminesImage(s: Image, t: Image, i: nat)
    requires WellFormed(s) && WellFormed(t)
    requires ReservedUpTo(s, i) && ReservedUpTo(t, i)
    ensures s == t
  {
    forall b | 0 <= b < BLOCK_STORE_NUM_BLOCKS && IsBitmapBlock(b) ensures s[b] == t[b] {
      forall o | 0 <= o < BLOCK_SIZE_BYTES ensures s[b][o] == t[b][o] {
        var k := (b - BITMAP_START_BLOCK) * BLOCK_SIZE_BYTES + o;
        assert k < BITMAP_SIZE_BYTES && MapBlock(k) == b && k % BLOCK_SIZE_BYTES == o;
        forall u | 0 <= u < 8 ensures BitOf(s[b][o], u) == BitOf(t[b][o], u) {
          assert Bits(s)[8 * k + u] == Bits(t)[8 * k + u];
        }
        ByteExtensional(s[b][o], t[b][o]);
      }
    }
  }

  /**
   * After construction exactly the bitmap's own blocks are marked in use, the
   * used count is `BITMAP_NUM_BLOCKS`, and every block outside the bitmap
   * range is still zero.
   */
  lemma CreateReservesBitmap()
    ensures ReservedUpTo(Created(), BITMAP_START_BLOCK + BITMAP_NUM_BLOCKS)
    ensures UsedBlocks(Created()) == BITMAP_NUM_BLOCKS
    ensures FreeBlocks(Created()) == BLOCK_STORE_NUM_BLOCKS - BITMAP_NUM_BLOCKS
  {
    var lo, hi := BITMAP_START_BLOCK, BITMAP_START_BLOCK + BITMAP_NUM_BLOCKS;
    var z := Zeroed();
    ZeroedBits(z);
    ReserveInterval(z, lo, hi);
    CountInterval(BLOCK_STORE_NUM_BLOCKS, lo, hi);
  }

  /** A device with exactly the bitmap's blocks reserved and every other block zero is the created device. */
  lemma ReservedIsCreated(s: Image)
    requires WellFormed(s)
    requires ReservedUpTo(s, BITMAP_START_BLOCK + BITMAP_NUM_BLOCKS)
    ensures s == Created()
  {
    CreateReservesBitmap();
    ReservationDeterminesImage(s, Created(), BITMAP_START_BLOCK + BITMAP_NUM_BLOCKS);
  }

  lemma {:induction false} ReserveInterval(s: Image, i: nat, end: nat)
    requires WellFormed(s)
    requires BITMAP_START_BLOCK <= i <= end <= BITMAP_START_BLOCK + BITMAP_NUM_BLOCKS
    requires ReservedUpTo(s, i)
    ensures ReservedUpTo(Reserve(s, i, end), end)
    decreases end - i
  {
    if i < end {
      RequestExtendsReservation(s, i);
      ReserveInterval(Request(s, i).image, i + 1, end);
    }
  }

  // ---------------------------------------------------------------------
  // Properties that relate several operations

  /** Right after `allocate` returns `x`, `request(x)` is refused and changes nothing. */
  lemma RequestAfterAllocate(s: Image)
    requires WellFormed(s)
    ensures var a := Allocate(s);
            a.result != SIZE_MAX ==> Request(a.image, a.result) == Step(false, a.image)
  {
  }

  /** Releasing twice leaves the device as releasing once. */
  lemma ReleaseIdempotent(s: Image, id: nat)
    requires WellFormed(s)
    ensures Release(Release(s, id), id) == Release(s, id)
  {
    if id < BLOCK_STORE_NUM_BLOCKS {
      var r := Release(s, id);
      var rr := Release(r, id);
      var k := id / 8;
      var b, o := MapBlock(k), k % BLOCK_SIZE_BYTES;
      forall t | 0 <= t < 8 ensures BitOf(rr[b][o], t) == BitOf(r[b][o], t) {
        MaskAt(r[b][o], id % 8, t);
      }
      ByteExtensional(rr[b][o], r[b][o]);
      assert rr[b] == r[b];
    }
  }

  /**
   * A released block that is then the lowest free one is the next block
   * `allocate` hands out.
   */
  lemma AllocateAfterRelease(s: Image, id: nat)
    requires WellFormed(s) && id < BLOCK_STORE_NUM_BLOCKS
    requires forall j :: 0 <= j < id ==> Bits(s)[j]
    ensures Allocate(Release(s, id)).result == id
  {
    var bits := Bits(Release(s, id));
    assert !bits[id];
    assert forall j :: 0 <= j < id ==> bits[j];
  }

  /** Allocation fails exactly when the used count equals the total. */
  lemma AllocateExhaustedIffFull(s: Image)
    requires WellFormed(s)
    ensures Allocate(s).result == SIZE_MAX <==> UsedBlocks(s) == BLOCK_STORE_NUM_BLOCKS
  {
    CountSetFull(Bits(s));
  }

  /** Allocation and request add one to the used count; release of a used block removes one. */
  lemma UsedCountAfterSteps(s: Image, id: nat)
    requires WellFormed(s)
    ensures Allocate(s).result != SIZE_MAX ==> UsedBlocks(Allocate(s).image) == UsedBlocks(s) + 1
    ensures Request(s, id).result ==> UsedBlocks(Request(s, id).image) == UsedBlocks(s) + 1
    ensures id < BLOCK_STORE_NUM_BLOCKS ==>
              UsedBlocks(Release(s, id)) == UsedBlocks(s) - (if Bits(s)[id] then 1 else 0)
  {
    var a := Allocate(s);
    if a.result != SIZE_MAX {
      CountSetUpdate(Bits(s), a.result, true);
    }
    if id < BLOCK_STORE_NUM_BLOCKS {
      CountSetUpdate(Bits(s), id, true);
      CountSetUpdate(Bits(s), id, false);
    }
  }

  /** Reading a block returns what was last written to it, whatever its bitmap bit. */
  lemma ReadAfterWrite(s: Image, id: nat, buffer: seq<Byte>, out: seq<Byte>)
    requires WellFormed(s) && |buffer| >= BLOCK_SIZE_BYTES && |out| >= BLOCK_SIZE_BYTES
    requires id < BLOCK_STORE_NUM_BLOCKS
    ensures Read(Write(s, id, buffer).image, id, out).buffer[..BLOCK_SIZE_BYTES] == buffer[..BLOCK_SIZE_BYTES]
  {
  }

  /** Writing a block outside the bitmap range leaves every bitmap bit as it was. */
  lemma WriteOutsideBitmapKeepsBits(s: Image, id: nat, buffer: seq<Byte>)
    requires WellFormed(s) && |buffer| >= BLOCK_SIZE_BYTES
    requires !IsBitmapBlock(id)
    ensures Bits(Write(s, id, buffer).image) == Bits(s)
  { }

  /**
   * The overlay seen from the caller: writing the first bitmap block replaces
   * the bitmap bits it holds with the bits of the written bytes.
   */
  lemma WriteBitmapBlockSetsBits(s: Image, buffer: seq<Byte>, j: nat)
    requires WellFormed(s) && |buffer| >= BLOCK_SIZE_BYTES
    requires j < 8 * BLOCK_SIZE_BYTES && j < BLOCK_STORE_NUM_BLOCKS
    ensures Bits(Write(s, BITMAP_START_BLOCK, buffer).image)[j] == BitOf(buffer[j / 8], j % 8)
  { }
}
