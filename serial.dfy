/**
 * The byte layout `block_store_serialize` writes: the exported bitmap bytes,
 * then every block in ascending id order, with no header.
 */
module Serial {
  import opened Config
  import opened Bitmap
  import opened Device

  /** The blocks of `blocks` back to back, in order. */
  function Flatten(blocks: seq<seq<Byte>>): (bytes: seq<Byte>)
    ensures (forall b :: 0 <= b < |blocks| ==> |blocks[b]| == BLOCK_SIZE_BYTES) ==>
            |bytes| == |blocks| * BLOCK_SIZE_BYTES
  {
    if |blocks| == 0 then [] else Flatten(blocks[..|blocks| - 1]) + blocks[|blocks| - 1]
  }

  /** The whole image of the device as it is written to the file. */
  function Layout(s: Image): (bytes: seq<Byte>)
    requires WellFormed(s)
    ensures |bytes| == BITMAP_SIZE_BYTES + BLOCK_STORE_NUM_BLOCKS * BLOCK_SIZE_BYTES
    ensures Unpack(bytes[..BITMAP_SIZE_BYTES], BITMAP_SIZE_BITS) == Bits(s)
  {
    Export(s) + Flatten(s)
  }

  /** With blocks of equal size, block `id` sits at offset `id * BLOCK_SIZE_BYTES`. */
  lemma {:induction false} FlattenBlock(blocks: seq<seq<Byte>>, id: nat)
    requires forall b :: 0 <= b < |blocks| ==> |blocks[b]| == BLOCK_SIZE_BYTES
    requires id < |blocks|
    ensures |Flatten(blocks)| == |blocks| * BLOCK_SIZE_BYTES
    ensures Flatten(blocks)[id * BLOCK_SIZE_BYTES .. id * BLOCK_SIZE_BYTES + BLOCK_SIZE_BYTES] == blocks[id]
    decreases |blocks|
  {
    var n := |blocks| - 1;
    var prefix := blocks[..n];
    if n == 0 {
      assert Flatten(blocks) == Flatten(prefix) + blocks[0];
      assert Flatten(prefix) == [];
    } else {
      FlattenBlock(prefix, if id < n then id else 0);
      assert |Flatten(prefix)| == n * BLOCK_SIZE_BYTES;
      if id < n {
        assert id * BLOCK_SIZE_BYTES + BLOCK_SIZE_BYTES <= n * BLOCK_SIZE_BYTES;
        assert prefix[id] == blocks[id];
      }
    }
  }

  /**
   * The file is `BITMAP_SIZE_BYTES + BLOCK_STORE_NUM_BLOCKS * BLOCK_SIZE_BYTES`
   * bytes long; its first `BITMAP_SIZE_BYTES` bytes hold the occupancy bitmap
   * and block `id` follows at offset `BITMAP_SIZE_BYTES + id * BLOCK_SIZE_BYTES`.
   */
  lemma LayoutAt(s: Image, id: nat)
    requires WellFormed(s) && id < BLOCK_STORE_NUM_BLOCKS
    ensures |Layout(s)| == BITMAP_SIZE_BYTES + BLOCK_STORE_NUM_BLOCKS * BLOCK_SIZE_BYTES
    ensures Unpack(Layout(s)[..BITMAP_SIZE_BYTES], BITMAP_SIZE_BITS) == Bits(s)
    ensures var off := BITMAP_SIZE_BYTES + id * BLOCK_SIZE_BYTES;
            Layout(s)[off .. off + BLOCK_SIZE_BYTES] == s[id]
  {
    FlattenBlock(s, id);
    var off := BITMAP_SIZE_BYTES + id * BLOCK_SIZE_BYTES;
    assert Layout(s)[..BITMAP_SIZE_BYTES] == Export(s);
    assert Layout(s)[off .. off + BLOCK_SIZE_BYTES] ==
           Flatten(s)[id * BLOCK_SIZE_BYTES .. id * BLOCK_SIZE_BYTES + BLOCK_SIZE_BYTES];
  }

  /** Two devices with the same file are the same device. */
  lemma LayoutInjective(s: Image, t: Image)
    requires WellFormed(s) && WellFormed(t)
    requires Layout(s) == Layout(t)
    ensures s == t
  {
    forall id | 0 <= id < BLOCK_STORE_NUM_BLOCKS ensures s[id] == t[id] {
      LayoutAt(s, id);
      LayoutAt(t, id);
    }
  }
}
