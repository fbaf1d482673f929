/**
 * Build-time configuration of the block-store device.
 *
 * The header that defines these macros (include/block_store.h) is not part of
 * this model. The values describe a 1024-block device whose occupancy bitmap
 * lives in blocks 0..7; the block size is chosen so that the 1024-bit bitmap
 * (128 bytes) fills those eight blocks exactly. The proofs use the values only
 * through the relations checked by `ConfigurationIsConsistent`, except the
 * client methods `Store.Scenario` and `Store.ScenarioReuse`, which replay a
 * fresh device with these very values (bitmap in blocks 0..7, block 8 the
 * first free one).
 */
module Config {

  /** Number of blocks of the device. */
  const BLOCK_STORE_NUM_BLOCKS: nat := 1024

  /** Size of one block in bytes. */
  const BLOCK_SIZE_BYTES: nat := 16

  /** First block whose storage backs the bitmap (the overlay). */
  const BITMAP_START_BLOCK: nat := 0

  /** Number of blocks that back the bitmap. */
  const BITMAP_NUM_BLOCKS: nat := 8

  /** One bitmap bit per block. */
  const BITMAP_SIZE_BITS: nat := BLOCK_STORE_NUM_BLOCKS

  /** Bytes needed to hold the bitmap, rounded up. */
  const BITMAP_SIZE_BYTES: nat := (BITMAP_SIZE_BITS + 7) / 8

  /** The C `SIZE_MAX` of a 64-bit `size_t`, the "no block" sentinel of allocation. */
  const SIZE_MAX: nat := 0xFFFF_FFFF_FFFF_FFFF

  type Byte = bv8

  /** The relations between the constants that the rest of the model relies on. */
  lemma ConfigurationIsConsistent()
    ensures BITMAP_SIZE_BITS == BLOCK_STORE_NUM_BLOCKS
    ensures 0 < BLOCK_SIZE_BYTES
    ensures BITMAP_START_BLOCK + BITMAP_NUM_BLOCKS <= BLOCK_STORE_NUM_BLOCKS
    ensures 8 * BITMAP_SIZE_BYTES == BITMAP_SIZE_BITS
    ensures BITMAP_SIZE_BYTES == BITMAP_NUM_BLOCKS * BLOCK_SIZE_BYTES
    ensures BLOCK_STORE_NUM_BLOCKS < SIZE_MAX
    ensures BITMAP_SIZE_BYTES + BLOCK_STORE_NUM_BLOCKS * BLOCK_SIZE_BYTES < SIZE_MAX
  { }
}
