# Block store allocator — a Dafny model

This project models the block-storage device of `src/block_store.c`: a fixed
array of `BLOCK_STORE_NUM_BLOCKS` blocks of `BLOCK_SIZE_BYTES` bytes, with an
occupancy bitmap (one bit per block) that lives *inside* the block array,
starting at block `BITMAP_START_BLOCK`. The device is built zeroed and then
reserves the bitmap's own blocks through `block_store_request`. It hands out
blocks first-fit-zero (`allocate`), claims a chosen block (`request`), frees
blocks (`release`), counts used, free and total blocks, copies whole blocks in
and out (`read`, `write`), and dumps itself as the bitmap bytes followed by
every block (`serialize`).

Files and modules:

- `config.dfy`, module `Config`: the build-time constants. The header that
  defines them (`include/block_store.h`) is not part of this model. The
  values describe a 1024-block device whose bitmap lives in blocks 0..7, with
  16-byte blocks, so that the 1024-bit bitmap (128 bytes) fills those eight
  blocks exactly. `Config.ConfigurationIsConsistent` lists the relations
  between the constants that the model relies on; only the client methods
  `Store.Scenario` and `Store.ScenarioReuse` use the literal values.
- `bitmap.dfy`, module `Bitmap`: the bitmap library as the block store uses
  it. It covers single bits inside a byte, the bit vector a run of bytes
  stands for, first-zero search (`bitmap_ffz`) and population count
  (`bitmap_total_set`). The library's source (`include/bitmap.h`) is not part
  of this model. Bit `i` is taken to be bit `i % 8` of byte `i / 8`, least
  significant bit first.
- `device.dfy`, module `Device`: the device as a value (`Image`, the blocks in
  id order). It defines the bitmap overlay and gives every operation as a
  function with its contract. The lemmas that relate several operations live
  here too.
- `serial.dfy`, module `Serial`: the byte layout that `block_store_serialize`
  writes, and its properties.
- `block_store.dfy`, module `Store`: class `BlockStore`. It holds the block
  array (`blocks: array<seq<Byte>>`) and is updated in place. Each method
  is proved to change that array exactly as the matching `Device` function
  says. The constructor is proved to leave exactly the bitmap's blocks
  reserved and every other block zero; `Device.ReservedIsCreated` shows that
  this state is `Device.Created()` and no other device. `Scenario` and `ScenarioReuse` are client methods. They replay a
  fresh device's first steps: the used count is 8, the first allocation is
  block 8, requesting it again is refused, a write to it reads back, and
  after release the count is back to 8 and the next allocation is block 8
  again.

The bitmap is modelled as the overlay the C code builds. There is no separate
bitmap state. The bits are read out of the bytes of the blocks that back the
bitmap (`Device.MapBlock`, `Device.Bits`). Setting or clearing a bit
therefore rewrites one byte of one of those blocks (`Device.HoldingBlock`).
Writing one of those blocks rewrites bitmap bits
(`Device.WriteBitmapBlockSetsBits`). Writing any other block leaves every bit
as it was (`Device.WriteOutsideBitmapKeepsBits`).

`block_store_get_total_blocks` is `Store.BlockStore.GetTotalBlocks`, the
constant `BLOCK_STORE_NUM_BLOCKS`. What the source promises about it,
used + free = total, is the contract of `Store.BlockStore.GetFreeBlocks` and
`Device.FreeBlocks`.

Where the code's own doc comments and its bodies disagree, the model follows
the bodies:

- The doc comment of `block_store_create` (src/block_store.c:33) promises
  NULL on error. When a self-reservation is refused, the loop at
  src/block_store.c:57-62 only breaks and still returns the device. `Device.Reserve` and the constructor stop at the first refusal and
  return the device. `Device.CreateReservesBitmap` proves that no refusal
  can happen from the zeroed store.
- The doc comment of `block_store_deserialize` (src/block_store.c:253-256)
  describes importing a device from a file. Its body
  (src/block_store.c:258-262) always returns NULL. It is
  not modelled; see below.

## Model

| member | source | states |
|---|---|---|
| `Config.ConfigurationIsConsistent` | src/block_store.c:52-55 | one bitmap bit per block; every bitmap byte holds eight bits with no bits to spare; the bitmap's blocks lie inside the device and are filled exactly by the bitmap bytes; every block id, and the byte count serialize returns, is below `SIZE_MAX` |
| `Bitmap.WithBit` | src/block_store.c:137 | setting bit `s` of a byte makes bit `s` set and leaves the other seven bits as they were |
| `Bitmap.WithoutBit` | src/block_store.c:160 | clearing bit `s` of a byte makes bit `s` clear and leaves the other seven bits as they were |
| `Bitmap.ByteExtensional` | src/block_store.c:160 | two bytes with the same eight bits are equal (used to show a second reset changes nothing) |
| `Bitmap.Unpack` | src/block_store.c:52 | the bit vector held by a run of bytes has exactly the requested number of bits |
| `Bitmap.FirstZero` | src/block_store.c:105 | find-first-zero returns an index whose bit is clear and below which every bit is set, or the length when every bit is set |
| `Bitmap.CountSet` | src/block_store.c:176 | the population count never exceeds the number of bits |
| `Bitmap.CountSetUpdate` | src/block_store.c:169-179 | changing one bit changes the population count by exactly that bit (+1 on set of a clear bit, -1 on reset of a set bit, 0 otherwise) |
| `Bitmap.CountSetPrefixStep` | src/block_store.c:176 | counting one more bit of a prefix adds exactly that bit, the step of the counting loop |
| `Bitmap.CountSetFull` | src/block_store.c:169-179 | the count equals the length if and only if every bit is set |
| `Bitmap.FirstZeroExhausted` | src/block_store.c:105-110 | find-first-zero finds nothing exactly when the count is full |
| `Bitmap.CountInterval` | src/block_store.c:55-63 | the vector with ids `[lo, hi)` set has population count `hi - lo` |
| `Bitmap.CountIntervalPrefix` | src/block_store.c:55-63 | the count of an interval vector of any length is the width of the interval inside it |
| `Device.ZeroBlock` | src/block_store.c:49 | a zero block has `BLOCK_SIZE_BYTES` bytes |
| `Device.Zeroed` | src/block_store.c:49 | the zeroed storage is a well-formed device |
| `Device.MapBlock` | src/block_store.c:52 | every bitmap byte lies in one of the blocks `[BITMAP_START_BLOCK, BITMAP_START_BLOCK + BITMAP_NUM_BLOCKS)` |
| `Device.Export` | src/block_store.c:288 | the exported bitmap is `BITMAP_SIZE_BYTES` bytes read in place from the overlay blocks |
| `Device.Bits` | src/block_store.c:52 | the occupancy bitmap has one bit per block |
| `Device.HoldingBlock` | src/block_store.c:52 | the bytes holding bit `i` lie in one of the bitmap's blocks |
| `Device.WithBitmapBit` | src/block_store.c:112 | `bitmap_set`/`bitmap_reset` on the overlay: exactly bit `i` takes the new value, and no block other than the one holding that bit changes |
| `Device.BitAfterUpdate` | src/block_store.c:137 | after rewriting the byte that holds bit `i`, bit `j` is the new value if `j == i` and unchanged otherwise |
| `Device.BitsReadOnlyBitmapBlocks` | src/block_store.c:52 | two devices that agree on the bitmap's blocks have the same bitmap |
| `Device.Allocate` | src/block_store.c:98-115 | returns `SIZE_MAX`, changing nothing, if and only if every block is in use; otherwise returns a free id below which every block is in use, sets exactly that bit, and changes no block except the one holding the bit |
| `Device.Request` | src/block_store.c:123-146 | succeeds if and only if the id is in range and its bit is clear; a refusal changes nothing; a success sets exactly that bit and changes no block except the one holding the bit |
| `Device.Release` | src/block_store.c:154-161 | an out-of-range id changes nothing; otherwise exactly that bit is cleared and no block changes except the one holding it |
| `Device.Write` | src/block_store.c:237-250 | reports `BLOCK_SIZE_BYTES` for an id in range, which then holds the first `BLOCK_SIZE_BYTES` bytes of the buffer; reports 0 otherwise, whatever the buffer; no other block changes |
| `Device.Read` | src/block_store.c:214-227 | reports `BLOCK_SIZE_BYTES` and fills the front of the buffer with the block for an id in range; otherwise reports 0 and the buffer, of any length, is unchanged; the rest of the buffer is never touched |
| `Device.UsedBlocks` | src/block_store.c:169-179 | the used count is at most `BLOCK_STORE_NUM_BLOCKS` |
| `Device.FreeBlocks` | src/block_store.c:186-194 | free + used = `BLOCK_STORE_NUM_BLOCKS` |
| `Device.Reserve` | src/block_store.c:55-63 | the self-reservation loop (request each id, stop at the first refusal) yields a well-formed device |
| `Device.Created` | src/block_store.c:35-68 | the device `create` returns is well formed |
| `Device.CreateReservesBitmap` | src/block_store.c:49-63 | after create exactly the bitmap's own blocks are in use, the used count is `BITMAP_NUM_BLOCKS`, the free count is the rest, and every other block is zero |
| `Device.ZeroedBits` | src/block_store.c:49-52 | in freshly zeroed storage no occupancy bit is set |
| `Device.RequestExtendsReservation` | src/block_store.c:55-63 | while ids `[BITMAP_START_BLOCK, i)` are reserved and the rest is zero, requesting `i` succeeds and extends the reservation to `i + 1` |
| `Device.ReservationDeterminesImage` | src/block_store.c:49-63 | two devices with the same ids reserved and every block outside the bitmap zero are equal, since the bitmap blocks hold only bitmap bytes |
| `Device.ReservedIsCreated` | src/block_store.c:35-68 | a device with exactly the bitmap's blocks reserved and every other block zero is the device `create` returns |
| `Device.ReserveInterval` | src/block_store.c:55-63 | each request in the reservation loop succeeds; after reserving up to `end`, exactly the ids `[BITMAP_START_BLOCK, end)` are set and the blocks outside the bitmap stay zero |
| `Device.RequestAfterAllocate` | src/block_store.c:112 | right after `allocate` returns `x`, `request(x)` is refused and changes nothing |
| `Device.ReleaseIdempotent` | src/block_store.c:154-161 | releasing twice gives the same device as releasing once |
| `Device.AllocateAfterRelease` | src/block_store.c:105 | if every block below `id` is in use, `allocate` after `release(id)` returns `id` |
| `Device.AllocateExhaustedIffFull` | src/block_store.c:105-110 | `allocate` returns `SIZE_MAX` if and only if the used count equals the total |
| `Device.UsedCountAfterSteps` | src/block_store.c:169-179 | a successful allocate or request adds one to the used count; release removes one if the block was in use and nothing otherwise |
| `Device.ReadAfterWrite` | src/block_store.c:214-250 | reading a block right after writing it yields the written bytes, whatever the block's bit |
| `Device.WriteOutsideBitmapKeepsBits` | src/block_store.c:247 | writing a block outside the bitmap range leaves every bitmap bit unchanged |
| `Device.WriteBitmapBlockSetsBits` | src/block_store.c:247 | writing the first bitmap block makes the bitmap bits it holds equal to the bits of the written bytes (the overlay aliasing) |
| `Serial.Flatten` | src/block_store.c:291-293 | blocks of `BLOCK_SIZE_BYTES` bytes written back to back take `BLOCK_SIZE_BYTES` bytes each |
| `Serial.Layout` | src/block_store.c:288-293 | the file is `BITMAP_SIZE_BYTES + BLOCK_STORE_NUM_BLOCKS * BLOCK_SIZE_BYTES` bytes long and its leading `BITMAP_SIZE_BYTES` bytes unpack to the occupancy bitmap |
| `Serial.FlattenBlock` | src/block_store.c:291-293 | blocks written back to back occupy `n * BLOCK_SIZE_BYTES` bytes, and block `id` starts at offset `id * BLOCK_SIZE_BYTES` |
| `Serial.LayoutAt` | src/block_store.c:288-298 | the file is `BITMAP_SIZE_BYTES + BLOCK_STORE_NUM_BLOCKS * BLOCK_SIZE_BYTES` bytes long; its first `BITMAP_SIZE_BYTES` bytes hold the bitmap, and block `id` follows at offset `BITMAP_SIZE_BYTES + id * BLOCK_SIZE_BYTES` |
| `Serial.LayoutInjective` | src/block_store.c:288-293 | two devices that serialize to the same bytes are the same device |
| `Store.BlockStore.constructor` | src/block_store.c:35-68 | after the self-reservation loop exactly the bitmap's own blocks are in use, every other block is zero, and the used count is `BITMAP_NUM_BLOCKS` |
| `Store.BlockStore.Test` | src/block_store.c:132 | reports the occupancy bit of `id`, read from the overlay bytes |
| `Store.BlockStore.SetBit` | src/block_store.c:137 | changes the blocks exactly as `Device.WithBitmapBit(_, id, true)` |
| `Store.BlockStore.ResetBit` | src/block_store.c:160 | changes the blocks exactly as `Device.WithBitmapBit(_, id, false)` |
| `Store.BlockStore.FindFirstZero` | src/block_store.c:105 | the scan returns a clear bit below which every bit is set, or the bit count when there is none |
| `Store.BlockStore.CountSetBits` | src/block_store.c:176 | the counting loop returns the population count of the bitmap |
| `Store.BlockStore.Allocate` | src/block_store.c:98-115 | returns and changes exactly what `Device.Allocate` says |
| `Store.BlockStore.Request` | src/block_store.c:123-146 | returns and changes exactly what `Device.Request` says |
| `Store.BlockStore.Release` | src/block_store.c:154-161 | changes exactly what `Device.Release` says |
| `Store.BlockStore.GetUsedBlocks` | src/block_store.c:169-179 | returns the number of set bits, at most `BLOCK_STORE_NUM_BLOCKS` |
| `Store.BlockStore.GetFreeBlocks` | src/block_store.c:186-194 | free + used = `GetTotalBlocks()` |
| `Store.BlockStore.GetTotalBlocks` | src/block_store.c:202-205 | the total needs no device and is the number of blocks the bitmap tracks, one bit per block |
| `Store.BlockStore.Read` | src/block_store.c:214-227 | returns what `Device.Read` says |
| `Store.BlockStore.Write` | src/block_store.c:237-250 | returns and changes exactly what `Device.Write` says |
| `Store.BlockStore.Serialize` | src/block_store.c:271-299 | the bytes written are `Serial.Layout` of the device, and the byte count returned is their length, `BITMAP_SIZE_BYTES + BLOCK_STORE_NUM_BLOCKS * BLOCK_SIZE_BYTES` |

## Left out

- NULL pointers: a NULL device handle, a NULL `buffer` in read/write and a
  NULL `filename` in serialize cannot occur, because Dafny references and
  sequences are never null. The `bs == NULL` and `buffer == NULL` error
  returns are therefore not modelled. The `bs->map == NULL` branch of the
  count getters is not modelled either, because the overlay is always
  installed in the model.
- Memory management: the `malloc` failure in `block_store_create` and all of
  `block_store_destroy` release memory only.
- `bitmap_overlay` failing, and the `fprintf` diagnostic of the
  self-reservation loop, are not modelled: I/O and a foreign library.
- `block_store_deserialize` always returns NULL. There is nothing to model,
  so no inverse of the layout is claimed. `Serial.LayoutInjective` shows
  that the layout loses no information.
- `Store.BlockStore.Serialize`: file I/O (`fopen`, `fwrite`, `fclose`) is not
  modelled. The method returns the byte stream instead of writing a file, and
  takes every `fwrite` to write all its bytes. An open failure (return 0) and
  short writes are not captured.
- `Store.BlockStore.FindFirstZero`: the sentinel the real `bitmap_ffz`
  returns when no bit is clear is not known. The model returns the bit
  count; the caller only tests it against `BLOCK_STORE_NUM_BLOCKS`.
- The bitmap library's internals, including its bit order within a byte,
  are not known. Least-significant-bit-first is a modelling choice, and the
  exact bytes `bitmap_export` yields depend on it.
- The constants' real values are not known (the header is not part of this
  model). The 64-bit `size_t` is modelled only as the value `SIZE_MAX`. No
  arithmetic in these operations can wrap: block counts are at most
  `BLOCK_STORE_NUM_BLOCKS`, and the largest byte count, the total that
  serialize returns, is below `SIZE_MAX` (`Config.ConfigurationIsConsistent`).
- Buffers shorter than a block: for an id in range, read and write copy
  `BLOCK_SIZE_BYTES` bytes with `memcpy`, which C cannot check against the
  buffer's size. The model requires such a buffer to hold a whole block; for
  an id out of range any buffer is accepted and left alone.
