# zerostash object layer, in Dafny

This project models the write side of zerostash's object layer
(`libzerostash/src/objects.rs`):

- **`ObjectId`** is a digest-wide object name. The model covers its construction from bytes, its byte view and its lowercase-hex string form.
- **`Object<T>`** is a byte buffer with an id, an effective capacity and a cursor. It supports `Seek`/`Read`/`Write`, a capacity-limited view, the region writers `write_head`, `write_tag`, `finalize` and `clear`, and three constructors with different capacity rules.
- **`Storage<C>`** is the append/rotate state machine. `store_chunk` compresses, flushes when the chunk would pass the capacity, encrypts, appends and returns a `ChunkPointer`. `flush` finalizes, hands the object to the backend and rotates the id.
- **`NullStorage`** is the measuring store. It only counts bytes.

Everything is modelled as pure functions over immutable datatypes. Bytes are a `byte` newtype. A `&mut self` call is modelled as a function that returns the new state together with the call's `Result`. Panics in the Rust code (out-of-range slices, length mismatches in `copy_from_slice`) become preconditions.

The collaborators the code calls are parameters. None of their code is part of this model.

- `compress::block` is the `codec` parameter: any function from bytes to bytes or an error.
- `CryptoProvider::encrypt_chunk` is the `seal` parameter: any function from (object, hash, bytes) to (ciphertext, tag). The only constraint is that it keeps the length, because the Rust code encrypts in place (`PreservesLength`).
- `Random::fill` is represented by the bytes it yields. `random` is the stream a fill consumes a prefix of, and `nextId` is what a reset draws.
- `Backend::write_object` is the `backend` parameter, which says success or failure for the object handed to it. Every object handed over is returned in the call's `sent` log.

The crate constants come from files that are not part of this model. They are fixed at `BLOCK_SIZE = 4 MiB`, `TAG_WIDTH = 16` and `DIGEST_WIDTH = 32`. The proofs rely only on `TAG_WIDTH <= BLOCK_SIZE < 2^32`.

Points where the code's behaviour is easy to misread; the model follows the code:

- `read` is bounded by the buffer length, not by the capacity, so a read can reach the tag region.
- `reserve_tag` assigns `BLOCK_SIZE - TAG_WIDTH`. It does not subtract from the current capacity, so calling it twice changes nothing more.
- `Storage::new` never calls `reserve_tag`. A store's capacity is the whole block, and `finalize` overwrites everything past the cursor with random bytes, including the would-be tag region.
- When the backend rejects an object, `flush` has already finalized the tail. The id and cursor are kept, and the bytes before the cursor are kept, but the tail past the cursor has been overwritten with random bytes.
- `Object::new` sets the capacity to `BLOCK_SIZE` whatever the buffer's length. `with_id` and `Default` use the buffer's length.

## Model

| member | source | states |
|---|---|---|
| ObjectIds.DefaultId | libzerostash/src/objects.rs:37-38 | the derived default id is all zero bytes |
| ObjectIds.Reset | libzerostash/src/objects.rs:57-60 | the identifier's bytes are exactly the bytes drawn from the random source |
| ObjectIds.FromBytes | libzerostash/src/objects.rs:50-55 | defined only for digest-wide input, where the panic does not happen; the id's byte view is the input |
| ObjectIds.AsBytes | libzerostash/src/objects.rs:63-67 | the byte view of an id is always exactly digest-wide |
| ObjectIds.AsBytesRoundTrip | libzerostash/src/objects.rs:50-67 | rebuilding an id from its byte view gives the same id |
| ObjectIds.Hex | libzerostash/src/objects.rs:70-74 | two lowercase hex digits per byte, high nibble first, no separator, length twice the byte count |
| ObjectIds.ToString | libzerostash/src/objects.rs:70-74 | the string form of an id is twice the digest width long and made only of lowercase hex digits |
| ObjectIds.ParseHexInvertsHex | libzerostash/src/objects.rs:70-74 | parsing the hex form gives back the original bytes, so no information is lost |
| ObjectIds.ToStringInjective | libzerostash/src/objects.rs:70-74 | two ids with the same string form are the same id |
| ObjectIds.HexExample | libzerostash/src/objects.rs:70-74 | bytes 0xAB, 0x01 print as "ab01" |
| Objects.New | libzerostash/src/objects.rs:138-145 | cursor 0, default id, and capacity equal to the nominal block size whatever the buffer's length |
| Objects.WithId | libzerostash/src/objects.rs:178-187 | cursor 0, the given id, and capacity equal to the buffer's real length |
| Objects.NewVersusWithId | libzerostash/src/objects.rs:137-145 | `new` agrees with `with_id` of the default id exactly on a full block; on a shorter buffer its capacity passes the buffer's end, so `as_ref` on it would slice out of range |
| Objects.DefaultWrite | libzerostash/src/objects.rs:309-321 | a zero-filled block with the default id, whose capacity is the whole block, with cursor 0 |
| Objects.IntoRead | libzerostash/src/objects.rs:82-94 | the read object has the same id and bytes, capacity equal to the length, and cursor 0 |
| Objects.ReserveTag | libzerostash/src/objects.rs:169-171 | capacity plus tag width is the block size; id, bytes and cursor are unchanged |
| Objects.ReserveTagLeavesTagRoom | libzerostash/src/objects.rs:169-171 | on a block, exactly one tag width of buffer remains past the capacity, and a second call changes nothing |
| Objects.Seek | libzerostash/src/objects.rs:256-293 | succeeds iff the target (start offset, capacity minus end offset, or cursor plus delta) lies in [0, capacity]; on success the cursor becomes the target, which is returned; otherwise the object is unchanged and the error is InvalidInput |
| Objects.Read | libzerostash/src/objects.rs:238-254 | fails with UnexpectedEof iff cursor + n passes the buffer length, leaving the object unchanged; otherwise it returns the n bytes at the cursor and advances the cursor by n |
| Objects.Write | libzerostash/src/objects.rs:217-230 | defined only where the bytes fit the buffer; places them at the cursor, leaves every other byte, the id and the capacity alone, advances the cursor by the count and returns the count |
| Objects.WriteThenReadBack | libzerostash/src/objects.rs:222-253 | after a write, seeking back to its start and reading its length yields exactly the written bytes |
| Objects.WriteWithinCapacityKeepsTag | libzerostash/src/objects.rs:222-230 | a write that ends within the capacity leaves the bytes past the capacity untouched |
| Objects.Clear | libzerostash/src/objects.rs:194-199 | every byte of the whole buffer becomes 0; id, capacity and cursor are unchanged |
| Objects.WriteTag | libzerostash/src/objects.rs:201-204 | requires a tag exactly as long as the region past the capacity; fills that region and leaves the bytes before the capacity alone |
| Objects.WriteHead | libzerostash/src/objects.rs:206-209 | overwrites only the first bytes, as many as the header is long, whatever the cursor |
| Objects.WriteHeadIsWriteAtStart | libzerostash/src/objects.rs:206-209 | `write_head` is the same as a write at offset 0, except that the cursor stays where it was |
| Objects.WriteHeadKeepsTag | libzerostash/src/objects.rs:206-209 | a header no longer than the capacity leaves every byte past the capacity untouched |
| Objects.ClearForgetsHead | libzerostash/src/objects.rs:194-209 | clearing after writing a header gives the same object as clearing without it |
| Objects.ReadAfterClear | libzerostash/src/objects.rs:194-199 | after `clear`, a read fails exactly when it failed before, and otherwise yields only zeros |
| Objects.Finalize | libzerostash/src/objects.rs:211-214 | bytes before the cursor are kept; every byte from the cursor to the end of the buffer comes from the random source |
| Objects.AsRef | libzerostash/src/objects.rs:324-332 | the view is exactly the first capacity bytes of the buffer |
| Objects.AsMut | libzerostash/src/objects.rs:334-342 | storing through the mutable view changes only the first capacity bytes |
| Objects.TagAndViewDisjoint | libzerostash/src/objects.rs:324-342 | writing the tag does not change the view, and the tag and view writes commute |
| Storages.NewStorage | libzerostash/src/objects.rs:386-397 | a zeroed block with a random id and cursor 0; both capacities are the whole block, because no tag is reserved; the invariant holds |
| Storages.Clone | libzerostash/src/objects.rs:365-380 | same buffer bytes, cursor and capacities; only the id is freshly drawn; the invariant is preserved |
| Storages.Flush | libzerostash/src/objects.rs:428-436 | hands the backend the object with its tail past the cursor randomized; succeeds iff the backend accepts; on success the id is the fresh one, the cursor 0, and capacity and bytes are kept; on failure the id and cursor are unchanged and the error is Backend |
| Storages.StoreChunk | libzerostash/src/objects.rs:404-426 | a codec error changes nothing; flushes iff cursor + size > capacity, so an exact fit does not flush; fails only on a rejected flush (always so for a chunk larger than a block), and then the store is exactly what that flush left: same id, cursor and capacities, bytes before the cursor kept; the pointer has the post-flush offset, the compressed size, the current id, the input hash and the seal's tag; the ciphertext sits at the pointer, earlier bytes are untouched, and the cursor becomes offs + size |
| Storages.StoreChunkFrame | libzerostash/src/objects.rs:404-426 | on success the object's capacity is kept, and every byte past the new chunk is unchanged: from the object being filled without a flush, or from the finalized object handed to the backend after one |
| Storages.Append | libzerostash/src/objects.rs:413-425 | the chunk is sealed against the current object and its ciphertext written at the cursor; the pointer carries the old cursor, the compressed size, the object's id, the input hash and the seal's tag; bytes before the cursor, id and capacities are kept and the cursor advances by the size |
| Storages.AppendKeepsTail | libzerostash/src/objects.rs:413-425 | every byte past the appended ciphertext, to the end of the buffer, is what was there before |
| Storages.ExactFitDoesNotFlush | libzerostash/src/objects.rs:407-411 | a chunk that ends exactly at the capacity is appended to the current object without a flush |
| Storages.FlushedBytesReadBack | libzerostash/src/objects.rs:428-430 | the object handed to the backend keeps the store's id, and reading any range below the cursor from it, after seeking to the range's start, yields the bytes the store held there |
| Storages.FlushedObjectHoldsChunk | libzerostash/src/objects.rs:404-436 | the object handed to the backend at the next flush carries the pointer's id, and seeking to the pointer's offset and reading its size there returns the chunk's ciphertext |
| Storages.StoredChunkRoundTrip | libzerostash/src/objects.rs:413-425 | given decryption that undoes the seal and decompression that undoes the codec, the bytes at the pointer decode back to the stored data |
| Storages.StoreKeepsEarlierBytes | libzerostash/src/objects.rs:404-426 | every byte before the cursor survives a store_chunk call: without a flush it stays in the object being filled, at the pointer's offset equal to the old cursor; with a flush it is in the object handed to the backend under the old id, and the new chunk starts at 0 under the fresh id; after a rejected flush it is both in the refused object and in the store, under the old id |
| Storages.RetryAfterRejectedFlush | libzerostash/src/objects.rs:404-436 | repeating a call whose flush was rejected flushes again, hands the backend an object under the old id with every byte before the cursor intact, succeeds iff the backend now accepts, and then places the chunk at offset 0 of the fresh object |
| Storages.ConsecutiveChunks | libzerostash/src/objects.rs:404-426 | if a second chunk does not flush, it lands right after the first in the same object and the first chunk's bytes are intact; if it flushes, the flushed object carries the first chunk under the first pointer's id and the second chunk starts a fresh object at 0 |
| Storages.Apply | libzerostash/src/objects.rs:404-436 | one store or flush call keeps the store at rest, including a chunk larger than a block whose flush the backend rejects: cursor within capacity, capacity the whole block |
| Storages.Run | libzerostash/src/objects.rs:404-436 | any sequence of calls keeps the store at rest, whatever randomness each call draws and whatever the backend answers at each call |
| Storages.CapacityInvariant | libzerostash/src/objects.rs:386-436 | after every prefix of any call history from a new store whose chunks each fit a block, the cursor never passes the capacity, which stays the whole block |
| Storages.DefaultPointer | libzerostash/src/objects.rs:443-446 | the pointer the null store hands out has offset 0, size 0, the default id, and an all-zero hash and tag |
| Storages.NullStoreChunk | libzerostash/src/objects.rs:442-446 | the counter grows by the raw length, and the default pointer is returned |
| Storages.NullFlush | libzerostash/src/objects.rs:448-450 | nothing changes and the call succeeds |
| Storages.NullStorageCounts | libzerostash/src/objects.rs:439-451 | after any history of store and flush calls, the counter has grown by exactly the raw length of the stored chunks; flushes leave it alone |

## Left out

- Real compression, encryption and randomness are foreign code and are parameters here. Id uniqueness is probabilistic and is not claimed. A fresh id is an arbitrary input, so nothing proves that a rotated id differs from the previous one.
- Backend persistence is external I/O. The model reduces it to an accept/reject answer plus the log of objects handed over.
- `Arc`/`Mutex` sharing, `Send`/`Sync` bounds and the `ObjectStore` trait are concurrency and dispatch plumbing. Each store is one value. The null store's shared counter is a single counter, and clones that share it are not modelled.
- The type-erased `ReadBuffer` boxing is not modelled: every buffer is its byte contents. `ObjectError`'s `thiserror` wrapping collapses to `ObjectError = Io(kind) | Backend`.
- `ChunkPointer` lives in a file that is not part of this model. Only the five fields `store_chunk` fills are modelled.
- The trivial accessors `set_id`, `capacity`, `position`, `reset_cursor`, `Object::clone` and `Write::flush` are record reads and updates in the model, or the identity. `ObjectId::new` is `Reset` of the default id.
- `write_all` is modelled as a single `write`. Here `write` always writes the whole slice or panics, so the two agree.
- Objects.Seek: the `i64` addition for `SeekFrom::Current` wraps, as in a release build. On overflow the wrapped sum is negative, so the seek fails with InvalidInput; a debug build panics instead.
- Objects.Seek: requires all sizes to fit in `i64`. This is what Rust's allocation limit of `isize::MAX` guarantees, and it makes the `as i64` casts exact.
- Storages.StoreChunk: requires that the one panic cannot happen. A compressed chunk larger than a block always forces a flush; if the backend accepts it, `write` then panics on the fresh block; if it rejects it, the call returns `Err(Backend)` with the tail finalized, and that path is modelled. The requires excludes only the accepted case. It also requires the store invariant `Valid`. `new` establishes the stronger `Steady` (the invariant with the capacity the whole block), `clone` keeps both, and every call keeps `Steady`.
- Storages.Run: requires every chunk of the history to fit a block, so a history never takes the rejected-oversized path that `Apply` admits one call at a time.
- Storages.CapacityInvariant: requires every chunk of the history to fit a block, for the same reason as `Run`.
- Storages.ConsecutiveChunks: requires both chunks to fit a block. Its conclusions are about two successful calls, and an oversized chunk never succeeds, so nothing it states is lost.
- Storages.StoreChunk: `offs as u32` and `size as u32` are written out as truncations, and the contract states they are exact. All offsets and sizes stay within one block, which is below 2^32.
- DefaultPointer: `ChunkPointer`'s `Default` is taken to be all zeros; `crate::chunks` is not part of this model.
- NullStoreChunk: the `usize` counter is unbounded in the model. An overflow of the real counter is not modelled.
