/** `Storage<C>`: the append/rotate state machine that packs chunks into one
    write-mode object, flushes it to the backend when the next chunk does not
    fit, and hands out a `ChunkPointer` per chunk; and `NullStorage`, the
    measuring store that only counts bytes.

    The collaborators are parameters of each call:
    - `codec`: `compress::block`, any function from bytes to bytes or error;
    - `seal`: `CryptoProvider::encrypt_chunk`, which encrypts in place and
      therefore keeps the length, and yields a tag;
    - `random`: the stream the random source yields, of which a fill consumes
      a prefix;
    - `nextId`: the bytes the random source yields when the id is reset;
    - `backend`: `Backend::write_object`, success or failure per object. */
module Storages {
  import opened Primitives
  import opened ObjectIds
  import opened Objects

  /** The five fields of `crate::chunks::ChunkPointer` that `store_chunk`
      fills. */
  datatype ChunkPointer = ChunkPointer(offs: nat, size: nat, file: ObjectId, hash: Digest, tag: Tag)

  /** What `encrypt_chunk` leaves behind: the encrypted bytes and the tag. */
  datatype Sealed = Sealed(ciphertext: seq<byte>, tag: Tag)

  type Codec = seq<byte> -> Result<seq<byte>>
  type Sealer = (Object, Digest, seq<byte>) -> Sealed
  type Backend = Object -> bool

  /** `Storage<C>` without its shared backend handle and crypto provider:
      the object being filled and the store's own capacity field, which is
      separate from the object's. */
  datatype Storage = Storage(obj: Object, capacity: nat)

  /** The store after a `&mut self` call, the objects that call handed to the
      backend (the backend's log), and what the call returned. */
  datatype StoreStep<T> = StoreStep(storage: Storage, sent: seq<Object>, result: Result<T>)

  /** The store's invariant: a full block buffer, and a cursor that never
      passes the capacity, which never passes the block. */
  ghost predicate Valid(s: Storage) {
    && |s.obj.buffer| == BLOCK_SIZE
    && s.capacity <= BLOCK_SIZE
    && s.obj.cursor <= s.capacity
  }

  /** Encryption works in place, so it cannot change the length. */
  ghost predicate PreservesLength(seal: Sealer) {
    forall o, h, p :: |seal(o, h, p).ciphertext| == |p|
  }

  /** A codec result that `write` can store in an empty block without
      running off its end. */
  predicate FitsBlock(compressed: Result<seq<byte>>) {
    compressed.Ok? ==> |compressed.value| <= BLOCK_SIZE
  }

  /** `Storage::new`: a default (zeroed, full-capacity) block with a random
      id. No tag is reserved, so the capacity is the whole block. */
  function NewStorage(random: Digest): (s: Storage)
    ensures Valid(s)
    ensures s.capacity == BLOCK_SIZE && s.obj.capacity == BLOCK_SIZE
    ensures s.obj.cursor == 0 && s.obj.id == Reset(random)
    ensures forall i :: 0 <= i < BLOCK_SIZE ==> s.obj.buffer[i] == 0
  {
    var obj := DefaultWrite().(id := Reset(random));
    Storage(obj, obj.capacity)
  }

  /** `Storage::clone`: same buffer bytes, cursor and capacities; only the
      id is reset from the random source. */
  function Clone(s: Storage, random: Digest): (c: Storage)
    ensures c.obj.buffer == s.obj.buffer && c.obj.cursor == s.obj.cursor
    ensures c.obj.capacity == s.obj.capacity && c.capacity == s.capacity
    ensures c.obj.id == Reset(random)
    ensures Valid(s) ==> Valid(c)
  {
    Storage(s.obj.(id := Reset(random)), s.capacity)
  }

  /** `flush`: finalize, hand the object to the backend, and only if the
      backend accepts it rotate the id and rewind the cursor. On failure the
      `?` returns before the rotation, but the tail is already finalized. */
  function Flush(s: Storage, random: seq<byte>, nextId: Digest, backend: Backend): (r: StoreStep<()>)
    requires s.obj.cursor <= |s.obj.buffer|
    requires |s.obj.buffer| - s.obj.cursor <= |random|
    ensures |r.sent| == 1
    ensures var o := r.sent[0];
            && o.id == s.obj.id && o.cursor == s.obj.cursor && o.capacity == s.obj.capacity
            && |o.buffer| == |s.obj.buffer|
            && (forall i :: 0 <= i < s.obj.cursor ==> o.buffer[i] == s.obj.buffer[i])
            && (forall i :: s.obj.cursor <= i < |o.buffer| ==> o.buffer[i] == random[i - s.obj.cursor])
    ensures r.result.Ok? <==> backend(r.sent[0])
    ensures r.result.Err? ==> r.result.error == Backend && r.storage == s.(obj := r.sent[0])
    ensures r.result.Ok? ==>
              && r.storage.capacity == s.capacity
              && r.storage.obj.id == Reset(nextId) && r.storage.obj.cursor == 0
              && r.storage.obj.buffer == r.sent[0].buffer
              && r.storage.obj.capacity == s.obj.capacity
    ensures Valid(s) ==> Valid(r.storage)
  {
    var finished := Finalize(s.obj, random);
    if !backend(finished) then
      StoreStep(s.(obj := finished), [finished], Err(Backend))
    else
      var rotated := finished.(id := Reset(nextId), cursor := 0);
      StoreStep(s.(obj := rotated), [finished], Ok(()))
  }

  /** Whether `store_chunk` flushes before writing `size` bytes: only when
      they would pass the capacity, so an exact fit stays in the object. */
  predicate MustFlush(s: Storage, size: nat) {
    s.obj.cursor + size > s.capacity
  }

  /** The object a chunk is encrypted against and appended to: the current
      one, or the rotated one after a successful flush. */
  function TargetObject(s: Storage, size: nat, random: seq<byte>, nextId: Digest, backend: Backend): Object
    requires s.obj.cursor <= |s.obj.buffer|
    requires |s.obj.buffer| - s.obj.cursor <= |random|
  {
    if MustFlush(s, size) then Flush(s, random, nextId, backend).storage.obj else s.obj
  }

  /** Encrypts `compressed` against the current object and appends it at the
      cursor; the pointer records the pre-write offset, cast to `u32`. */
  function Append(s: Storage, sent: seq<Object>, hash: Digest, compressed: seq<byte>, seal: Sealer)
    : (r: StoreStep<ChunkPointer>)
    requires PreservesLength(seal)
    requires s.obj.cursor + |compressed| <= |s.obj.buffer|
    ensures r.sent == sent && r.result.Ok?
    ensures |r.storage.obj.buffer| == |s.obj.buffer|
    ensures var p := r.result.value;
            var sealed := seal(s.obj, hash, compressed);
            && (|s.obj.buffer| < TWO_32 ==> p.offs == s.obj.cursor && p.size == |compressed|)
            && p.hash == hash && p.tag == sealed.tag
            && p.file == s.obj.id && r.storage.obj.id == s.obj.id
            && (forall i :: 0 <= i < |compressed| ==> r.storage.obj.buffer[s.obj.cursor + i] == sealed.ciphertext[i])
    ensures r.storage.capacity == s.capacity && r.storage.obj.capacity == s.obj.capacity
    ensures r.storage.obj.cursor == s.obj.cursor + |compressed|
    ensures forall i :: 0 <= i < s.obj.cursor ==> r.storage.obj.buffer[i] == s.obj.buffer[i]
  {
    var offs := s.obj.cursor;
    var sealed := seal(s.obj, hash, compressed);
    var written := Write(s.obj, sealed.ciphertext).obj;
    var pointer := ChunkPointer(AsU32(offs), AsU32(|compressed|), written.id, hash, sealed.tag);
    StoreStep(s.(obj := written), sent, Ok(pointer))
  }

  /** Appending writes only the chunk's own bytes: everything past them,
      up to the end of the buffer, is what was there before. */
  lemma AppendKeepsTail(s: Storage, sent: seq<Object>, hash: Digest, compressed: seq<byte>, seal: Sealer)
    requires PreservesLength(seal)
    requires s.obj.cursor + |compressed| <= |s.obj.buffer|
    ensures var r := Append(s, sent, hash, compressed, seal);
            forall i :: s.obj.cursor + |compressed| <= i < |s.obj.buffer| ==> r.storage.obj.buffer[i] == s.obj.buffer[i]
  {
    var sealed := seal(s.obj, hash, compressed);
    var w := Write(s.obj, sealed.ciphertext).obj;
    assert |sealed.ciphertext| == |compressed|;
    assert forall i :: s.obj.cursor + |compressed| <= i < |s.obj.buffer| ==> w.buffer[i] == s.obj.buffer[i];
  }

  /** The one way `store_chunk` panics: a compressed chunk larger than a
      block always forces a flush, and if the backend accepts it, `write`
      runs off the end of the fresh block. If the backend rejects it, the
      `?` returns before the write, and nothing panics. */
  predicate WriteCannotPanic(s: Storage, compressed: Result<seq<byte>>, random: seq<byte>, backend: Backend)
    requires s.obj.cursor <= |s.obj.buffer|
    requires |s.obj.buffer| - s.obj.cursor <= |random|
  {
    FitsBlock(compressed) || !backend(Finalize(s.obj, random))
  }

  /** `store_chunk`. */
  function StoreChunk(s: Storage, hash: Digest, data: seq<byte>, codec: Codec, seal: Sealer,
                      random: seq<byte>, nextId: Digest, backend: Backend): (r: StoreStep<ChunkPointer>)
    requires Valid(s)
    requires PreservesLength(seal)
    requires BLOCK_SIZE - s.obj.cursor <= |random|
    requires WriteCannotPanic(s, codec(data), random, backend)
    // a codec failure propagates before anything changes
    ensures codec(data).Err? ==> r == StoreStep(s, [], Err(codec(data).error))
    // the flush decision, and the flush is exactly `flush`
    ensures codec(data).Ok? ==>
              var size := |codec(data).value|;
              && (MustFlush(s, size) ==> r.sent == Flush(s, random, nextId, backend).sent)
              && (!MustFlush(s, size) ==> r.sent == [] && r.result.Ok?)
    // only a rejected flush fails; the store is then what the failed flush
    // left: same id, cursor and capacities, bytes before the cursor kept
    ensures codec(data).Ok? && r.result.Err? ==>
              && MustFlush(s, |codec(data).value|) && !backend(r.sent[0])
              && r.result.error == Backend
              && r.storage == Flush(s, random, nextId, backend).storage
              && r.storage.obj.id == s.obj.id && r.storage.obj.cursor == s.obj.cursor
              && r.storage.capacity == s.capacity && r.storage.obj.capacity == s.obj.capacity
              && r.storage.obj.buffer[..s.obj.cursor] == s.obj.buffer[..s.obj.cursor]
              && Valid(r.storage)
    ensures codec(data).Ok? && MustFlush(s, |codec(data).value|) && backend(r.sent[0]) ==> r.result.Ok?
    // a chunk larger than a block gets as far as the rejected flush
    ensures !FitsBlock(codec(data)) ==> r.result == Err(Backend)
    // the pointer
    ensures r.result.Ok? ==>
              var c := codec(data).value;
              var p := r.result.value;
              && codec(data).Ok?
              && p.offs == (if MustFlush(s, |c|) then 0 else s.obj.cursor)
              && p.size == |c| && p.hash == hash
              && p.file == r.storage.obj.id
              && p.file == (if MustFlush(s, |c|) then Reset(nextId) else s.obj.id)
              && r.storage.obj.cursor == p.offs + p.size
              && r.storage.capacity == s.capacity
              && (|c| <= s.capacity ==> Valid(r.storage))
    // the encrypted chunk sits at the pointer, and nothing before it moved
    ensures r.result.Ok? ==>
              var c := codec(data).value;
              var p := r.result.value;
              var sealed := seal(TargetObject(s, |c|, random, nextId, backend), hash, c);
              && p.tag == sealed.tag
              && |r.storage.obj.buffer| == BLOCK_SIZE
              && (forall i :: 0 <= i < p.size ==> r.storage.obj.buffer[p.offs + i] == sealed.ciphertext[i])
              && (forall i :: 0 <= i < p.offs ==> r.storage.obj.buffer[i] == s.obj.buffer[i])
  {
    match codec(data)
    case Err(e) => StoreStep(s, [], Err(e))
    case Ok(compressed) =>
      var size := |compressed|;
      if MustFlush(s, size) then
        var flushed := Flush(s, random, nextId, backend);
        match flushed.result
        case Err(e) => StoreStep(flushed.storage, flushed.sent, Err(e))
        case Ok(_) =>
          assert backend(Finalize(s.obj, random));
          Append(flushed.storage, flushed.sent, hash, compressed, seal)
      else
        Append(s, [], hash, compressed, seal)
  }

  /** A successful `store_chunk` writes only the chunk's own bytes: the
      object's capacity is kept, and every byte past the new chunk is what
      was there before, in the object being filled (no flush) or in the
      finalized object just handed to the backend (flush). */
  lemma StoreChunkFrame(s: Storage, hash: Digest, data: seq<byte>, codec: Codec, seal: Sealer,
                        random: seq<byte>, nextId: Digest, backend: Backend)
    requires Valid(s)
    requires PreservesLength(seal)
    requires BLOCK_SIZE - s.obj.cursor <= |random|
    requires WriteCannotPanic(s, codec(data), random, backend)
    ensures var r := StoreChunk(s, hash, data, codec, seal, random, nextId, backend);
            r.result.Ok? ==>
              var p := r.result.value;
              && r.storage.obj.capacity == s.obj.capacity
              && (r.sent == [] ==>
                    forall i :: p.offs + p.size <= i < BLOCK_SIZE ==> r.storage.obj.buffer[i] == s.obj.buffer[i])
              && (r.sent != [] ==>
                    && |r.sent[0].buffer| == BLOCK_SIZE
                    && forall i :: p.size <= i < BLOCK_SIZE ==> r.storage.obj.buffer[i] == r.sent[0].buffer[i])
  {
    var r := StoreChunk(s, hash, data, codec, seal, random, nextId, backend);
    if r.result.Ok? {
      var c := codec(data).value;
      if MustFlush(s, |c|) {
        var f := Flush(s, random, nextId, backend);
        assert r == Append(f.storage, f.sent, hash, c, seal);
        AppendKeepsTail(f.storage, f.sent, hash, c, seal);
      } else {
        assert r == Append(s, [], hash, c, seal);
        AppendKeepsTail(s, [], hash, c, seal);
      }
    }
  }

  /** An exact fit (`offs + size == capacity`) is written into the current
      object without a flush. */
  lemma ExactFitDoesNotFlush(s: Storage, hash: Digest, data: seq<byte>, codec: Codec, seal: Sealer,
                             random: seq<byte>, nextId: Digest, backend: Backend)
    requires Valid(s)
    requires PreservesLength(seal)
    requires BLOCK_SIZE - s.obj.cursor <= |random|
    requires codec(data).Ok? && s.obj.cursor + |codec(data).value| == s.capacity
    ensures var r := StoreChunk(s, hash, data, codec, seal, random, nextId, backend);
            r.sent == [] && r.result.Ok? && r.result.value.offs == s.obj.cursor
            && r.storage.obj.cursor == s.capacity
  {
  }

  /** Whatever lies before the cursor reaches the backend intact: in the
      object handed over by `flush`, seeking to any offset below the cursor
      and reading up to the cursor yields the bytes the store held there. */
  lemma FlushedBytesReadBack(t: Storage, random: seq<byte>, nextId: Digest, backend: Backend,
                             offs: nat, size: nat)
    requires Valid(t)
    requires |random| >= BLOCK_SIZE
    requires offs + size <= t.obj.cursor
    ensures var o := Flush(t, random, nextId, backend).sent[0];
            var seek := Seek(IntoRead(o), Start(offs));
            && o.id == t.obj.id
            && seek.result.Ok?
            && Read(seek.obj, size).result == Ok(t.obj.buffer[offs..offs + size])
  {
    var o := Flush(t, random, nextId, backend).sent[0];
    var ro := IntoRead(o);
    assert ro.Sized();
    var seek := Seek(ro, Start(offs));
    assert seek.obj.cursor == offs && seek.obj.buffer == o.buffer;
    var read := Read(seek.obj, size);
    assert read.result.value == t.obj.buffer[offs..offs + size];
  }

  /** The bytes a pointer names are in the object handed to the backend at the
      next flush, under the pointer's id, and the read path finds them by
      seeking to the pointer's offset and reading its size. */
  lemma FlushedObjectHoldsChunk(s: Storage, hash: Digest, data: seq<byte>, codec: Codec, seal: Sealer,
                                random: seq<byte>, nextId: Digest, backend: Backend,
                                random2: seq<byte>, nextId2: Digest, backend2: Backend)
    requires Valid(s) && s.capacity == BLOCK_SIZE
    requires PreservesLength(seal)
    requires BLOCK_SIZE - s.obj.cursor <= |random|
    requires WriteCannotPanic(s, codec(data), random, backend)
    requires StoreChunk(s, hash, data, codec, seal, random, nextId, backend).result.Ok?
    requires |random2| >= BLOCK_SIZE
    ensures var r := StoreChunk(s, hash, data, codec, seal, random, nextId, backend);
            var p := r.result.value;
            var c := codec(data).value;
            var sealed := seal(TargetObject(s, |c|, random, nextId, backend), hash, c);
            var o := Flush(r.storage, random2, nextId2, backend2).sent[0];
            var seek := Seek(IntoRead(o), Start(p.offs));
            && o.id == p.file
            && seek.result.Ok?
            && Read(seek.obj, p.size).result == Ok(sealed.ciphertext)
  {
    var r := StoreChunk(s, hash, data, codec, seal, random, nextId, backend);
    var p := r.result.value;
    var c := codec(data).value;
    var sealed := seal(TargetObject(s, |c|, random, nextId, backend), hash, c);
    var t := r.storage;
    assert Valid(t) && p.offs + p.size == t.obj.cursor;
    assert t.obj.buffer[p.offs..p.offs + p.size] == sealed.ciphertext;
    FlushedBytesReadBack(t, random2, nextId2, backend2, p.offs, p.size);
  }

  /** The round trip a reader relies on: given decryption that undoes the
      sealing and decompression that undoes the codec, the bytes at the
      pointer in the flushed object give back the stored chunk. */
  lemma StoredChunkRoundTrip(s: Storage, hash: Digest, data: seq<byte>, codec: Codec, seal: Sealer,
                             random: seq<byte>, nextId: Digest, backend: Backend,
                             random2: seq<byte>, nextId2: Digest, backend2: Backend,
                             open: (ObjectId, Digest, Sealed) -> seq<byte>,
                             decompress: seq<byte> -> seq<byte>)
    requires Valid(s) && s.capacity == BLOCK_SIZE
    requires PreservesLength(seal)
    requires forall o: Object, h: Digest, q: seq<byte> :: open(o.id, h, seal(o, h, q)) == q
    requires codec(data).Ok? && decompress(codec(data).value) == data
    requires BLOCK_SIZE - s.obj.cursor <= |random|
    requires WriteCannotPanic(s, codec(data), random, backend)
    requires StoreChunk(s, hash, data, codec, seal, random, nextId, backend).result.Ok?
    requires |random2| >= BLOCK_SIZE
    ensures var r := StoreChunk(s, hash, data, codec, seal, random, nextId, backend);
            var p := r.result.value;
            var o := Flush(r.storage, random2, nextId2, backend2).sent[0];
            var seek := Seek(IntoRead(o), Start(p.offs));
            var read := Read(seek.obj, p.size);
            read.result.Ok? && decompress(open(p.file, p.hash, Sealed(read.result.value, p.tag))) == data
  {
    FlushedObjectHoldsChunk(s, hash, data, codec, seal, random, nextId, backend, random2, nextId2, backend2);
    var c := codec(data).value;
    var t := TargetObject(s, |c|, random, nextId, backend);
    var r := StoreChunk(s, hash, data, codec, seal, random, nextId, backend);
    assert t.id == r.result.value.file;
    assert open(t.id, hash, seal(t, hash, c)) == c;
  }

  /** `store_chunk` never disturbs what is already in the object: every byte
      before the cursor is still in place afterwards, either in the object
      being filled (no flush) or in the object handed to the backend under
      the old id (flush). A rejected flush keeps them too, both in the
      object the backend refused and in the store, under the old id. */
  lemma StoreKeepsEarlierBytes(s: Storage, hash: Digest, data: seq<byte>, codec: Codec, seal: Sealer,
                               random: seq<byte>, nextId: Digest, backend: Backend, lo: nat, hi: nat)
    requires Valid(s)
    requires PreservesLength(seal)
    requires BLOCK_SIZE - s.obj.cursor <= |random|
    requires WriteCannotPanic(s, codec(data), random, backend)
    requires lo <= hi <= s.obj.cursor
    ensures var r := StoreChunk(s, hash, data, codec, seal, random, nextId, backend);
            r.result.Ok? ==>
              && (r.sent == [] ==>
                    && r.result.value.offs == s.obj.cursor && r.result.value.file == s.obj.id
                    && r.storage.obj.buffer[lo..hi] == s.obj.buffer[lo..hi])
              && (r.sent != [] ==>
                    && r.result.value.offs == 0 && r.result.value.file == Reset(nextId)
                    && r.sent[0].id == s.obj.id
                    && r.sent[0].buffer[lo..hi] == s.obj.buffer[lo..hi])
    ensures var r := StoreChunk(s, hash, data, codec, seal, random, nextId, backend);
            r.result.Err? && codec(data).Ok? ==>
              && |r.sent| == 1
              && r.sent[0].id == s.obj.id && r.storage.obj.id == s.obj.id
              && r.sent[0].buffer[lo..hi] == s.obj.buffer[lo..hi]
              && r.storage.obj.buffer[lo..hi] == s.obj.buffer[lo..hi]
  {
    var r := StoreChunk(s, hash, data, codec, seal, random, nextId, backend);
    if r.result.Ok? {
      if r.sent == [] {
        assert !MustFlush(s, |codec(data).value|);
        assert r.storage.obj.buffer[lo..hi] == s.obj.buffer[lo..hi];
      } else {
        var f := Flush(s, random, nextId, backend);
        assert r.sent == f.sent;
        assert f.sent[0].buffer[lo..hi] == s.obj.buffer[lo..hi];
      }
    } else if codec(data).Ok? {
      var f := Flush(s, random, nextId, backend);
      assert r.sent == f.sent && r.storage == f.storage;
      assert f.sent[0].buffer[lo..hi] == s.obj.buffer[lo..hi];
    }
  }

  /** A rejected flush loses nothing: repeating the same `store_chunk` call
      on the store it left flushes again, hands the backend an object under
      the old id with every byte before the cursor intact, succeeds iff the
      backend now accepts, and then places the chunk at offset 0 of the
      fresh object. */
  lemma RetryAfterRejectedFlush(s: Storage, hash: Digest, data: seq<byte>, codec: Codec, seal: Sealer,
                                random: seq<byte>, nextId: Digest, backend: Backend,
                                random2: seq<byte>, nextId2: Digest, backend2: Backend)
    requires Valid(s)
    requires PreservesLength(seal)
    requires BLOCK_SIZE - s.obj.cursor <= |random| && BLOCK_SIZE - s.obj.cursor <= |random2|
    requires codec(data).Ok? && WriteCannotPanic(s, codec(data), random, backend)
    requires StoreChunk(s, hash, data, codec, seal, random, nextId, backend).result.Err?
    requires WriteCannotPanic(StoreChunk(s, hash, data, codec, seal, random, nextId, backend).storage,
                              codec(data), random2, backend2)
    ensures var r := StoreChunk(s, hash, data, codec, seal, random, nextId, backend);
            var r2 := StoreChunk(r.storage, hash, data, codec, seal, random2, nextId2, backend2);
            && |r2.sent| == 1
            && r2.sent[0].id == s.obj.id
            && r2.sent[0].buffer[..s.obj.cursor] == s.obj.buffer[..s.obj.cursor]
            && (r2.result.Ok? <==> backend2(r2.sent[0]))
            && (r2.result.Ok? ==> r2.result.value.offs == 0 && r2.result.value.file == Reset(nextId2))
  {
    var r := StoreChunk(s, hash, data, codec, seal, random, nextId, backend);
    var size := |codec(data).value|;
    assert MustFlush(r.storage, size);
    var r2 := StoreChunk(r.storage, hash, data, codec, seal, random2, nextId2, backend2);
    var f2 := Flush(r.storage, random2, nextId2, backend2);
    assert r2.sent == f2.sent;
    assert f2.sent[0].buffer[..s.obj.cursor] == r.storage.obj.buffer[..s.obj.cursor];
  }

  /** Two chunks stored one after the other: either both land in the same
      object, back to back, with the first chunk's bytes untouched by the
      second write; or the second call flushed, the object handed to the
      backend carries the first chunk's id and bytes, and the second chunk
      starts a fresh object at offset 0. */
  lemma ConsecutiveChunks(s: Storage, codec: Codec, seal: Sealer, backend: Backend,
                          hash1: Digest, data1: seq<byte>, random1: seq<byte>, nextId1: Digest,
                          hash2: Digest, data2: seq<byte>, random2: seq<byte>, nextId2: Digest)
    requires Valid(s) && s.capacity == BLOCK_SIZE
    requires PreservesLength(seal)
    requires FitsBlock(codec(data1)) && FitsBlock(codec(data2))
    requires |random1| >= BLOCK_SIZE && |random2| >= BLOCK_SIZE
    requires StoreChunk(s, hash1, data1, codec, seal, random1, nextId1, backend).result.Ok?
    ensures var r1 := StoreChunk(s, hash1, data1, codec, seal, random1, nextId1, backend);
            var r2 := StoreChunk(r1.storage, hash2, data2, codec, seal, random2, nextId2, backend);
            var p1 := r1.result.value;
            r2.result.Ok? ==>
              var p2 := r2.result.value;
              && (r2.sent == [] ==>
                    && p2.file == p1.file && p2.offs == p1.offs + p1.size
                    && r2.storage.obj.buffer[p1.offs..p1.offs + p1.size]
                       == r1.storage.obj.buffer[p1.offs..p1.offs + p1.size])
              && (r2.sent != [] ==>
                    && p2.offs == 0 && p2.file == Reset(nextId2)
                    && r2.sent[0].id == p1.file
                    && r2.sent[0].buffer[p1.offs..p1.offs + p1.size]
                       == r1.storage.obj.buffer[p1.offs..p1.offs + p1.size])
  {
    var r1 := StoreChunk(s, hash1, data1, codec, seal, random1, nextId1, backend);
    var p1 := r1.result.value;
    var s1 := r1.storage;
    assert Valid(s1) && s1.obj.cursor == p1.offs + p1.size && s1.obj.id == p1.file;
    StoreKeepsEarlierBytes(s1, hash2, data2, codec, seal, random2, nextId2, backend,
                           p1.offs, p1.offs + p1.size);
  }

  /** One call on a store. */
  datatype Call = StoreCall(hash: Digest, data: seq<byte>) | FlushCall

  /** What the collaborators answer during one call: the randomness it may
      consume and the backend's verdict on each object handed over. */
  datatype Draw = Draw(random: seq<byte>, nextId: Digest, backend: Backend)

  /** A store at rest: the invariant, with the capacity `Storage::new` sets. */
  ghost predicate Steady(s: Storage) {
    Valid(s) && s.capacity == BLOCK_SIZE
  }

  /** Performs one call; a failed call leaves the store as the call left it,
      ready for the caller to retry. */
  function Apply(s: Storage, call: Call, draw: Draw, codec: Codec, seal: Sealer): (r: Storage)
    requires Steady(s)
    requires PreservesLength(seal)
    requires |draw.random| >= BLOCK_SIZE
    requires call.StoreCall? ==> WriteCannotPanic(s, codec(call.data), draw.random, draw.backend)
    ensures Steady(r)
  {
    match call
    case StoreCall(hash, data) => StoreChunk(s, hash, data, codec, seal, draw.random, draw.nextId, draw.backend).storage
    case FlushCall => Flush(s, draw.random, draw.nextId, draw.backend).storage
  }

  /** Performs a whole sequence of calls in order. */
  function Run(s: Storage, calls: seq<Call>, draws: seq<Draw>, codec: Codec, seal: Sealer)
    : (r: Storage)
    requires Steady(s)
    requires PreservesLength(seal)
    requires |draws| == |calls|
    requires forall i :: 0 <= i < |draws| ==> |draws[i].random| >= BLOCK_SIZE
    requires forall i :: 0 <= i < |calls| && calls[i].StoreCall? ==> FitsBlock(codec(calls[i].data))
    ensures Steady(r)
    decreases |calls|
  {
    if |calls| == 0 then s
    else
      var next := Apply(s, calls[0], draws[0], codec, seal);
      Run(next, calls[1..], draws[1..], codec, seal)
  }

  /** The capacity invariant over any history: from `Storage::new`, however
      the calls and the collaborators' answers go, the cursor never passes
      the capacity and the capacity stays the whole block. */
  lemma CapacityInvariant(random: Digest, calls: seq<Call>, draws: seq<Draw>,
                           codec: Codec, seal: Sealer, k: nat)
    requires PreservesLength(seal)
    requires |draws| == |calls|
    requires k <= |calls|
    requires forall i :: 0 <= i < |draws| ==> |draws[i].random| >= BLOCK_SIZE
    requires forall i :: 0 <= i < |calls| && calls[i].StoreCall? ==> FitsBlock(codec(calls[i].data))
    ensures var s := Run(NewStorage(random), calls[..k], draws[..k], codec, seal);
            s.obj.cursor <= s.capacity == BLOCK_SIZE == |s.obj.buffer|
  {
  }

  /** `NullStorage`: a shared byte counter and nothing else. */
  datatype NullStorage = NullStorage(total: nat)

  /** `ChunkPointer::default()`, which the null store hands out. */
  function DefaultPointer(): (p: ChunkPointer)
    ensures p.offs == 0 && p.size == 0 && p.file == DefaultId()
    ensures forall i :: 0 <= i < DIGEST_WIDTH ==> p.hash[i] == 0
    ensures forall i :: 0 <= i < TAG_WIDTH ==> p.tag[i] == 0
  {
    ChunkPointer(0, 0, DefaultId(), Zeros(DIGEST_WIDTH), Zeros(TAG_WIDTH))
  }

  /** `NullStorage::store_chunk`: adds the raw length, stores nothing. */
  function NullStoreChunk(n: NullStorage, hash: Digest, data: seq<byte>): (r: (NullStorage, Result<ChunkPointer>))
    ensures r.0.total == n.total + |data|
    ensures r.1 == Ok(DefaultPointer())
  {
    (NullStorage(n.total + |data|), Ok(DefaultPointer()))
  }

  /** `NullStorage::flush`: nothing to do. */
  function NullFlush(n: NullStorage): (r: (NullStorage, Result<()>))
    ensures r == (n, Ok(()))
  {
    (n, Ok(()))
  }

  /** The raw bytes one call hands the store: a store call's data length,
      nothing for a flush. */
  function CallLength(call: Call): nat {
    match call
    case StoreCall(_, data) => |data|
    case FlushCall => 0
  }

  /** The raw bytes a whole history hands the store, counted from the end. */
  function StoredLength(calls: seq<Call>): nat {
    if |calls| == 0 then 0 else StoredLength(calls[..|calls| - 1]) + CallLength(calls[|calls| - 1])
  }

  /** Performs one call on the null store. */
  function NullApply(n: NullStorage, call: Call): NullStorage {
    match call
    case StoreCall(hash, data) => NullStoreChunk(n, hash, data).0
    case FlushCall => NullFlush(n).0
  }

  /** Performs a whole history on the null store, from the first call. */
  function NullRun(n: NullStorage, calls: seq<Call>): NullStorage
    decreases |calls|
  {
    if |calls| == 0 then n else NullRun(NullApply(n, calls[0]), calls[1..])
  }

  lemma {:induction false} StoredLengthPrepend(c: Call, calls: seq<Call>)
    ensures StoredLength([c] + calls) == CallLength(c) + StoredLength(calls)
    decreases |calls|
  {
    if |calls| > 0 {
      var all := [c] + calls;
      assert all[..|all| - 1] == [c] + calls[..|calls| - 1];
      StoredLengthPrepend(c, calls[..|calls| - 1]);
    }
  }

  /** The null store measures: after any history of store and flush calls
      its counter has grown by exactly the raw length of the stored chunks,
      so flushes leave it alone. */
  lemma {:induction false} NullStorageCounts(n: NullStorage, calls: seq<Call>)
    ensures NullRun(n, calls).total == n.total + StoredLength(calls)
    decreases |calls|
  {
    if |calls| > 0 {
      NullStorageCounts(NullApply(n, calls[0]), calls[1..]);
      StoredLengthPrepend(calls[0], calls[1..]);
      assert calls == [calls[0]] + calls[1..];
    }
  }
}
