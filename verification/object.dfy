/** `Object<T>`: an identifier, a byte buffer, an effective capacity and a
    cursor, with the `Seek`/`Read`/`Write` implementations, the
    capacity-limited views and the region writers.

    The buffer type parameter `T` is modelled by its byte contents: a
    `BlockBuffer` is a `BLOCK_SIZE`-long sequence, a `ReadBuffer` any
    sequence. */
module Objects {
  import opened Primitives
  import opened ObjectIds

  datatype Object = Object(id: ObjectId, buffer: seq<byte>, capacity: nat, cursor: nat)
  {
    /** Every size fits in `i64`, as every Rust allocation is at most
        `isize::MAX` bytes long; the casts `as i64` in `seek` are then exact. */
    predicate Sized() {
      |buffer| <= I64_MAX && capacity <= I64_MAX && cursor <= I64_MAX
    }
  }

  /** The object after a `&mut self` I/O call, and what the call returned. */
  datatype IoStep<T> = IoStep(obj: Object, result: Result<T>)

  /** `Object::new`: the capacity is the nominal block size, whatever the
      buffer's own length. */
  function New(buffer: seq<byte>): (o: Object)
    ensures o.capacity == BLOCK_SIZE && o.cursor == 0
    ensures o.buffer == buffer && o.id == DefaultId()
  {
    Object(DefaultId(), buffer, BLOCK_SIZE, 0)
  }

  /** `Object::with_id`: the capacity is the buffer's real length. */
  function WithId(id: ObjectId, buffer: seq<byte>): (o: Object)
    ensures o.capacity == |o.buffer| && o.cursor == 0
    ensures o.buffer == buffer && o.id == id
  {
    Object(id, buffer, |buffer|, 0)
  }

  /** `Object::<BlockBuffer>::default()`: a zero-filled block whose capacity
      is the whole block. */
  function DefaultWrite(): (o: Object)
    ensures |o.buffer| == BLOCK_SIZE && o.capacity == BLOCK_SIZE && o.cursor == 0
    ensures o.id == DefaultId()
    ensures forall i :: 0 <= i < BLOCK_SIZE ==> o.buffer[i] == 0
    ensures o.Sized()
  {
    Object(DefaultId(), Zeros(BLOCK_SIZE), |Zeros(BLOCK_SIZE)|, 0)
  }

  /** `new` and `with_id` agree only on a full block. On a shorter buffer
      `new` claims more room than there is, so `as_ref` (which slices up to
      the capacity) cannot be taken on it. */
  lemma NewVersusWithId(buffer: seq<byte>)
    ensures |buffer| == BLOCK_SIZE ==> New(buffer) == WithId(DefaultId(), buffer)
    ensures |buffer| < BLOCK_SIZE ==> New(buffer).capacity > |New(buffer).buffer|
    ensures New(buffer).capacity <= |New(buffer).buffer| <==> |buffer| >= BLOCK_SIZE
  {
  }

  /** `From<WriteObject> for ReadObject`: same id, same bytes, and a capacity
      equal to the length, since the conversion goes through `with_id`. */
  function IntoRead(w: Object): (r: Object)
    ensures r.id == w.id && r.buffer == w.buffer
    ensures r.capacity == |w.buffer| && r.cursor == 0
  {
    WithId(w.id, w.buffer)
  }

  /** `reserve_tag`: the capacity is ASSIGNED `BLOCK_SIZE - TAG_WIDTH`; it is
      not subtracted from the current capacity. */
  function ReserveTag(o: Object): (r: Object)
    ensures r.capacity + TAG_WIDTH == BLOCK_SIZE
    ensures r.id == o.id && r.buffer == o.buffer && r.cursor == o.cursor
  {
    o.(capacity := BLOCK_SIZE - TAG_WIDTH)
  }

  /** The position a seek asks for, in exact arithmetic. */
  function SeekTarget(o: Object, pos: SeekFrom): int {
    match pos
    case Start(s) => s
    case End(e) => o.capacity - e
    case Current(c) => o.cursor + c
  }

  /** `std::io::SeekFrom`. */
  datatype SeekFrom = Start(offset: u64) | End(back: i64) | Current(delta: i64)

  /** `Seek::seek`: succeeds exactly when the target lies in `[0, capacity]`,
      then moves the cursor there and returns it; otherwise the object is
      unchanged and the error is `InvalidInput`. */
  function Seek(o: Object, pos: SeekFrom): (r: IoStep<nat>)
    requires o.Sized()
    ensures r.result.Ok? <==> 0 <= SeekTarget(o, pos) <= o.capacity
    ensures r.result.Ok? ==>
              r.result.value == SeekTarget(o, pos) && r.obj == o.(cursor := r.result.value)
    ensures r.result.Err? ==> r.obj == o && r.result.error == Io(InvalidInput)
  {
    // `capacity as u64` and `capacity as i64`, both exact since `o.Sized()`
    var umax := o.capacity;
    var imax := o.capacity;
    var invalid := IoStep(o, Err(Io(InvalidInput)));
    match pos
    case Start(s) =>
      if s > umax then invalid
      else IoStep(o.(cursor := s), Ok(s))
    case End(e) =>
      if e < 0 then invalid
      else if e > imax then invalid
      else
        var c := o.capacity - e;
        IoStep(o.(cursor := c), Ok(c))
    case Current(c) =>
      var newPos := WrappingAddI64(o.cursor, c);
      if newPos < 0 then invalid
      else if newPos > imax then invalid
      else IoStep(o.(cursor := newPos), Ok(newPos))
  }

  /** `Read::read` into a buffer of `n` bytes. The bound is the BUFFER
      length, not the capacity, so a read may run into the tag region. */
  function Read(o: Object, n: nat): (r: IoStep<seq<byte>>)
    ensures r.result.Err? <==> o.cursor + n > |o.buffer|
    ensures r.result.Err? ==> r.obj == o && r.result.error == Io(UnexpectedEof)
    ensures r.result.Ok? ==>
              && |r.result.value| == n
              && (forall i :: 0 <= i < n ==> r.result.value[i] == o.buffer[o.cursor + i])
              && r.obj == o.(cursor := o.cursor + n)
  {
    var end := n + o.cursor;
    if end > |o.buffer| then IoStep(o, Err(Io(UnexpectedEof)))
    else IoStep(o.(cursor := end), Ok(o.buffer[o.cursor..end]))
  }

  /** `Write::write`: no capacity check; the slice index panics past the end
      of the buffer, hence the precondition. Returns the count written. */
  function Write(o: Object, buf: seq<byte>): (r: IoStep<nat>)
    requires o.cursor + |buf| <= |o.buffer|
    ensures r.result == Ok(|buf|)
    ensures |r.obj.buffer| == |o.buffer|
    ensures forall i :: 0 <= i < |buf| ==> r.obj.buffer[o.cursor + i] == buf[i]
    ensures forall i :: 0 <= i < |o.buffer| && !(o.cursor <= i < o.cursor + |buf|) ==>
              r.obj.buffer[i] == o.buffer[i]
    ensures r.obj.cursor == o.cursor + |buf|
    ensures r.obj.id == o.id && r.obj.capacity == o.capacity
  {
    var ofs := o.cursor;
    var len := |buf|;
    var b := o.buffer[..ofs] + buf + o.buffer[ofs + len..];
    IoStep(o.(buffer := b, cursor := o.cursor + len), Ok(len))
  }

  /** `clear`: zeroes the whole buffer, not only the capacity-limited view. */
  function Clear(o: Object): (r: Object)
    ensures |r.buffer| == |o.buffer|
    ensures forall i :: 0 <= i < |r.buffer| ==> r.buffer[i] == 0
    ensures r.id == o.id && r.capacity == o.capacity && r.cursor == o.cursor
  {
    o.(buffer := Zeros(|o.buffer|))
  }

  /** `write_tag`: fills the region past the capacity; `copy_from_slice`
      panics unless `tag` is exactly as long as that region. */
  function WriteTag(o: Object, tag: seq<byte>): (r: Object)
    requires o.capacity <= |o.buffer|
    requires |tag| == |o.buffer| - o.capacity
    ensures |r.buffer| == |o.buffer|
    ensures forall i :: 0 <= i < o.capacity ==> r.buffer[i] == o.buffer[i]
    ensures forall i :: 0 <= i < |tag| ==> r.buffer[o.capacity + i] == tag[i]
    ensures r.id == o.id && r.capacity == o.capacity && r.cursor == o.cursor
  {
    o.(buffer := o.buffer[..o.capacity] + tag)
  }

  /** `write_head`: overwrites the first `|head|` bytes, whatever the cursor. */
  function WriteHead(o: Object, head: seq<byte>): (r: Object)
    requires |head| <= |o.buffer|
    ensures |r.buffer| == |o.buffer|
    ensures forall i :: 0 <= i < |head| ==> r.buffer[i] == head[i]
    ensures forall i :: |head| <= i < |o.buffer| ==> r.buffer[i] == o.buffer[i]
    ensures r.id == o.id && r.capacity == o.capacity && r.cursor == o.cursor
  {
    o.(buffer := head + o.buffer[|head|..])
  }

  /** `finalize`: `random.fill` over everything from the cursor to the end
      of the buffer. `random` is the random source's output stream, of which
      the fill consumes the first `|buffer| - cursor` bytes; slicing from the
      cursor panics if the cursor is past the end of the buffer. */
  function Finalize(o: Object, random: seq<byte>): (r: Object)
    requires o.cursor <= |o.buffer|
    requires |o.buffer| - o.cursor <= |random|
    ensures |r.buffer| == |o.buffer|
    ensures forall i :: 0 <= i < o.cursor ==> r.buffer[i] == o.buffer[i]
    ensures forall i :: o.cursor <= i < |o.buffer| ==> r.buffer[i] == random[i - o.cursor]
    ensures r.id == o.id && r.capacity == o.capacity && r.cursor == o.cursor
  {
    o.(buffer := o.buffer[..o.cursor] + random[..|o.buffer| - o.cursor])
  }

  /** `as_ref`: exactly the first `capacity` bytes; the tag region is never
      part of the view. */
  function AsRef(o: Object): (view: seq<byte>)
    requires o.capacity <= |o.buffer|
    ensures |view| == o.capacity
    ensures forall i :: 0 <= i < o.capacity ==> view[i] == o.buffer[i]
  {
    o.buffer[..o.capacity]
  }

  /** `as_mut`: the object after its caller stored `view` through the
      mutable slice; only the first `capacity` bytes can change. */
  function AsMut(o: Object, view: seq<byte>): (r: Object)
    requires o.capacity <= |o.buffer|
    requires |view| == o.capacity
    ensures |r.buffer| == |o.buffer|
    ensures forall i :: 0 <= i < o.capacity ==> r.buffer[i] == view[i]
    ensures forall i :: o.capacity <= i < |o.buffer| ==> r.buffer[i] == o.buffer[i]
    ensures r.id == o.id && r.capacity == o.capacity && r.cursor == o.cursor
  {
    o.(buffer := view + o.buffer[o.capacity..])
  }

  /** Bytes written at a position can be read back from it. */
  lemma WriteThenReadBack(o: Object, buf: seq<byte>)
    requires o.Sized()
    requires o.cursor <= o.capacity
    requires o.cursor + |buf| <= |o.buffer|
    ensures var w := Write(o, buf).obj;
            var s := Seek(w, Start(o.cursor));
            s.result.Ok? && s.obj.cursor == o.cursor && Read(s.obj, |buf|).result == Ok(buf)
  {
    var w := Write(o, buf).obj;
    assert w.Sized();
    var s := Seek(w, Start(o.cursor));
    var r := Read(s.obj, |buf|);
    assert r.result.value == buf;
  }

  /** The tag region and the capacity-limited view never overlap: writing the
      tag leaves the view unchanged, and storing through the view leaves the
      tag unchanged. */
  lemma TagAndViewDisjoint(o: Object, tag: seq<byte>, view: seq<byte>)
    requires o.capacity <= |o.buffer|
    requires |tag| == |o.buffer| - o.capacity
    requires |view| == o.capacity
    ensures AsRef(WriteTag(o, tag)) == AsRef(o)
    ensures WriteTag(AsMut(o, view), tag) == AsMut(WriteTag(o, tag), view)
  {
    var a := WriteTag(AsMut(o, view), tag);
    var b := AsMut(WriteTag(o, tag), view);
    assert a.buffer == b.buffer;
  }

  /** On a block object, `reserve_tag` leaves a trailing region exactly one
      tag wide, so `write_tag` accepts precisely a `Tag`; calling it twice
      changes nothing more, because it assigns rather than subtracts. */
  lemma ReserveTagLeavesTagRoom(o: Object)
    requires |o.buffer| == BLOCK_SIZE
    ensures var r := ReserveTag(o);
            r.capacity <= |r.buffer| && |r.buffer| - r.capacity == TAG_WIDTH
    ensures ReserveTag(ReserveTag(o)) == ReserveTag(o)
  {
  }

  /** A write that stays within the capacity never reaches the tag region. */
  lemma WriteWithinCapacityKeepsTag(o: Object, buf: seq<byte>)
    requires o.capacity <= |o.buffer|
    requires o.cursor + |buf| <= o.capacity
    ensures Write(o, buf).obj.buffer[o.capacity..] == o.buffer[o.capacity..]
  {
  }

  /** `write_head` is a write at offset 0 that leaves the cursor where it
      was. */
  lemma WriteHeadIsWriteAtStart(o: Object, head: seq<byte>)
    requires |head| <= |o.buffer|
    ensures WriteHead(o, head) == Write(o.(cursor := 0), head).obj.(cursor := o.cursor)
  {
    assert WriteHead(o, head).buffer == Write(o.(cursor := 0), head).obj.buffer;
  }

  /** A header that fits the capacity never reaches the tag region. */
  lemma WriteHeadKeepsTag(o: Object, head: seq<byte>)
    requires |head| <= o.capacity <= |o.buffer|
    ensures WriteHead(o, head).buffer[o.capacity..] == o.buffer[o.capacity..]
  {
  }

  /** `clear` forgets everything, a header included. */
  lemma ClearForgetsHead(o: Object, head: seq<byte>)
    requires |head| <= |o.buffer|
    ensures Clear(WriteHead(o, head)) == Clear(o)
  {
  }

  /** After `clear`, a read fails exactly where it failed before, and
      otherwise yields only zeros. */
  lemma ReadAfterClear(o: Object, n: nat)
    ensures Read(Clear(o), n).result.Ok? <==> o.cursor + n <= |o.buffer|
    ensures o.cursor + n <= |o.buffer| ==> Read(Clear(o), n).result == Ok(Zeros(n))
  {
    if o.cursor + n <= |o.buffer| {
      assert Read(Clear(o), n).result.value == Zeros(n);
    }
  }
}
