/** Vocabulary shared by the object layer: bytes, the fixed-width integers the
    source casts through, the crate-wide size constants, and the error type
    that `objects.rs` collapses every failure into. */
module Primitives {

  /** One `u8`. */
  newtype byte = b: int | 0 <= b < 0x100

  const TWO_32: int := 0x1_0000_0000
  const TWO_64: int := 0x1_0000_0000_0000_0000
  const I64_MIN: int := -0x8000_0000_0000_0000
  const I64_MAX: int := 0x7fff_ffff_ffff_ffff

  type u64 = x: int | 0 <= x < 0x1_0000_0000_0000_0000
  type i64 = x: int | -0x8000_0000_0000_0000 <= x <= 0x7fff_ffff_ffff_ffff

  /** `crate::BLOCK_SIZE`: the byte length of every write-mode object (4 MiB). */
  const BLOCK_SIZE: nat := 4 * 1024 * 1024

  /** `size_of::<Tag>()`: the width of one authentication tag. */
  const TAG_WIDTH: nat := 16

  /** Width of a `CryptoDigest`, which is also the width of an object id. */
  const DIGEST_WIDTH: nat := 32

  /** A content hash (`CryptoDigest`, a fixed-size byte array). */
  type Digest = s: seq<byte> | |s| == DIGEST_WIDTH witness Zeros(DIGEST_WIDTH)

  /** An authentication tag (`Tag`, a fixed-size byte array). */
  type Tag = s: seq<byte> | |s| == TAG_WIDTH witness Zeros(TAG_WIDTH)

  /** `n` zero bytes: what `vec![0; n]` and `Default` produce. */
  function Zeros(n: nat): (z: seq<byte>)
    ensures |z| == n
    ensures forall i :: 0 <= i < n ==> z[i] == 0
  {
    seq(n, _ => 0)
  }

  /** `x as u32`: Rust keeps the low 32 bits. */
  function AsU32(x: nat): (r: nat)
    ensures r < TWO_32
    ensures x < TWO_32 ==> r == x
  {
    x % TWO_32
  }

  /** `a + b` on `i64` in a release build, where overflow wraps around. */
  function WrappingAddI64(a: i64, b: i64): (r: i64)
    ensures (r - (a + b)) % TWO_64 == 0
  {
    var s := a + b;
    if s > I64_MAX then s - TWO_64
    else if s < I64_MIN then s + TWO_64
    else s
  }

  /** `io::ErrorKind`, restricted to the kinds this layer distinguishes. */
  datatype IoErrorKind = UnexpectedEof | InvalidInput | Other

  /** `ObjectError`: an I/O failure or a failure reported by the backend. */
  datatype ObjectError = Io(kind: IoErrorKind) | Backend

  datatype Result<+T> = Ok(value: T) | Err(error: ObjectError)
}
