/** `ObjectId`: a digest-wide name for one object, its byte view and its
    lowercase hexadecimal string form. */
module ObjectIds {
  import opened Primitives

  datatype ObjectId = ObjectId(digest: Digest)

  /** `ObjectId::default()`: the all-zero identifier. */
  function DefaultId(): (id: ObjectId)
    ensures forall i :: 0 <= i < DIGEST_WIDTH ==> AsBytes(id)[i] == 0
  {
    ObjectId(Zeros(DIGEST_WIDTH))
  }

  /** `new` and `reset`: every byte of the identifier comes from the random
      source; `random` stands for the bytes that source yields. */
  function Reset(random: Digest): (id: ObjectId)
    ensures AsBytes(id) == random
  {
    ObjectId(random)
  }

  /** `from_bytes`: `copy_from_slice` panics unless the slice is exactly
      digest-wide, hence the precondition. */
  function FromBytes(bytes: seq<byte>): (id: ObjectId)
    requires |bytes| == DIGEST_WIDTH
    ensures AsBytes(id) == bytes
  {
    ObjectId(bytes)
  }

  /** `as_ref` of an id: the raw identifier bytes. */
  function AsBytes(id: ObjectId): (bytes: seq<byte>)
    ensures |bytes| == DIGEST_WIDTH
  {
    id.digest
  }

  /** Viewing an identifier as bytes and reading it back is the identity. */
  lemma AsBytesRoundTrip(id: ObjectId)
    ensures FromBytes(AsBytes(id)) == id
  {
  }

  /** The lowercase hexadecimal digit for `d`. */
  function HexDigit(d: nat): (c: char)
    requires d < 16
    ensures IsHexDigit(c)
  {
    if d < 10 then ('0' as int + d) as char else ('a' as int + d - 10) as char
  }

  predicate IsHexDigit(c: char) {
    '0' <= c <= '9' || 'a' <= c <= 'f'
  }

  /** The value of a lowercase hexadecimal digit. */
  function DigitValue(c: char): (d: nat)
    requires IsHexDigit(c)
    ensures d < 16
  {
    if '0' <= c <= '9' then c as int - '0' as int else c as int - 'a' as int + 10
  }

  lemma DigitRoundTrip(d: nat)
    requires d < 16
    ensures DigitValue(HexDigit(d)) == d
  {
  }

  /** `format!("{:02x}", bytes.iter().format(""))`: each byte as two
      lowercase hex digits, high nibble first, with no separator. */
  function Hex(bytes: seq<byte>): (s: string)
    ensures |s| == 2 * |bytes|
    ensures forall i :: 0 <= i < |s| ==> IsHexDigit(s[i])
    ensures forall i :: 0 <= i < |bytes| ==>
              s[2 * i] == HexDigit(bytes[i] as int / 16) && s[2 * i + 1] == HexDigit(bytes[i] as int % 16)
  {
    if |bytes| == 0 then ""
    else
      var rest := Hex(bytes[1..]);
      assert forall i :: 1 <= i < |bytes| ==> bytes[i] == bytes[1..][i - 1];
      [HexDigit(bytes[0] as int / 16), HexDigit(bytes[0] as int % 16)] + rest
  }

  /** `to_string` of an identifier. */
  function ToString(id: ObjectId): (s: string)
    ensures |s| == 2 * DIGEST_WIDTH
    ensures forall i :: 0 <= i < |s| ==> IsHexDigit(s[i])
    ensures forall i :: 0 <= i < DIGEST_WIDTH ==>
              s[2 * i] == HexDigit(AsBytes(id)[i] as int / 16) && s[2 * i + 1] == HexDigit(AsBytes(id)[i] as int % 16)
  {
    Hex(id.digest)
  }

  /** Reads back a string of lowercase hex digit pairs. */
  function ParseHex(s: string): (bytes: seq<byte>)
    requires |s| % 2 == 0
    requires forall i :: 0 <= i < |s| ==> IsHexDigit(s[i])
    ensures |bytes| * 2 == |s|
  {
    if |s| == 0 then []
    else [(DigitValue(s[0]) * 16 + DigitValue(s[1])) as byte] + ParseHex(s[2..])
  }

  /** The hex form loses nothing: parsing it gives back the bytes. */
  lemma {:induction false} ParseHexInvertsHex(bytes: seq<byte>)
    ensures ParseHex(Hex(bytes)) == bytes
  {
    if |bytes| > 0 {
      var s := Hex(bytes);
      DigitRoundTrip(bytes[0] as int / 16);
      DigitRoundTrip(bytes[0] as int % 16);
      assert s[2..] == Hex(bytes[1..]);
      ParseHexInvertsHex(bytes[1..]);
      assert bytes == [bytes[0]] + bytes[1..];
    }
  }

  /** Distinct identifiers print differently. */
  lemma ToStringInjective(a: ObjectId, b: ObjectId)
    requires ToString(a) == ToString(b)
    ensures a == b
  {
    ParseHexInvertsHex(a.digest);
    ParseHexInvertsHex(b.digest);
  }

  /** `to_string` of the bytes `[0xAB, 0x01]` is `"ab01"`. */
  lemma HexExample()
    ensures Hex([0xAB, 0x01]) == "ab01"
  {
    assert Hex([0x01]) == "01";
  }
}
