/** The RawKV value codec: a user value and its optional expiry timestamp laid
    out as bytes, one layout per API version.

      V1     user value
      V1TTL  user value ++ 8-byte big-endian expiry (0 = no expiry)
      V2     user value ++ [8-byte big-endian expiry] ++ meta-flag byte,
             whose least significant bit says whether the expiry is there */
module RawValues {
  import opened Bytes
  import opened Api

  /** `RawValue`: a user value and the unix second at which it expires. */
  datatype RawValue = RawValue(userValue: seq<Byte>, expireTs: Option<U64>)

  /** `ValueMeta::EXPIRE_TS`, the only defined bit of the V2 meta-flag byte. */
  const EXPIRE_TS_FLAG: Byte := 0x01

  /** A value the version can store: V1 has no room for an expiry. */
  predicate Storable(v: ApiVersion, value: RawValue) {
    IsTtlEnabled(v) || value.expireTs.None?
  }

  /** A value that survives a round trip: V1TTL also reserves expiry 0 to mean
      "never expires". */
  predicate Representable(v: ApiVersion, value: RawValue) {
    Storable(v, value) && (v == V1TTL ==> value.expireTs != Some(0))
  }

  /** The bytes that follow the user value in the encoding. */
  function ValueSuffix(v: ApiVersion, expireTs: Option<U64>): (r: seq<Byte>)
    requires IsTtlEnabled(v) || expireTs.None?
    ensures v == V1 ==> r == []
    ensures v == V1TTL ==> |r| == U64_SIZE
    ensures v == V2 ==> |r| == if expireTs.Some? then U64_SIZE + 1 else 1
    ensures v != V1 && expireTs.Some? ==> r[..U64_SIZE] == EncodeU64(expireTs.value)
    ensures v == V1TTL && expireTs.None? ==> r == [0, 0, 0, 0, 0, 0, 0, 0]
    ensures v == V2 ==> r[|r| - 1] == if expireTs.Some? then EXPIRE_TS_FLAG else 0
  {
    SmallU64Encoding(0);
    match v
    case V1 => []
    case V1TTL => EncodeU64(if expireTs.Some? then expireTs.value else 0)
    case V2 =>
      (if expireTs.Some? then EncodeU64(expireTs.value) else [])
      + [if expireTs.Some? then EXPIRE_TS_FLAG else 0]
  }

  /** `encode_raw_value`. */
  function EncodeRawValue(v: ApiVersion, value: RawValue): (r: seq<Byte>)
    requires Storable(v, value)
    ensures |r| >= |value.userValue| && r[..|value.userValue|] == value.userValue
  {
    value.userValue + ValueSuffix(v, value.expireTs)
  }

  /** `decode_raw_value`: the user value is always the leading part of the
      input, and malformed input is an `Err`, never an out-of-bounds read. */
  function DecodeRawValue(v: ApiVersion, bytes: seq<Byte>): (r: Result<RawValue>)
    ensures r.Ok? ==> |r.value.userValue| <= |bytes|
                      && bytes[..|r.value.userValue|] == r.value.userValue
    ensures r.Ok? ==> Storable(v, r.value)
  {
    match v
    case V1 => Ok(RawValue(bytes, None))
    case V1TTL =>
      if |bytes| < U64_SIZE then Err(Truncated)
      else
        var restLen := |bytes| - U64_SIZE;
        var ts := DecodeU64(bytes[restLen..]);
        Ok(RawValue(bytes[..restLen], if ts == 0 then None else Some(ts)))
    case V2 =>
      if |bytes| == 0 then Err(Truncated)
      else
        var restLen := |bytes| - 1;
        var flags := bytes[restLen];
        if flags / 2 != 0 then Err(UnsupportedFlags)
        else if flags % 2 == 0 then Ok(RawValue(bytes[..restLen], None))
        else if restLen < U64_SIZE then Err(Truncated)
        else
          var userLen := restLen - U64_SIZE;
          Ok(RawValue(bytes[..userLen], Some(DecodeU64(bytes[userLen..restLen]))))
  }

  /** Decoding inverts encoding for every value the version can represent. */
  lemma DecodeEncodeValue(v: ApiVersion, value: RawValue)
    requires Representable(v, value)
    ensures DecodeRawValue(v, EncodeRawValue(v, value)) == Ok(value)
  {
    var bytes := EncodeRawValue(v, value);
    var u := value.userValue;
    match v
    case V1 =>
    case V1TTL =>
      var ts := if value.expireTs.Some? then value.expireTs.value else 0;
      assert bytes[|u|..] == EncodeU64(ts);
      U64RoundTrip(ts, EncodeU64(ts));
    case V2 =>
      if value.expireTs.Some? {
        var ts := value.expireTs.value;
        assert bytes[|u|..|bytes| - 1] == EncodeU64(ts);
        U64RoundTrip(ts, EncodeU64(ts));
      }
  }

  /** Whatever decodes successfully is the encoding of what it decodes to:
      no two byte strings decode to the same value. */
  lemma EncodeDecodeValue(v: ApiVersion, bytes: seq<Byte>)
    requires DecodeRawValue(v, bytes).Ok?
    ensures EncodeRawValue(v, DecodeRawValue(v, bytes).value) == bytes
  {
    match v
    case V1 =>
    case V1TTL => EncodeDecodeV1Ttl(bytes);
    case V2 => EncodeDecodeV2(bytes);
  }

  lemma EncodeDecodeV1Ttl(bytes: seq<Byte>)
    requires DecodeRawValue(V1TTL, bytes).Ok?
    ensures EncodeRawValue(V1TTL, DecodeRawValue(V1TTL, bytes).value) == bytes
  {
    var restLen := |bytes| - U64_SIZE;
    U64RoundTrip(0, bytes[restLen..]);
    assert bytes == bytes[..restLen] + bytes[restLen..];
  }

  lemma EncodeDecodeV2(bytes: seq<Byte>)
    requires DecodeRawValue(V2, bytes).Ok?
    ensures EncodeRawValue(V2, DecodeRawValue(V2, bytes).value) == bytes
  {
    var restLen := |bytes| - 1;
    assert bytes == bytes[..restLen] + [bytes[restLen]];
    if bytes[restLen] == 1 {
      var userLen := restLen - U64_SIZE;
      U64RoundTrip(0, bytes[userLen..restLen]);
      assert bytes[..restLen] == bytes[..userLen] + bytes[userLen..restLen];
    }
  }

  /** In V1TTL an expiry of 0 is indistinguishable from no expiry: both are
      stored as eight zero bytes and read back as "never expires". */
  lemma V1TtlZeroExpiryIsNoExpiry(u: seq<Byte>)
    ensures EncodeRawValue(V1TTL, RawValue(u, Some(0))) == u + [0, 0, 0, 0, 0, 0, 0, 0]
    ensures EncodeRawValue(V1TTL, RawValue(u, None)) == u + [0, 0, 0, 0, 0, 0, 0, 0]
    ensures DecodeRawValue(V1TTL, u + [0, 0, 0, 0, 0, 0, 0, 0]) == Ok(RawValue(u, None))
  {
    var zeros: seq<Byte> := [0, 0, 0, 0, 0, 0, 0, 0];
    assert EncodeU64(0) == zeros;
    DecodeEncodeValue(V1TTL, RawValue(u, None));
  }

  /** Exactly which inputs each version rejects. */
  lemma DecodeRawValueRejects(v: ApiVersion, bytes: seq<Byte>)
    ensures v == V1 ==> DecodeRawValue(v, bytes).Ok?
    ensures v == V1TTL ==> (DecodeRawValue(v, bytes) == Err(Truncated) <==> |bytes| < 8)
    ensures v == V1TTL ==> (DecodeRawValue(v, bytes).Ok? <==> |bytes| >= 8)
    ensures v == V2 && bytes == [] ==> DecodeRawValue(v, bytes) == Err(Truncated)
    ensures v == V2 && bytes != [] ==>
      (DecodeRawValue(v, bytes) == Err(UnsupportedFlags) <==> bytes[|bytes| - 1] > 1)
    ensures v == V2 && bytes != [] ==>
      (DecodeRawValue(v, bytes) == Err(Truncated) <==> bytes[|bytes| - 1] == 1 && |bytes| < 9)
    ensures v == V2 ==>
      (DecodeRawValue(v, bytes).Ok? <==>
        bytes != [] && (bytes[|bytes| - 1] == 0 || (bytes[|bytes| - 1] == 1 && |bytes| >= 9)))
  {
  }

  /** The layouts of `test_no_ttl`, for any user value: V1 stores it as it
      is, V1TTL adds eight zero bytes, V2 adds the flag byte 0; each decodes
      back to the value without expiry. */
  lemma NoTtlVectors(u: seq<Byte>)
    ensures EncodeRawValue(V1, RawValue(u, None)) == u
    ensures EncodeRawValue(V1TTL, RawValue(u, None)) == u + [0, 0, 0, 0, 0, 0, 0, 0]
    ensures EncodeRawValue(V2, RawValue(u, None)) == u + [0]
    ensures DecodeRawValue(V1, u) == Ok(RawValue(u, None))
    ensures DecodeRawValue(V1TTL, u + [0, 0, 0, 0, 0, 0, 0, 0]) == Ok(RawValue(u, None))
    ensures DecodeRawValue(V2, u + [0]) == Ok(RawValue(u, None))
  {
    SmallU64Encoding(0);
    DecodeEncodeValue(V1TTL, RawValue(u, None));
    DecodeEncodeValue(V2, RawValue(u, None));
  }

  /** The layouts of `test_ttl` (expiry 2), for any user value and any expiry
      that fits in the last byte: V1TTL adds seven zero bytes and the expiry,
      V2 adds the same and then the flag byte 1; each decodes back. */
  lemma TtlVectors(u: seq<Byte>, ts: U64)
    requires 0 < ts < 256
    ensures EncodeRawValue(V1TTL, RawValue(u, Some(ts))) == u + [0, 0, 0, 0, 0, 0, 0, ts]
    ensures EncodeRawValue(V2, RawValue(u, Some(ts))) == u + [0, 0, 0, 0, 0, 0, 0, ts, 1]
    ensures DecodeRawValue(V1TTL, u + [0, 0, 0, 0, 0, 0, 0, ts]) == Ok(RawValue(u, Some(ts)))
    ensures DecodeRawValue(V2, u + [0, 0, 0, 0, 0, 0, 0, ts, 1]) == Ok(RawValue(u, Some(ts)))
  {
    SmallU64Encoding(ts);
    DecodeEncodeValue(V1TTL, RawValue(u, Some(ts)));
    DecodeEncodeValue(V2, RawValue(u, Some(ts)));
  }

  /** The inputs `test_value_decode_err` expects to be rejected. */
  lemma ValueDecodeErrorVectors()
    ensures DecodeRawValue(V1TTL, []) == Err(Truncated)
    ensures DecodeRawValue(V1TTL, [1, 2, 3, 4, 5, 6, 7]) == Err(Truncated)
    ensures DecodeRawValue(V2, []) == Err(Truncated)
    ensures DecodeRawValue(V2, [1]) == Err(Truncated)
    ensures DecodeRawValue(V2, [1, 2, 3, 4, 5, 6, 7, 1]) == Err(Truncated)
    ensures DecodeRawValue(V2, [2]) == Err(UnsupportedFlags)
    ensures DecodeRawValue(V2, [1, 2, 3, 4, 5, 6, 7, 8, 2]) == Err(UnsupportedFlags)
  {
  }

  /** An owned, growable byte buffer (`Vec<u8>`): `buf[..len]` is the contents,
      the rest of `buf` is spare capacity. */
  class ByteVec {
    var buf: array<Byte>
    var len: nat

    ghost predicate Valid()
      reads this
    {
      len <= buf.Length
    }

    function Contents(): (s: seq<Byte>)
      reads this, buf
      requires Valid()
      ensures |s| == len
    {
      buf[..len]
    }

    constructor FromSeq(s: seq<Byte>)
      ensures Valid() && fresh(buf) && Contents() == s
    {
      buf := new Byte[|s|](i requires 0 <= i < |s| => s[i]);
      len := |s|;
    }

    /** `Vec::truncate`: keeps the first `n` bytes; the storage is not touched. */
    method Truncate(n: nat)
      requires Valid()
      modifies this`len
      ensures Valid()
      ensures Contents() == if n < old(len) then old(Contents())[..n] else old(Contents())
    {
      if n < len {
        len := n;
      }
    }

    /** `Vec::push`: appends one byte, moving to a larger buffer when full. */
    method Push(b: Byte)
      requires Valid()
      modifies this, buf
      ensures Valid() && (buf == old(buf) || fresh(buf))
      ensures Contents() == old(Contents()) + [b]
    {
      if len == buf.Length {
        var grown := new Byte[2 * buf.Length + 1];
        forall i | 0 <= i < len {
          grown[i] := buf[i];
        }
        buf := grown;
      }
      buf[len] := b;
      len := len + 1;
    }

    /** `Vec::extend_from_slice`. */
    method Extend(s: seq<Byte>)
      requires Valid()
      modifies this, buf
      ensures Valid() && (buf == old(buf) || fresh(buf))
      ensures Contents() == old(Contents()) + s
    {
      var i := 0;
      while i < |s|
        invariant 0 <= i <= |s|
        invariant Valid() && (buf == old(buf) || fresh(buf))
        invariant Contents() == old(Contents()) + s[..i]
      {
        Push(s[i]);
        assert s[..i + 1] == s[..i] + [s[i]];
        i := i + 1;
      }
    }
  }

  /** `decode_raw_value_owned`: decodes the buffer and, on success, truncates
      it in place to the user value, so the result is the borrowed decode
      without a copy. */
  method DecodeRawValueOwned(v: ApiVersion, bytes: ByteVec) returns (r: Result<RawValue>)
    requires bytes.Valid()
    modifies bytes`len
    ensures bytes.Valid()
    ensures r == DecodeRawValue(v, old(bytes.Contents()))
    ensures r.Ok? ==> bytes.Contents() == r.value.userValue
  {
    var decoded := DecodeRawValue(v, bytes.Contents());
    if decoded.Err? {
      return Err(decoded.error);
    }
    bytes.Truncate(|decoded.value.userValue|);
    r := Ok(RawValue(bytes.Contents(), decoded.value.expireTs));
  }

  /** `encode_raw_value_owned`: appends the version's suffix to the user
      value's own buffer instead of copying it into a new one. */
  method EncodeRawValueOwned(v: ApiVersion, userValue: ByteVec, expireTs: Option<U64>)
    requires userValue.Valid()
    requires IsTtlEnabled(v) || expireTs.None?
    modifies userValue, userValue.buf
    ensures userValue.Valid()
    ensures userValue.Contents() == EncodeRawValue(v, RawValue(old(userValue.Contents()), expireTs))
  {
    match v
    case V1 =>
    case V1TTL =>
      userValue.Extend(EncodeU64(if expireTs.Some? then expireTs.value else 0));
    case V2 =>
      if expireTs.Some? {
        userValue.Extend(EncodeU64(expireTs.value));
      }
      userValue.Push(if expireTs.Some? then EXPIRE_TS_FLAG else 0);
  }
}
