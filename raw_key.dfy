/** The RawKV key codec. V1 and V1TTL store the user key as it is and drop the
    timestamp; V2 stores the memcomparable encoding of the user key followed,
    when there is one, by the timestamp in descending order:

      key in 8-byte groups; each full non-final group is followed by 0xFF;
      the final group is zero-padded to 8 bytes and followed by 0xFF - pad
      (pad is 8 when the key length is a multiple of 8, including 0);
      then, optionally, the big-endian bytes of u64::MAX - ts. */
module RawKeys {
  import opened Bytes
  import opened Api

  const ENC_GROUP_SIZE: nat := 8
  const ENC_MARKER: Byte := 0xFF

  function Zeros(n: nat): (r: seq<Byte>)
    ensures |r| == n && forall i :: 0 <= i < n ==> r[i] == 0
  {
    seq(n, _ => 0)
  }

  predicate AllZero(s: seq<Byte>) {
    forall i :: 0 <= i < |s| ==> s[i] == 0
  }

  /** `codec::bytes::encode_bytes`, the memcomparable group encoding. */
  function EncodeBytes(key: seq<Byte>): (r: seq<Byte>)
    ensures |r| > |key| && |r| > ENC_GROUP_SIZE
    decreases |key|
  {
    if |key| >= ENC_GROUP_SIZE then
      key[..ENC_GROUP_SIZE] + [ENC_MARKER] + EncodeBytes(key[ENC_GROUP_SIZE..])
    else
      var pad := ENC_GROUP_SIZE - |key|;
      key + Zeros(pad) + [ENC_MARKER - pad]
  }

  /** A key of length n takes n div 8 + 1 groups of 9 bytes. */
  lemma {:induction false} EncodeBytesLength(key: seq<Byte>)
    ensures |EncodeBytes(key)| == (|key| / ENC_GROUP_SIZE + 1) * (ENC_GROUP_SIZE + 1)
    decreases |key|
  {
    if |key| >= ENC_GROUP_SIZE {
      EncodeBytesLength(key[ENC_GROUP_SIZE..]);
      assert |key[ENC_GROUP_SIZE..]| / ENC_GROUP_SIZE == |key| / ENC_GROUP_SIZE - 1;
    }
  }

  /** `codec::bytes::decode_bytes`: reads 9-byte chunks until a terminal
      marker and returns the key together with the bytes after it. */
  function DecodeBytes(s: seq<Byte>): (r: Result<(seq<Byte>, seq<Byte>)>)
    ensures r.Ok? ==> |r.value.1| < |s| && r.value.1 == s[|s| - |r.value.1|..]
    decreases |s|
  {
    if |s| < ENC_GROUP_SIZE + 1 then Err(Truncated)
    else
      var group, marker := s[..ENC_GROUP_SIZE], s[ENC_GROUP_SIZE];
      var pad := ENC_MARKER - marker;
      if pad == 0 then
        match DecodeBytes(s[ENC_GROUP_SIZE + 1..])
        case Ok((tail, rest)) => Ok((group + tail, rest))
        case Err(e) => Err(e)
      else if pad > ENC_GROUP_SIZE then Err(InvalidMarker)
      else if !AllZero(group[ENC_GROUP_SIZE - pad..]) then Err(InvalidPadding)
      else Ok((group[..ENC_GROUP_SIZE - pad], s[ENC_GROUP_SIZE + 1..]))
  }

  /** Decoding the group encoding gives back the key and leaves whatever
      followed it untouched. */
  lemma {:induction false} DecodeEncodeBytes(key: seq<Byte>, rest: seq<Byte>)
    ensures DecodeBytes(EncodeBytes(key) + rest) == Ok((key, rest))
    decreases |key|
  {
    var s := EncodeBytes(key) + rest;
    if |key| >= ENC_GROUP_SIZE {
      var tail := key[ENC_GROUP_SIZE..];
      assert s[..ENC_GROUP_SIZE] == key[..ENC_GROUP_SIZE];
      assert s[ENC_GROUP_SIZE] == ENC_MARKER;
      assert s[ENC_GROUP_SIZE + 1..] == EncodeBytes(tail) + rest;
      DecodeEncodeBytes(tail, rest);
      assert key[..ENC_GROUP_SIZE] + tail == key;
    } else {
      var pad := ENC_GROUP_SIZE - |key|;
      var group := s[..ENC_GROUP_SIZE];
      assert group == key + Zeros(pad);
      assert s[ENC_GROUP_SIZE] == ENC_MARKER - pad;
      assert group[ENC_GROUP_SIZE - pad..] == Zeros(pad);
      assert s[ENC_GROUP_SIZE + 1..] == rest;
    }
  }

  /** Whatever decodes is a group encoding followed by the rest: the encoding
      is the only spelling of a key that the decoder accepts. */
  lemma {:induction false} EncodeDecodeBytes(s: seq<Byte>)
    requires DecodeBytes(s).Ok?
    ensures s == EncodeBytes(DecodeBytes(s).value.0) + DecodeBytes(s).value.1
    decreases |s|
  {
    var group, marker := s[..ENC_GROUP_SIZE], s[ENC_GROUP_SIZE];
    var pad := ENC_MARKER - marker;
    var (key, rest) := DecodeBytes(s).value;
    assert s == group + [marker] + s[ENC_GROUP_SIZE + 1..];
    if pad == 0 {
      var s' := s[ENC_GROUP_SIZE + 1..];
      var (tail, rest') := DecodeBytes(s').value;
      assert key == group + tail && rest == rest';
      EncodeDecodeBytes(s');
      assert key[..ENC_GROUP_SIZE] == group && key[ENC_GROUP_SIZE..] == tail;
      assert EncodeBytes(key) == group + [ENC_MARKER] + EncodeBytes(tail);
    } else {
      assert key == group[..ENC_GROUP_SIZE - pad] && rest == s[ENC_GROUP_SIZE + 1..];
      assert group[ENC_GROUP_SIZE - pad..] == Zeros(pad);
      assert group == key + Zeros(pad);
    }
  }

  /** `append_ts`: the timestamp stored as u64::MAX - ts, so that a later
      version of a key sorts before an earlier one. */
  function EncodeTs(ts: U64): (r: seq<Byte>)
    ensures |r| == U64_SIZE
    ensures DecodeU64(r) == U64_MAX - ts
  {
    U64RoundTrip(U64_MAX - ts, EncodeU64(U64_MAX - ts));
    EncodeU64(U64_MAX - ts)
  }

  function DecodeTs(s: seq<Byte>): (r: U64)
    requires |s| == U64_SIZE
    ensures EncodeTs(r) == s
  {
    U64RoundTrip(0, s);
    U64_MAX - DecodeU64(s)
  }

  /** A timestamp below 256 is stored as seven 0xFF bytes and then 0xFF - ts. */
  lemma SmallTsEncoding(ts: U64)
    requires ts < 256
    ensures EncodeTs(ts) == [0xFF, 0xFF, 0xFF, 0xFF, 0xFF, 0xFF, 0xFF, 0xFF - ts]
  {
    var n := U64_MAX - ts;
    assert n / 256 == Pow256(7) - 1 && n % 256 == 0xFF - ts;
    BigEndianAllOnes(7);
  }

  lemma TsRoundTrip(ts: U64, s: seq<Byte>)
    requires |s| == U64_SIZE
    ensures DecodeTs(EncodeTs(ts)) == ts
    ensures EncodeTs(DecodeTs(s)) == s
  {
    U64RoundTrip(U64_MAX - ts, s);
  }

  /** The key codec that V1 and V1TTL share: the key is stored verbatim and a
      timestamp is neither stored nor recovered. */
  function IdentityEncodeKey(userKey: seq<Byte>, ts: Option<U64>): (r: seq<Byte>)
    ensures r == userKey
  {
    userKey
  }

  /** Every byte string decodes, without a timestamp, to the key whose
      encoding it is. */
  function IdentityDecodeKey(encodedKey: seq<Byte>, withTs: bool): (r: Result<(seq<Byte>, Option<U64>)>)
    ensures r.Ok? && r.value.1.None?
    ensures IdentityEncodeKey(r.value.0, None) == encodedKey
  {
    Ok((encodedKey, None))
  }

  /** `encode_raw_key`. */
  function EncodeRawKey(v: ApiVersion, userKey: seq<Byte>, ts: Option<U64>): (r: seq<Byte>)
    ensures v != V2 ==> r == userKey
    ensures v == V2 ==> |r| > |userKey|
    ensures v == V2 ==> |r| == |EncodeBytes(userKey)| + if ts.Some? then U64_SIZE else 0
    ensures v == V2 ==> r[..|EncodeBytes(userKey)|] == EncodeBytes(userKey)
  {
    match v
    case V1 | V1TTL => IdentityEncodeKey(userKey, ts)
    case V2 => EncodeBytes(userKey) + (if ts.Some? then EncodeTs(ts.value) else [])
  }

  /** `decode_raw_key`: under V2, the groups, then exactly 8 timestamp bytes
      when `withTs` and nothing at all otherwise. */
  function DecodeRawKey(v: ApiVersion, encodedKey: seq<Byte>, withTs: bool): (r: Result<(seq<Byte>, Option<U64>)>)
    ensures r.Ok? ==> (r.value.1.Some? <==> v == V2 && withTs)
    ensures r.Ok? ==> |r.value.0| <= |encodedKey|
  {
    match v
    case V1 | V1TTL => IdentityDecodeKey(encodedKey, withTs)
    case V2 =>
      match DecodeBytes(encodedKey)
      case Err(e) => Err(e)
      case Ok((userKey, rest)) =>
        assert |EncodeBytes(userKey)| <= |encodedKey| by { EncodeDecodeBytes(encodedKey); }
        if !withTs then
          if rest == [] then Ok((userKey, None)) else Err(TrailingData)
        else if |rest| < U64_SIZE then Err(Truncated)
        else if |rest| > U64_SIZE then Err(TrailingData)
        else Ok((userKey, Some(DecodeTs(rest))))
  }

  /** Decoding recovers the user key under every version, and the timestamp
      under V2; V1 and V1TTL never give one back. */
  lemma DecodeEncodeKey(v: ApiVersion, userKey: seq<Byte>, ts: Option<U64>, withTs: bool)
    requires v == V2 ==> withTs == ts.Some?
    ensures DecodeRawKey(v, EncodeRawKey(v, userKey, ts), withTs)
         == Ok((userKey, if v == V2 then ts else None))
  {
    if v == V2 {
      var suffix := if ts.Some? then EncodeTs(ts.value) else [];
      DecodeEncodeBytes(userKey, suffix);
      if ts.Some? {
        TsRoundTrip(ts.value, suffix);
      }
    }
  }

  /** Every key V2 accepts is the encoding of what it decodes to. */
  lemma EncodeDecodeKey(encodedKey: seq<Byte>, withTs: bool)
    requires DecodeRawKey(V2, encodedKey, withTs).Ok?
    ensures var (userKey, ts) := DecodeRawKey(V2, encodedKey, withTs).value;
            EncodeRawKey(V2, userKey, ts) == encodedKey
  {
    EncodeDecodeBytes(encodedKey);
    var rest := DecodeBytes(encodedKey).value.1;
    if withTs {
      TsRoundTrip(0, rest);
    }
  }

  /** Exactly which inputs V2 rejects: anything that is not a group encoding
      followed by 8 timestamp bytes (when `withTs`) or by nothing. */
  lemma V2DecodeRejects(encodedKey: seq<Byte>, withTs: bool)
    ensures DecodeRawKey(V2, encodedKey, withTs).Err? <==>
      forall userKey: seq<Byte>, ts: Option<U64> | ts.Some? == withTs ::
        EncodeRawKey(V2, userKey, ts) != encodedKey
  {
    if DecodeRawKey(V2, encodedKey, withTs).Ok? {
      EncodeDecodeKey(encodedKey, withTs);
    } else {
      forall userKey: seq<Byte>, ts: Option<U64> | ts.Some? == withTs
        ensures EncodeRawKey(V2, userKey, ts) != encodedKey
      {
        DecodeEncodeKey(V2, userKey, ts, withTs);
      }
    }
  }

  /** `test_raw_key` under V1 and V1TTL, for every key and timestamp: the
      key is stored as it is, and decoding returns it with no timestamp
      whatever `withTs` says. */
  lemma IdentityKeys(v: ApiVersion, key: seq<Byte>, ts: Option<U64>, withTs: bool)
    requires v != V2
    ensures EncodeRawKey(v, key, ts) == key
    ensures DecodeRawKey(v, key, withTs) == Ok((key, None))
  {
  }

  /** A one-byte key fills one group: the byte, seven zero bytes of padding
      and the marker 0xFF - 7. */
  lemma OneByteKeyEncoding(c: Byte)
    ensures EncodeBytes([c]) == [c, 0, 0, 0, 0, 0, 0, 0, 0xF8]
  {
    assert Zeros(7) == [0, 0, 0, 0, 0, 0, 0];
  }

  /** `test_raw_key` under V2 for the key "r", without and with timestamp 2. */
  lemma V2ShortKeyVectors()
    ensures EncodeRawKey(V2, ['r' as Byte], None) == [0x72, 0, 0, 0, 0, 0, 0, 0, 0xF8]
    ensures EncodeRawKey(V2, ['r' as Byte], Some(2))
         == [0x72, 0, 0, 0, 0, 0, 0, 0, 0xF8] + [0xFF, 0xFF, 0xFF, 0xFF, 0xFF, 0xFF, 0xFF, 0xFD]
  {
    OneByteKeyEncoding('r' as Byte);
    SmallTsEncoding(2);
  }

  /** ... and those bytes decode back to "r", with timestamp 2 when asked. */
  lemma V2ShortKeyVectorsDecode()
    ensures DecodeRawKey(V2, [0x72, 0, 0, 0, 0, 0, 0, 0, 0xF8], false) == Ok((['r' as Byte], None))
    ensures DecodeRawKey(V2, [0x72, 0, 0, 0, 0, 0, 0, 0, 0xF8] + [0xFF, 0xFF, 0xFF, 0xFF, 0xFF, 0xFF, 0xFF, 0xFD], true)
         == Ok((['r' as Byte], Some(2)))
  {
    V2ShortKeyVectors();
    DecodeEncodeKey(V2, ['r' as Byte], None, false);
    DecodeEncodeKey(V2, ['r' as Byte], Some(2), true);
  }

  /** `test_raw_key` under V2: the ten-byte key "r234567890" with timestamp
      3 takes two groups and the timestamp. */
  lemma V2LongKeyVector()
    ensures EncodeRawKey(V2, [0x72, 0x32, 0x33, 0x34, 0x35, 0x36, 0x37, 0x38, 0x39, 0x30], Some(3))
         == [0x72, 0x32, 0x33, 0x34, 0x35, 0x36, 0x37, 0x38, 0xFF]
            + [0x39, 0x30, 0, 0, 0, 0, 0, 0, 0xF9]
            + [0xFF, 0xFF, 0xFF, 0xFF, 0xFF, 0xFF, 0xFF, 0xFC]
  {
    var k: seq<Byte> := [0x72, 0x32, 0x33, 0x34, 0x35, 0x36, 0x37, 0x38, 0x39, 0x30];
    var first: seq<Byte> := [0x72, 0x32, 0x33, 0x34, 0x35, 0x36, 0x37, 0x38];
    var last: seq<Byte> := [0x39, 0x30];
    assert k[..ENC_GROUP_SIZE] == first && k[ENC_GROUP_SIZE..] == last;
    assert EncodeBytes(last) == [0x39, 0x30, 0, 0, 0, 0, 0, 0, 0xF9];
    SmallTsEncoding(3);
  }

  /** ... and those bytes decode back to the key and timestamp 3. */
  lemma V2LongKeyVectorDecodes()
    ensures DecodeRawKey(V2, [0x72, 0x32, 0x33, 0x34, 0x35, 0x36, 0x37, 0x38, 0xFF]
                             + [0x39, 0x30, 0, 0, 0, 0, 0, 0, 0xF9]
                             + [0xFF, 0xFF, 0xFF, 0xFF, 0xFF, 0xFF, 0xFF, 0xFC], true)
         == Ok(([0x72, 0x32, 0x33, 0x34, 0x35, 0x36, 0x37, 0x38, 0x39, 0x30], Some(3)))
  {
    V2LongKeyVector();
    DecodeEncodeKey(V2, [0x72, 0x32, 0x33, 0x34, 0x35, 0x36, 0x37, 0x38, 0x39, 0x30], Some(3), true);
  }

  /** `test_v2_key_decode_err`: chunks cut short, a marker declaring more than
      8 padding bytes, and timestamp bytes missing or left over. */
  lemma V2KeyDecodeErrorVectors()
    ensures DecodeRawKey(V2, [1, 2, 3, 4, 5, 6, 7, 8, 9], false) == Err(InvalidMarker)
    ensures DecodeRawKey(V2, [0x72, 2, 3, 4, 5, 6, 7, 8], false) == Err(Truncated)
    ensures DecodeRawKey(V2, [0x72, 2, 3, 4, 5, 6, 7, 8, 9, 10], false) == Err(InvalidMarker)
    ensures DecodeRawKey(V2, [0x72, 2, 3, 4, 5, 6, 7, 8, 9, 10, 11, 12], true) == Err(InvalidMarker)
    ensures DecodeRawKey(V2, [0x72, 2, 3, 4, 5, 6, 7, 8, 0xF6], false) == Err(InvalidMarker)
  {
  }

  /** Decoding steps over a full group and its 0xFF marker. */
  lemma DecodeFullGroup(head: seq<Byte>, s: seq<Byte>)
    requires |head| == ENC_GROUP_SIZE + 1 && head[ENC_GROUP_SIZE] == ENC_MARKER
    ensures DecodeBytes(head + s)
         == match DecodeBytes(s)
            case Ok((tail, rest)) => Ok((head[..ENC_GROUP_SIZE] + tail, rest))
            case Err(e) => Err(e)
  {
    var e := head + s;
    assert e[..ENC_GROUP_SIZE] == head[..ENC_GROUP_SIZE] && e[ENC_GROUP_SIZE] == ENC_MARKER;
    assert e[ENC_GROUP_SIZE + 1..] == s;
  }

  /** The terminal group `1 2 3 4 0 0 0 0 0xFB` of the two inputs below. */
  lemma DecodeFourBytesThen(rest: seq<Byte>)
    ensures DecodeBytes([1, 2, 3, 4, 0, 0, 0, 0, 0xFB] + rest) == Ok(([1, 2, 3, 4], rest))
  {
    var s: seq<Byte> := [1, 2, 3, 4, 0, 0, 0, 0, 0xFB] + rest;
    assert s[..8] == [1, 2, 3, 4, 0, 0, 0, 0] && s[8] == 0xFB && s[9..] == rest;
    assert AllZero(s[..8][4..]) by { assert s[..8][4..] == [0, 0, 0, 0]; }
    assert s[..8][..4] == [1, 2, 3, 4];
  }

  /** `test_v2_key_decode_err`: a full group, a group with four padding bytes,
      then one byte where 8 timestamp bytes belong. */
  lemma V2KeyDecodeMissingTimestampVector()
    ensures DecodeRawKey(V2, [0x72, 2, 3, 4, 5, 6, 7, 8, 0xFF]
                             + ([1, 2, 3, 4, 0, 0, 0, 0, 0xFB] + [0]), true)
         == Err(Truncated)
  {
    DecodeFourBytesThen([0]);
    DecodeFullGroup([0x72, 2, 3, 4, 5, 6, 7, 8, 0xFF], [1, 2, 3, 4, 0, 0, 0, 0, 0xFB] + [0]);
  }

  /** `test_v2_key_decode_err`: the same two groups followed by nine bytes,
      one more than a timestamp. */
  lemma V2KeyDecodeExtraTimestampByteVector()
    ensures DecodeRawKey(V2, [0x72, 2, 3, 4, 5, 6, 7, 8, 0xFF]
                             + ([1, 2, 3, 4, 0, 0, 0, 0, 0xFB] + [0, 0, 0, 0, 0, 0, 0, 1, 0]), true)
         == Err(TrailingData)
  {
    DecodeFourBytesThen([0, 0, 0, 0, 0, 0, 0, 1, 0]);
    DecodeFullGroup([0x72, 2, 3, 4, 5, 6, 7, 8, 0xFF], [1, 2, 3, 4, 0, 0, 0, 0, 0xFB] + [0, 0, 0, 0, 0, 0, 0, 1, 0]);
  }

  /** `test_v2_key_decode_err`: a non-zero byte inside the declared padding. */
  lemma V2KeyDecodePaddingErrorVector()
    ensures DecodeRawKey(V2, [0x72, 2, 3, 4, 0, 0, 1, 0, 0xFB], false) == Err(InvalidPadding)
  {
    var p: seq<Byte> := [0x72, 2, 3, 4, 0, 0, 1, 0, 0xFB];
    assert p[..ENC_GROUP_SIZE][ENC_GROUP_SIZE - 4..][2] == 1;
  }

  /** The group encoding of a key begins with the key's first group. */
  lemma EncodeBytesFirstGroup(key: seq<Byte>)
    ensures EncodeBytes(key)[..ENC_GROUP_SIZE]
         == if |key| >= ENC_GROUP_SIZE then key[..ENC_GROUP_SIZE]
            else key + Zeros(ENC_GROUP_SIZE - |key|)
    ensures EncodeBytes(key)[ENC_GROUP_SIZE]
         == if |key| >= ENC_GROUP_SIZE then ENC_MARKER else ENC_MARKER - (ENC_GROUP_SIZE - |key|)
  {
  }

  /** The least index at or after `from` that holds a non-zero byte, or `|s|`. */
  ghost function FirstNonZero(s: seq<Byte>, from: nat): (k: nat)
    requires from <= |s|
    ensures from <= k <= |s|
    ensures forall j :: from <= j < k ==> s[j] == 0
    ensures k < |s| ==> s[k] != 0
    decreases |s| - from
  {
    if from == |s| || s[from] != 0 then from else FirstNonZero(s, from + 1)
  }

  /** A key that ends inside its first group sorts before every key it is a
      proper prefix of, and so does its encoding: the other first group is
      larger from the first non-zero byte on, or the two first groups are
      equal and the other marker is larger. */
  lemma ShortPrefixOrderAt(a: seq<Byte>, b: seq<Byte>) returns (j: nat)
    requires ProperPrefix(a, b) && |a| < ENC_GROUP_SIZE
    ensures FirstDifferenceAt(EncodeBytes(a), EncodeBytes(b), j)
  {
    var n := ENC_GROUP_SIZE;
    var ea, eb := EncodeBytes(a), EncodeBytes(b);
    EncodeBytesFirstGroup(a);
    EncodeBytesFirstGroup(b);
    var ga, gb := ea[..n], eb[..n];
    assert ga[..|a|] == a == b[..|a|] == gb[..|a|];
    var k := FirstNonZero(gb, |a|);
    if k < n {
      assert ga[..k] == gb[..k];
      assert ea[..k] == ga[..k] && eb[..k] == gb[..k];
      return k;
    }
    assert ga == gb;
    assert ea[..n] == eb[..n];
    return n;
  }

  /** Keys sharing a full first group have encodings that share it and its
      marker, so a difference between the rests moves right by 9. */
  lemma SharedGroupShifts(a: seq<Byte>, b: seq<Byte>, j': nat) returns (j: nat)
    requires |a| >= ENC_GROUP_SIZE && |b| >= ENC_GROUP_SIZE
    requires a[..ENC_GROUP_SIZE] == b[..ENC_GROUP_SIZE]
    requires FirstDifferenceAt(EncodeBytes(a[ENC_GROUP_SIZE..]), EncodeBytes(b[ENC_GROUP_SIZE..]), j')
    ensures FirstDifferenceAt(EncodeBytes(a), EncodeBytes(b), j)
  {
    var n := ENC_GROUP_SIZE;
    var p := a[..n] + [ENC_MARKER];
    assert EncodeBytes(a) == p + EncodeBytes(a[n..]);
    assert EncodeBytes(b) == p + EncodeBytes(b[n..]);
    DifferenceShifts(p, EncodeBytes(a[n..]), EncodeBytes(b[n..]), j');
    j := |p| + j';
  }

  /** The group encoding is order-preserving ("memcomparable"), and never
      makes one encoding a prefix of another: the two differ at a position
      inside both. */
  lemma {:induction false} EncodeBytesOrderAt(a: seq<Byte>, b: seq<Byte>) returns (j: nat)
    requires LexLess(a, b)
    ensures FirstDifferenceAt(EncodeBytes(a), EncodeBytes(b), j)
    decreases |a|
  {
    var n := ENC_GROUP_SIZE;
    if i: nat :| FirstDifferenceAt(a, b, i) {
      if i < n {
        // The first difference lies in the first group, which both encodings copy.
        var ea, eb := EncodeBytes(a), EncodeBytes(b);
        EncodeBytesFirstGroup(a);
        EncodeBytesFirstGroup(b);
        assert ea[..i] == ea[..n][..i] == a[..i];
        assert eb[..i] == eb[..n][..i] == b[..i];
        return i;
      }
      assert a[..n] == a[..i][..n] == b[..i][..n] == b[..n];
      assert FirstDifferenceAt(a[n..], b[n..], i - n) by {
        assert a[n..][..i - n] == a[n..i] && b[n..][..i - n] == b[n..i];
      }
    } else {
      assert ProperPrefix(a, b);
      if |a| < n {
        j := ShortPrefixOrderAt(a, b);
        return;
      }
      assert a[..n] == b[..|a|][..n] == b[..n];
      assert ProperPrefix(a[n..], b[n..]) by {
        assert b[n..][..|a| - n] == b[n..|a|];
      }
    }
    var j' := EncodeBytesOrderAt(a[n..], b[n..]);
    j := SharedGroupShifts(a, b, j');
  }

  /** V2 keys sort by user key first, ascending, whatever their timestamps. */
  lemma V2KeyOrder(a: seq<Byte>, b: seq<Byte>, ta: Option<U64>, tb: Option<U64>)
    requires LexLess(a, b)
    ensures exists j :: FirstDifferenceAt(EncodeRawKey(V2, a, ta), EncodeRawKey(V2, b, tb), j)
    ensures LexLess(EncodeRawKey(V2, a, ta), EncodeRawKey(V2, b, tb))
  {
    var j := EncodeBytesOrderAt(a, b);
    DifferenceExtends(EncodeBytes(a), EncodeBytes(b),
      if ta.Some? then EncodeTs(ta.value) else [],
      if tb.Some? then EncodeTs(tb.value) else [], j);
    assert FirstDifferenceAt(EncodeRawKey(V2, a, ta), EncodeRawKey(V2, b, tb), j);
  }

  /** Versions of one V2 key sort newest first: a larger timestamp sorts
      before a smaller one, and the key without a timestamp before both. */
  lemma V2TimestampOrder(key: seq<Byte>, t1: U64, t2: U64)
    ensures t1 > t2 ==> LexLess(EncodeRawKey(V2, key, Some(t1)), EncodeRawKey(V2, key, Some(t2)))
    ensures LexLess(EncodeRawKey(V2, key, None), EncodeRawKey(V2, key, Some(t1)))
  {
    var e := EncodeBytes(key);
    if t1 > t2 {
      assert Pow256(8) == U64_MAX + 1;
      var i := BigEndianOrderAt(U64_MAX - t1, U64_MAX - t2, U64_SIZE);
      DifferenceShifts(e, EncodeTs(t1), EncodeTs(t2), i);
    }
    assert (e + EncodeTs(t1))[..|e|] == e;
  }
}
