/** `parse_key_mode` and `parse_range_mode`: the logical namespace of a key
    or a key range, read from its first byte. Under V2 one sorted keyspace
    holds RawKV keys ('r'), transactional keys ('x') and TiDB keys ('t' for
    tables, 'm' for meta); V1 knows no namespaces and V1TTL holds only RawKV
    data. */
module KeyModes {
  import opened Bytes
  import opened Api
  import RawKeys

  datatype KeyMode = Raw | Txn | TiDB | Unknown

  const RAW_KEY_PREFIX: Byte := 0x72         // 'r'
  const TXN_KEY_PREFIX: Byte := 0x78         // 'x'
  const TIDB_META_KEY_PREFIX: Byte := 0x6D   // 'm'
  const TIDB_TABLE_KEY_PREFIX: Byte := 0x74  // 't'

  /** The mode a V2 key's first byte names. */
  function ModeOfPrefix(b: Byte): KeyMode {
    if b == RAW_KEY_PREFIX then Raw
    else if b == TXN_KEY_PREFIX then Txn
    else if b == TIDB_META_KEY_PREFIX || b == TIDB_TABLE_KEY_PREFIX then TiDB
    else Unknown
  }

  /** `parse_key_mode`. */
  function ParseKeyMode(v: ApiVersion, key: seq<Byte>): (m: KeyMode)
    ensures v == V1 ==> m == Unknown
    ensures v == V1TTL ==> m == Raw
    ensures v == V2 && key == [] ==> m == Unknown
  {
    match v
    case V1 => Unknown
    case V1TTL => Raw
    case V2 => if key == [] then Unknown else ModeOfPrefix(key[0])
  }

  /** Under V2, a range is classified only when both bounds are present and
      non-empty and the end either shares the start's first byte or is
      exactly the one byte that follows it (as in "r".."s"). */
  predicate V2SingleNamespace(start: seq<Byte>, end: seq<Byte>) {
    start != [] && end != []
    && (start[0] == end[0] || (|end| == 1 && end[0] as int == start[0] as int + 1))
  }

  /** `parse_range_mode` of the half-open range `[start, end)`, either bound
      possibly absent. */
  function ParseRangeMode(v: ApiVersion, start: Option<seq<Byte>>, end: Option<seq<Byte>>): (m: KeyMode)
    ensures v == V1 ==> m == Unknown
    ensures v == V1TTL ==> m == Raw
    ensures v == V2 && (start.None? || end.None?) ==> m == Unknown
  {
    match v
    case V1 => Unknown
    case V1TTL => Raw
    case V2 =>
      if start.Some? && end.Some? && V2SingleNamespace(start.value, end.value)
      then ParseKeyMode(V2, start.value)
      else Unknown
  }

  /** A key at or after a non-empty `start` begins with a byte at least
      `start[0]`. */
  lemma FirstByteAtLeast(start: seq<Byte>, k: seq<Byte>)
    requires start != [] && LexLessEq(start, k)
    ensures k != [] && start[0] <= k[0]
  {
    if k != start && !ProperPrefix(start, k) {
      var i: nat :| FirstDifferenceAt(start, k, i);
      if i > 0 {
        assert start[..i][0] == k[..i][0];
      }
    }
  }

  /** A non-empty key before `end` begins with a byte at most `end[0]`, and
      with `end[0]` itself only when `end` is longer than one byte. */
  lemma FirstByteBelow(k: seq<Byte>, end: seq<Byte>)
    requires k != [] && LexLess(k, end)
    ensures k[0] < end[0] || (k[0] == end[0] && |end| > 1)
  {
    if !ProperPrefix(k, end) {
      var i: nat :| FirstDifferenceAt(k, end, i);
      if i > 0 {
        assert k[..i][0] == end[..i][0];
      }
    } else {
      assert end[..|k|][0] == k[0];
    }
  }

  /** A range that V2 classifies holds keys of that mode only: every key in
      `[start, end)` parses to the range's mode. */
  lemma {:induction false} RangeModeCoversRange(start: seq<Byte>, end: seq<Byte>, k: seq<Byte>)
    requires ParseRangeMode(V2, Some(start), Some(end)) != Unknown
    requires LexLessEq(start, k) && LexLess(k, end)
    ensures ParseKeyMode(V2, k) == ParseRangeMode(V2, Some(start), Some(end))
  {
    FirstByteAtLeast(start, k);
    FirstByteBelow(k, end);
    assert k[0] == start[0];
  }

  /** Bounds in one namespace classify the range as that namespace, and the
      end bound agrees with the start bound. */
  lemma RangeModeOfOneNamespace(start: seq<Byte>, end: seq<Byte>)
    requires start != [] && end != [] && start[0] == end[0]
    ensures ParseRangeMode(V2, Some(start), Some(end)) == ParseKeyMode(V2, start)
    ensures ParseRangeMode(V2, Some(start), Some(end)) == ParseKeyMode(V2, end)
  {
  }

  /** The mode can be read from a user key or from its encoding alike. */
  lemma KeyModeOfEncodedKey(v: ApiVersion, key: seq<Byte>, ts: Option<U64>)
    ensures ParseKeyMode(v, RawKeys.EncodeRawKey(v, key, ts)) == ParseKeyMode(v, key)
  {
    if v == V2 {
      var e := RawKeys.EncodeBytes(key);
      RawKeys.EncodeBytesFirstGroup(key);
      assert e[0] == e[..RawKeys.ENC_GROUP_SIZE][0];
      assert RawKeys.EncodeRawKey(v, key, ts)[0] == e[0];
    }
  }

  /** The classifications of `test_parse`. */
  lemma KeyModeVectors()
    ensures ParseKeyMode(V1, [0x74, 0x5F, 0x61]) == Unknown           // "t_a"
    ensures ParseKeyMode(V1TTL, [0x6F, 0x74]) == Raw                  // "ot"
    ensures ParseKeyMode(V2, [RAW_KEY_PREFIX, 0x61, 0x62]) == Raw
    ensures ParseKeyMode(V2, [RAW_KEY_PREFIX]) == Raw
    ensures ParseKeyMode(V2, [TXN_KEY_PREFIX]) == Txn
    ensures ParseKeyMode(V2, [0x74, 0x5F, 0x61]) == TiDB              // "t_a"
    ensures ParseKeyMode(V2, [0x6D]) == TiDB                          // "m"
    ensures ParseKeyMode(V2, [0x6F, 0x74]) == Unknown                 // "ot"
  {
  }

  /** The classifications of `test_parse_range`. */
  lemma RangeModeVectors()
    ensures ParseRangeMode(V1, None, None) == Unknown
    ensures ParseRangeMode(V1, Some([0x78]), None) == Unknown                                // "x"..
    ensures ParseRangeMode(V1TTL, Some([0x6D, 0x5F, 0x61]), Some([0x6E, 0x61])) == Raw        // "m_a".."na"
    ensures ParseRangeMode(V2, Some([0x74, 0x5F, 0x61]), Some([0x74, 0x5F, 0x7A])) == TiDB   // "t_a".."t_z"
    ensures ParseRangeMode(V2, Some([0x74]), Some([0x75])) == TiDB                           // "t".."u"
    ensures ParseRangeMode(V2, Some([0x6D]), Some([0x6E])) == TiDB                           // "m".."n"
    ensures ParseRangeMode(V2, Some([0x6D, 0x5F, 0x61]), Some([0x6D, 0x5F, 0x7A])) == TiDB   // "m_a".."m_z"
    ensures ParseRangeMode(V2, Some([0x78, 0, 0x61]), Some([0x78, 0, 0x7A])) == Txn          // "x\0a".."x\0z"
    ensures ParseRangeMode(V2, Some([0x78]), Some([0x79])) == Txn                            // "x".."y"
    ensures ParseRangeMode(V2, Some([0x72, 0, 0x61]), Some([0x72, 0, 0x7A])) == Raw          // "r\0a".."r\0z"
    ensures ParseRangeMode(V2, Some([0x72]), Some([0x73])) == Raw                            // "r".."s"
    ensures ParseRangeMode(V2, Some([0x74, 0x5F, 0x61]), Some([0x75, 0x61])) == Unknown      // "t_a".."ua"
    ensures ParseRangeMode(V2, Some([0x74]), None) == Unknown
    ensures ParseRangeMode(V2, None, Some([0x74, 0x5F, 0x7A])) == Unknown
    ensures ParseRangeMode(V2, Some([0x6D, 0x5F, 0x61]), Some([0x6E, 0x61])) == Unknown      // "m_a".."na"
    ensures ParseRangeMode(V2, Some([0x6D]), None) == Unknown
    ensures ParseRangeMode(V2, None, Some([0x6D, 0x5F, 0x7A])) == Unknown
    ensures ParseRangeMode(V2, Some([0x78, 0, 0x61]), Some([0x79, 0x61])) == Unknown         // "x\0a".."ya"
    ensures ParseRangeMode(V2, Some([0x78]), None) == Unknown
    ensures ParseRangeMode(V2, None, Some([0x78, 0, 0x7A])) == Unknown
    ensures ParseRangeMode(V2, Some([0x72, 0, 0x61]), Some([0x73, 0x61])) == Unknown         // "r\0a".."sa"
    ensures ParseRangeMode(V2, Some([0x72]), None) == Unknown
    ensures ParseRangeMode(V2, None, Some([0x72, 0, 0x7A])) == Unknown
  {
  }
}
