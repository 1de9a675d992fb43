# TiKV raw key/value codec (`api_version`), modelled in Dafny

TiKV's `APIVersion` trait puts one key layout and one value layout behind a
version tag (V1, V1TTL or V2) that a store fixes for its lifetime. This
project models that codec for all three versions:

- **Value codec** (`raw_value.dfy`, module `RawValues`). A `RawValue` is a
  user value and an optional expiry second.
  - V1 stores the user value as it is.
  - V1TTL appends the expiry as 8 big-endian bytes, where 0 means "no expiry".
  - V2 appends the 8 expiry bytes only when there is an expiry, then one
    meta-flag byte whose least significant bit says whether they are there.
  - Decoding returns a `Result`. The owned decode (`decode_raw_value_owned`)
    is a method on a growable byte buffer (`ByteVec`, standing for `Vec<u8>`).
    It truncates the buffer in place. The owned encode appends to the
    buffer in place.
- **Key codec** (`raw_key.dfy`, module `RawKeys`). V1 and V1TTL share one
  identity codec, which drops the timestamp. V2 stores the memcomparable
  group encoding of the key: 8-byte groups, each followed by a marker.
  When there is a timestamp, V2 then appends `u64::MAX - ts` big-endian.
  Decoding rejects five kinds of input:
  - truncated chunks;
  - markers that declare more than 8 padding bytes;
  - non-zero padding;
  - missing timestamp bytes;
  - trailing bytes.
- **Key-mode classifier** (`key_mode.dfy`, module `KeyModes`).
  `parse_key_mode` and `parse_range_mode` map a key or range to
  `Raw | Txn | TiDB | Unknown`.
- **Version tag** (`api_version.dfy`, module `Api`). It holds the `ApiVersion`
  datatype, `IS_TTL_ENABLED`, the `Option` and `Result` types, and the error
  kinds.
- **Bytes** (`bytes.dfy`). It defines bytes, `u64`, big-endian conversion and
  the unsigned lexicographic order in which the store sorts keys.

The main results are these:
- Values:
  - Decoding inverts encoding for every version, and the reverse holds too:
    every accepted byte string is the encoding of what it decodes to.
  - The owned decode equals the borrowed one, and it leaves the buffer
    holding exactly the user value.
- Keys:
  - Key decoding inverts key encoding. V2 accepts exactly the encodings.
  - V2 keys sort by user key ascending, then by timestamp descending. No
    encoded key is a prefix of another key's encoding.
- Key modes:
  - A range that V2 classifies holds only keys of that mode.
  - A key and its encoding have the same mode.
- Every literal test vector of the source file is proved.

The model makes three choices that the unit tests settle:
- V1TTL classifies every key and range as `Raw` (lib.rs:162, 182).
- V2 classifies a key by its first byte alone, so `"t_a"` is `TiDB`
  (lib.rs:169).
- V2 rejects bytes left after the 8 timestamp bytes (lib.rs:458-464).

## Model

| member | source | states |
|---|---|---|
| `RawValues.ValueSuffix` | components/api_version/src/lib.rs:104-145 | what follows the user value: nothing (V1); the expiry's 8 big-endian bytes, or 8 zero bytes for none (V1TTL); under V2 the 8 expiry bytes only when there is an expiry, and last the flag byte, 1 with an expiry and 0 without |
| `RawValues.EncodeRawValue` | components/api_version/src/lib.rs:38-39 | the user value is the leading part of the encoding; V1 cannot take an expiry (a requires) |
| `RawValues.DecodeRawValue` | components/api_version/src/lib.rs:23-24 | a successful decode returns a prefix of the input as user value (lib.rs:31), and V1 never returns an expiry |
| `RawValues.DecodeEncodeValue` | components/api_version/src/lib.rs:351-383 | `decode(encode(v)) == Ok(v)` for every version and every value the version can represent |
| `RawValues.EncodeDecodeValue` | components/api_version/src/lib.rs:104-145 | every byte string that decodes is the encoding of its decoded value, so the layouts have no second spelling |
| `RawValues.V1TtlZeroExpiryIsNoExpiry` | components/api_version/src/lib.rs:267-288 | under V1TTL, expiry 0 and no expiry both encode as 8 zero bytes, which decode as no expiry |
| `RawValues.DecodeRawValueRejects` | components/api_version/src/lib.rs:321-349 | the exact reject sets: V1 never; V1TTL below 8 bytes; V2 empty input, a reserved flag bit, or the expiry bit with fewer than 8 bytes before the flag |
| `RawValues.NoTtlVectors` | components/api_version/src/lib.rs:267-288 | the layouts of `test_no_ttl` for any user value (so also `""` and `"a"`): V1 verbatim, V1TTL plus eight zero bytes, V2 plus flag 0; each decodes back without expiry |
| `RawValues.TtlVectors` | components/api_version/src/lib.rs:290-319 | the layouts of `test_ttl` for any user value and any expiry from 1 to 255 (so also 2): V1TTL plus `0 0 0 0 0 0 0 ts`, V2 the same plus flag 1; each decodes back |
| `RawValues.ValueDecodeErrorVectors` | components/api_version/src/lib.rs:321-336 | the seven inputs of `test_value_decode_err` are rejected, as truncated or as carrying an undefined flag |
| `RawValues.ByteVec.Truncate` | components/api_version/src/lib.rs:32 | keeps the first `n` bytes of the buffer and leaves its storage unchanged |
| `RawValues.DecodeRawValueOwned` | components/api_version/src/lib.rs:26-37 | returns exactly the borrowed decode of the buffer's old contents; on success the buffer, truncated in place, holds the user value |
| `RawValues.EncodeRawValueOwned` | components/api_version/src/lib.rs:40-41 | appending in place leaves the buffer equal to `encode_raw_value` of its old contents |
| `Bytes.U64RoundTrip` | components/api_version/src/lib.rs:112-119 | the 8-byte big-endian expiry field decodes to the number encoded, and every 8 bytes re-encode to themselves |
| `RawKeys.EncodeBytes` | components/api_version/src/lib.rs:396-420 | the group encoding is longer than the key and than one group |
| `RawKeys.EncodeBytesLength` | components/api_version/src/lib.rs:396-420 | the group encoding of a key of length n has n div 8 + 1 groups of 9 bytes (1 for `"r"`, 2 for `"r234567890"`) |
| `RawKeys.DecodeBytes` | components/api_version/src/lib.rs:443-468 | a successful group decode leaves a proper suffix of its input unread |
| `RawKeys.DecodeEncodeBytes` | components/api_version/src/lib.rs:430-440 | the group decoder recovers the key from its encoding and leaves what follows untouched |
| `RawKeys.EncodeDecodeBytes` | components/api_version/src/lib.rs:443-468 | anything the group decoder accepts is an encoding followed by the unread rest |
| `RawKeys.EncodeTs` | components/api_version/src/lib.rs:403-420 | the timestamp field is 8 bytes holding `u64::MAX - ts` big-endian |
| `RawKeys.DecodeTs` | components/api_version/src/lib.rs:443-468 | any 8 bytes decode to the timestamp whose field they are |
| `RawKeys.SmallTsEncoding` | components/api_version/src/lib.rs:408-419 | a timestamp below 256 is stored as seven 0xFF bytes and 0xFF - ts |
| `RawKeys.TsRoundTrip` | components/api_version/src/lib.rs:403-420 | the descending timestamp field decodes back to the timestamp, and every 8 bytes are the field of some timestamp |
| `RawKeys.DecodeRawKey` | components/api_version/src/lib.rs:43-54 | a decoded key carries a timestamp exactly under V2 with `with_ts`, and is never longer than its input |
| `RawKeys.DecodeEncodeKey` | components/api_version/src/lib.rs:424-440 | `decode_raw_key(encode_raw_key(k, ts), ts.is_some())` returns `(k, ts)` under V2; under V1 and V1TTL it returns `(k, None)` whatever `with_ts` is |
| `RawKeys.EncodeDecodeKey` | components/api_version/src/lib.rs:443-468 | every byte string V2 decodes is the encoding of the key and timestamp it decodes to |
| `RawKeys.V2DecodeRejects` | components/api_version/src/lib.rs:443-468 | V2 rejects a byte string exactly when no key and timestamp (present iff `with_ts`) encode to it |
| `RawKeys.IdentityEncodeKey` | components/api_version/src/lib.rs:55-58 | the default `encode_raw_key` stores the user key verbatim and drops the timestamp |
| `RawKeys.IdentityDecodeKey` | components/api_version/src/lib.rs:43-47 | the default `decode_raw_key` accepts every byte string and returns, with no timestamp, the key whose encoding it is |
| `RawKeys.EncodeRawKey` | components/api_version/src/lib.rs:55-58 | V1 and V1TTL store the key as it is; V2 stores the key's groups first, then 8 timestamp bytes only when there is a timestamp, so the encoding is longer than the key |
| `RawKeys.IdentityKeys` | components/api_version/src/lib.rs:385-429 | for every key, timestamp and `with_ts`, V1 and V1TTL store the key verbatim and decode it with timestamp `None` (all four `test_raw_key` cases) |
| `RawKeys.OneByteKeyEncoding` | components/api_version/src/lib.rs:396-402 | a one-byte key is one group: the byte, seven zero bytes and the marker 0xF8 |
| `RawKeys.V2ShortKeyVectors` | components/api_version/src/lib.rs:396-411 | the V2 bytes of `"r"` without and with timestamp 2 |
| `RawKeys.V2ShortKeyVectorsDecode` | components/api_version/src/lib.rs:430-440 | those bytes decode back to `"r"`, with timestamp 2 under `with_ts` |
| `RawKeys.V2LongKeyVector` | components/api_version/src/lib.rs:412-421 | the V2 bytes of the two-group key `"r234567890"` with timestamp 3 |
| `RawKeys.V2LongKeyVectorDecodes` | components/api_version/src/lib.rs:430-440 | those bytes decode back to `"r234567890"` and timestamp 3 |
| `RawKeys.V2KeyDecodeErrorVectors` | components/api_version/src/lib.rs:445-451 | the rejected inputs of `test_v2_key_decode_err` with a short chunk or a bad marker (including lib.rs:467) |
| `RawKeys.V2KeyDecodeMissingTimestampVector` | components/api_version/src/lib.rs:452-457 | with `with_ts`, one byte after the key is too few for the timestamp |
| `RawKeys.V2KeyDecodeExtraTimestampByteVector` | components/api_version/src/lib.rs:458-464 | with `with_ts`, nine bytes after the key are one too many |
| `RawKeys.V2KeyDecodePaddingErrorVector` | components/api_version/src/lib.rs:465-466 | a non-zero byte inside the declared padding is rejected |
| `RawKeys.EncodeBytesOrderAt` | components/api_version/src/lib.rs:396-420 | the group encodings of keys `a < b` first differ at a position inside both, where `a`'s is smaller: order-preserving, and no encoding is a prefix of another |
| `RawKeys.V2KeyOrder` | components/api_version/src/lib.rs:396-420 | V2 encoded keys sort in user-key order whatever their timestamps, differing at a position inside both (memcomparable, prefix-free) |
| `RawKeys.V2TimestampOrder` | components/api_version/src/lib.rs:403-411 | for one key, a larger timestamp sorts first, and the key without timestamp sorts before all its versions |
| `KeyModes.ParseKeyMode` | components/api_version/src/lib.rs:19-20 | V1 always `Unknown`, V1TTL always `Raw`, V2 `Unknown` for the empty key |
| `KeyModes.ParseRangeMode` | components/api_version/src/lib.rs:21 | V1 always `Unknown`, V1TTL always `Raw`, V2 `Unknown` when a bound is missing |
| `KeyModes.RangeModeCoversRange` | components/api_version/src/lib.rs:174-265 | when V2 classifies `[start, end)` as a mode, every key in the range parses to that mode |
| `KeyModes.RangeModeOfOneNamespace` | components/api_version/src/lib.rs:185-216 | non-empty bounds with the same first byte classify the range as the mode of either bound |
| `KeyModes.KeyModeOfEncodedKey` | components/api_version/src/lib.rs:19 | parsing the mode of an encoded key gives the mode of the user key, under every version |
| `KeyModes.KeyModeVectors` | components/api_version/src/lib.rs:159-172 | the classifications of `test_parse` |
| `KeyModes.RangeModeVectors` | components/api_version/src/lib.rs:174-265 | the classifications of `test_parse_range` |

## Left out

- The concrete impls (`api_v1.rs`, `api_v1ttl.rs`, `api_v2.rs`, declared at
  lib.rs:5-7) are not part of this model. The layouts follow the
  `RawValue` doc comment and the test vectors. The V2 key-mode rule (the
  first byte; a range whose end shares the start's first byte or is the one
  byte after it) is the simplest rule that meets every vector.
- V2 key decode has no key-prefix check. The comment at lib.rs:447 hints
  at one, but the impl is not shown. So the model decodes the V2 encoding
  of the empty key, a case the test at lib.rs:431 skips.
- `RawKeys.DecodeRawKey`: the source's rejection is observed as a panic
  (lib.rs:470-481). The model returns an `Err` with its own error kind.
  The source only promises that the input is rejected.
- `decode_raw_key_owned` and `encode_raw_key_owned` (lib.rs:48-62) move
  the buffer into or out of `Key`. With keys modelled as values, they are
  the same functions as the borrowed variants.
- `RawValues.EncodeRawValue`: V1 given an expiry is a caller error that
  fails fast. It is a `requires`, not an error result.
- `RawValues.ByteVec`'s growth policy (doubling plus one) is the model's
  own. The allocation savings of the owned variants are not modelled,
  beyond reusing the same buffer.
- The `match_template_api_version!` macro (lib.rs:72-84) becomes a `match`
  on `ApiVersion`. The `TAG` constant is the datatype value itself.
- The trait's `Send + Sync + 'static` bounds and the `min_specialization`
  feature gate have no behaviour to model.
