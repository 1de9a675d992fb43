/** The API version tag that selects one key/value layout for the lifetime of
    a store, and the result type every decoder returns. */
module Api {

  /** The three API versions; `match_template_api_version!` expands to one
      case per tag, which this model writes as a `match` on the tag. */
  datatype ApiVersion = V1 | V1TTL | V2

  /** `IS_TTL_ENABLED`: only V1 has no place for an expiry timestamp. */
  predicate IsTtlEnabled(v: ApiVersion) {
    v != V1
  }

  datatype Option<+T> = None | Some(value: T)

  /** The kinds of failure the codecs report instead of panicking or reading
      out of bounds. */
  datatype Error =
    | Truncated          // fewer bytes than the layout needs
    | UnsupportedFlags   // a V2 meta-flag byte with a reserved bit set
    | InvalidMarker      // a key group marker that declares more than 8 padding bytes
    | InvalidPadding     // a non-zero byte inside the declared padding
    | TrailingData       // bytes left over after the logical end of a key

  datatype Result<+T> = Ok(value: T) | Err(error: Error)
}
