/** Hashes and the formats of the identifiers derived from them. */
module Identifiers {

  const HASH_HEX_LEN := 64

  /** The hash as an unknown total function on text; no statement assumes that it is injective. */
  type Sha256 = string -> string

  predicate IsHexChar(c: char) { '0' <= c <= '9' || 'a' <= c <= 'f' }

  predicate IsDigest(s: string) { |s| == HASH_HEX_LEN && forall i :: 0 <= i < |s| ==> IsHexChar(s[i]) }

  ghost predicate HexOutput(h: Sha256) { forall s: string :: IsDigest(h(s)) }

  predicate IsIdChar(c: char) { 'A' <= c <= 'Z' || 'a' <= c <= 'z' || '0' <= c <= '9' || c == '_' || c == '-' }

  /** prefix followed by 4 to 64 identifier characters. */
  predicate MatchesId(prefix: string, s: string) {
    && |prefix| + 4 <= |s| <= |prefix| + 64
    && prefix <= s
    && forall i :: |prefix| <= i < |s| ==> IsIdChar(s[i])
  }
}
