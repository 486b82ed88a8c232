/**
 * The boundary to the symmetric cipher. The cipher itself is external: the
 * model only fixes the marker that precedes a ciphertext in encrypted text and
 * the alphabet a ciphertext is written in (the Base64 alphabet of section 4 of
 * RFC 4648).
 */
module Cipher {
  import opened Options

  /** The literal that announces an encrypted span. */
  const Marker: string := "[ENC]"

  /** `[A-Za-z0-9+/=]`. */
  predicate IsCipherChar(c: char) {
    ('A' <= c <= 'Z') || ('a' <= c <= 'z') || ('0' <= c <= '9') || c == '+' || c == '/' || c == '='
  }

  predicate IsCipherText(s: string) {
    forall i :: 0 <= i < |s| ==> IsCipherChar(s[i])
  }

  /** Encryption of one word under the session key. */
  type Encrypt = string -> string

  /** Decryption of one ciphertext under the session key; `None` when it throws. */
  type Decrypt = string -> Option<string>

  /**
   * What the encoder and decoder rely on from the cipher: every ciphertext is
   * a non-empty Base64 string and decrypts back to the word it came from.
   */
  ghost predicate Inverse(encrypt: Encrypt, decrypt: Decrypt) {
    forall w :: encrypt(w) != [] && IsCipherText(encrypt(w)) && decrypt(encrypt(w)) == Some(w)
  }
}
