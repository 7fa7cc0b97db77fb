/**
 * The library functions the token logic calls but does not define: OpenSSL's cipher
 * lookup, `openssl_encrypt` / `openssl_decrypt`, `hash_hmac('sha256', ..., true)`
 * (HMAC-SHA256, RFC 2104 over FIPS 180-4), and `base64_encode` / `base64_decode`
 * (section 4 of RFC 4648). They are held as function values in a `Provider`, and the
 * facts the proofs rely on are stated as predicates over it.
 */
module Primitives {
  import opened Wrappers
  import opened ByteStrings

  /** Length in bytes of a binary HMAC-SHA256 digest. */
  const MacLength: nat := 32

  datatype Provider = Provider(
    /** `openssl_get_cipher_methods()`: the cipher names OpenSSL supports. */
    ciphers: seq<string>,
    /** `openssl_cipher_iv_length($cipher)`. */
    ivLength: string -> nat,
    /** `openssl_encrypt($data, $cipher, $key, OPENSSL_RAW_DATA, $iv)`; `None` is PHP's `false`. */
    encrypt: (Bytes, string, Bytes, Bytes) -> Option<Bytes>,
    /** `openssl_decrypt($data, $cipher, $key, OPENSSL_RAW_DATA, $iv)`; `None` is PHP's `false`. */
    decrypt: (Bytes, string, Bytes, Bytes) -> Option<Bytes>,
    /** `hash_hmac('sha256', $data, $key, true)`. */
    hmac: (Bytes, Bytes) -> Bytes,
    /** `base64_encode($data)`. */
    encode: Bytes -> string,
    /** `base64_decode($data)` in its default, non-strict mode; `None` is PHP's `false`. */
    decode: string -> Option<Bytes>)

  /** A binary HMAC-SHA256 digest is always 32 bytes long. */
  ghost predicate HmacIs32(p: Provider)
  {
    forall data, key :: |p.hmac(data, key)| == MacLength
  }

  /**
   * Decrypting what `encrypt` produced, under the same cipher, key and an IV of the
   * cipher's length, gives the plaintext back.
   */
  ghost predicate CipherRoundTrips(p: Provider)
  {
    forall data, cipher, key, iv ::
      p.encrypt(data, cipher, key, iv).Some? && |iv| == p.ivLength(cipher) ==>
        p.decrypt(p.encrypt(data, cipher, key, iv).value, cipher, key, iv) == Some(data)
  }

  /** Base64 decoding undoes base64 encoding. */
  ghost predicate Base64RoundTrips(p: Provider)
  {
    forall data :: p.decode(p.encode(data)) == Some(data)
  }

  /** All the facts about the library that the proofs use. */
  ghost predicate Sound(p: Provider)
  {
    HmacIs32(p) && CipherRoundTrips(p) && Base64RoundTrips(p)
  }

  /** A toy provider (identity cipher, constant MAC, one character per byte). */
  function ToyProvider(): (p: Provider)
  {
    Provider(
      ["aes-128-cbc"],
      (cipher: string) => 16,
      (data: Bytes, cipher: string, key: Bytes, iv: Bytes) => Some(data),
      (data: Bytes, cipher: string, key: Bytes, iv: Bytes) => Some(data),
      (data: Bytes, key: Bytes) => seq(MacLength, i => 0 as byte),
      (data: Bytes) => seq(|data|, i requires 0 <= i < |data| => data[i] as int as char),
      (text: string) => Some(seq(|text|, i requires 0 <= i < |text| => (text[i] as int % 256) as byte)))
  }

  /** The stated facts are consistent: some provider satisfies all of them. */
  lemma ToyProviderIsSound()
    ensures Sound(ToyProvider())
  {
    var p := ToyProvider();
    forall data: Bytes ensures p.decode(p.encode(data)) == Some(data) {
      var back := p.decode(p.encode(data)).value;
      assert |back| == |data|;
      assert forall i :: 0 <= i < |data| ==> back[i] == data[i];
      assert back == data;
    }
  }
}
