/**
 * The challenge token: `base64(iv . hmac . ciphertext_raw)` as `generateCaptcha`
 * assembles it, and the decision `is_valid` takes on a presented token.
 * Both are functions of the instance's secret and cipher name.
 */
module TokenCodec {
  import opened Wrappers
  import opened ByteStrings
  import opened Primitives

  /** The three parts of a decoded token. */
  datatype Envelope = Envelope(iv: Bytes, mac: Bytes, raw: Bytes)

  /** The byte layout of a token before base64: `$iv . $hmac . $ciphertext_raw`. */
  function Frame(e: Envelope): (c: Bytes)
  {
    e.iv + e.mac + e.raw
  }

  /**
   * The three `substr` calls of `is_valid`: the first `ivlen` bytes, the next 32,
   * and the rest. On a payload too short for the IV and the MAC the parts come out short.
   */
  function Split(c: Bytes, ivlen: nat): (e: Envelope)
    ensures Frame(e) == c
    ensures |e.iv| == Min(ivlen, |c|)
    ensures |c| >= ivlen + MacLength ==> |e.iv| == ivlen && |e.mac| == MacLength
    ensures |c| < ivlen + MacLength ==> |e.mac| < MacLength && e.raw == []
  {
    var e := Envelope(Substr(c, 0, ivlen), Substr(c, ivlen, MacLength), SubstrFrom(c, ivlen + MacLength));
    assert Frame(e) == c[..Min(ivlen, |c|)] + c[Min(ivlen, |c|)..Min(ivlen + MacLength, |c|)]
                       + c[Min(ivlen + MacLength, |c|)..];
    e
  }

  /**
   * `openssl_encrypt` of the challenge; its `false` on failure becomes the empty
   * string where the code concatenates it and hashes it.
   */
  function RawCiphertext(p: Provider, cipher: string, secret: Bytes, text: Bytes, iv: Bytes): (raw: Bytes)
  {
    p.encrypt(text, cipher, secret, iv).GetOr([])
  }

  /** The token `generateCaptcha` stores in `m_ciphertext` for challenge `text` and IV `iv`. */
  function Seal(p: Provider, cipher: string, secret: Bytes, text: Bytes, iv: Bytes): (token: string)
    ensures Base64RoundTrips(p) && HmacIs32(p) ==>
              |DecodedBytes(p, token)| == |iv| + MacLength + |RawCiphertext(p, cipher, secret, text, iv)|
  {
    var raw := RawCiphertext(p, cipher, secret, text, iv);
    var mac := p.hmac(raw, secret);
    p.encode(Frame(Envelope(iv, mac, raw)))
  }

  /** `base64_decode($ciphertext)`; a `false` result behaves as the empty string in `substr`. */
  function DecodedBytes(p: Provider, token: string): (c: Bytes)
  {
    p.decode(token).GetOr([])
  }

  /**
   * `is_valid($input, $ciphertext)`: split the decoded token, decrypt the ciphertext
   * part, recompute the MAC over it, and accept only when the MACs are equal and the
   * decryption gave exactly `input`. Decryption happens before the MAC check, as in
   * the code; the verdict does not depend on that order.
   */
  function Verify(p: Provider, cipher: string, secret: Bytes, input: Bytes, token: string): (accepted: bool)
    ensures accepted ==>
              var e := Split(DecodedBytes(p, token), p.ivLength(cipher));
              DecodedBytes(p, token) == Frame(Envelope(e.iv, p.hmac(e.raw, secret), e.raw)) &&
              p.decrypt(e.raw, cipher, secret, e.iv) == Some(input)
    ensures HmacIs32(p) && accepted ==> |DecodedBytes(p, token)| >= p.ivLength(cipher) + MacLength
  {
    var e := Split(DecodedBytes(p, token), p.ivLength(cipher));
    var originalPlaintext := p.decrypt(e.raw, cipher, secret, e.iv);
    var calcMac := p.hmac(e.raw, secret);
    if e.mac == calcMac then originalPlaintext == Some(input) else false
  }

  // ---------------------------------------------------------------------------
  // Framing and splitting

  /** Splitting at the IV length undoes framing when the IV and the MAC have their lengths. */
  lemma SplitFrame(e: Envelope, ivlen: nat)
    requires |e.iv| == ivlen && |e.mac| == MacLength
    ensures Split(Frame(e), ivlen) == e
  {
    var c := Frame(e);
    assert c[..ivlen] == e.iv;
    assert c[ivlen..ivlen + MacLength] == e.mac;
    assert c[ivlen + MacLength..] == e.raw;
  }

  /** The decoded bytes of an issued token are `iv . hmac . ciphertext_raw`, the MAC 32 bytes long. */
  lemma IssuedTokenLayout(p: Provider, cipher: string, secret: Bytes, text: Bytes, iv: Bytes)
    requires HmacIs32(p) && Base64RoundTrips(p)
    ensures var raw := RawCiphertext(p, cipher, secret, text, iv);
            var mac := p.hmac(raw, secret);
            |mac| == MacLength &&
            p.decode(Seal(p, cipher, secret, text, iv)) == Some(iv + mac + raw)
  {
  }

  /**
   * The split `is_valid` performs on an issued token gives back exactly the IV, the
   * MAC and the ciphertext that were framed.
   */
  lemma SplitIssuedToken(p: Provider, cipher: string, secret: Bytes, text: Bytes, iv: Bytes)
    requires HmacIs32(p) && Base64RoundTrips(p)
    requires |iv| == p.ivLength(cipher)
    ensures var raw := RawCiphertext(p, cipher, secret, text, iv);
            Split(DecodedBytes(p, Seal(p, cipher, secret, text, iv)), p.ivLength(cipher))
              == Envelope(iv, p.hmac(raw, secret), raw)
  {
    var raw := RawCiphertext(p, cipher, secret, text, iv);
    SplitFrame(Envelope(iv, p.hmac(raw, secret), raw), |iv|);
  }

  // ---------------------------------------------------------------------------
  // Verification

  /**
   * Round trip and wrong answer: with the secret and cipher that issued it, a token
   * is accepted for its own challenge text and for no other input (the comparison is
   * exact, so a differently cased answer is refused).
   */
  lemma IssuedTokenAcceptsOnlyItsText(p: Provider, cipher: string, secret: Bytes,
                                      text: Bytes, iv: Bytes, input: Bytes)
    requires Sound(p)
    requires |iv| == p.ivLength(cipher)
    requires p.encrypt(text, cipher, secret, iv).Some?
    ensures Verify(p, cipher, secret, input, Seal(p, cipher, secret, text, iv)) <==> input == text
  {
    SplitIssuedToken(p, cipher, secret, text, iv);
  }

  /** When the embedded MAC differs from the recomputed one, every input is refused. */
  lemma MacMismatchRejected(p: Provider, cipher: string, secret: Bytes, token: string)
    requires var e := Split(DecodedBytes(p, token), p.ivLength(cipher));
             e.mac != p.hmac(e.raw, secret)
    ensures forall input :: !Verify(p, cipher, secret, input, token)
  {
  }

  /**
   * When the MACs agree but decryption fails, or gives something other than `input`,
   * `input` is refused.
   */
  lemma WrongPlaintextRejected(p: Provider, cipher: string, secret: Bytes, input: Bytes, token: string)
    requires var e := Split(DecodedBytes(p, token), p.ivLength(cipher));
             p.decrypt(e.raw, cipher, secret, e.iv) != Some(input)
    ensures !Verify(p, cipher, secret, input, token)
  {
  }

  /** A token accepts at most one answer. */
  lemma AtMostOneAnswer(p: Provider, cipher: string, secret: Bytes, a: Bytes, b: Bytes, token: string)
    requires Verify(p, cipher, secret, a, token) && Verify(p, cipher, secret, b, token)
    ensures a == b
  {
  }

  /**
   * A payload shorter than the IV plus 32 bytes leaves a MAC shorter than the
   * 32-byte recomputed one, so every input is refused.
   */
  lemma ShortPayloadRejected(p: Provider, cipher: string, secret: Bytes, token: string)
    requires HmacIs32(p)
    requires |DecodedBytes(p, token)| < p.ivLength(cipher) + MacLength
    ensures forall input :: !Verify(p, cipher, secret, input, token)
  {
  }

  /** A token `base64_decode` rejects is refused for every input. */
  lemma UndecodableRejected(p: Provider, cipher: string, secret: Bytes, token: string)
    requires HmacIs32(p)
    requires p.decode(token) == None
    ensures forall input :: !Verify(p, cipher, secret, input, token)
  {
    ShortPayloadRejected(p, cipher, secret, token);
  }

  /**
   * Tampering with the MAC region: a token whose IV and MAC have their lengths but
   * whose MAC is not the HMAC of its ciphertext is refused for every input.
   */
  lemma ForgedMacRejected(p: Provider, cipher: string, secret: Bytes, e: Envelope)
    requires Base64RoundTrips(p)
    requires |e.iv| == p.ivLength(cipher) && |e.mac| == MacLength
    requires e.mac != p.hmac(e.raw, secret)
    ensures forall input :: !Verify(p, cipher, secret, input, p.encode(Frame(e)))
  {
    SplitFrame(e, p.ivLength(cipher));
  }

  /**
   * Tampering with the IV region: the MAC covers only the ciphertext, so an issued
   * token re-framed with any other IV of the same length passes the MAC check, and
   * the verdict is decided by decryption under the new IV alone.
   */
  lemma IvTamperPassesMac(p: Provider, cipher: string, secret: Bytes, text: Bytes,
                          iv: Bytes, iv2: Bytes, input: Bytes)
    requires HmacIs32(p) && Base64RoundTrips(p)
    requires |iv| == p.ivLength(cipher) && |iv2| == |iv|
    ensures var raw := RawCiphertext(p, cipher, secret, text, iv);
            var tampered := p.encode(Frame(Envelope(iv2, p.hmac(raw, secret), raw)));
            Verify(p, cipher, secret, input, tampered) <==> p.decrypt(raw, cipher, secret, iv2) == Some(input)
  {
    var raw := RawCiphertext(p, cipher, secret, text, iv);
    SplitFrame(Envelope(iv2, p.hmac(raw, secret), raw), |iv2|);
  }

  /**
   * A concrete case: the token issued for "XK7Q2M9" is accepted for "XK7Q2M9" and
   * refused for "xk7q2m9".
   */
  lemma CaseSensitiveAnswer(p: Provider, cipher: string, secret: Bytes, iv: Bytes)
    requires Sound(p)
    requires |iv| == p.ivLength(cipher)
    requires p.encrypt(Ascii("XK7Q2M9"), cipher, secret, iv).Some?
    ensures var token := Seal(p, cipher, secret, Ascii("XK7Q2M9"), iv);
            Verify(p, cipher, secret, Ascii("XK7Q2M9"), token) &&
            !Verify(p, cipher, secret, Ascii("xk7q2m9"), token)
  {
    IssuedTokenAcceptsOnlyItsText(p, cipher, secret, Ascii("XK7Q2M9"), iv, Ascii("XK7Q2M9"));
    IssuedTokenAcceptsOnlyItsText(p, cipher, secret, Ascii("XK7Q2M9"), iv, Ascii("xk7q2m9"));
    assert Ascii("XK7Q2M9")[0] != Ascii("xk7q2m9")[0];
  }
}
