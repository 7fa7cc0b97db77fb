/**
 * The token-relevant state and operations of the `SecureImage` class: the secret,
 * the cipher choice, the challenge length and the last issued token, the setters
 * that change them, challenge generation and verification.
 */
module Captcha {
  import opened Wrappers
  import opened ByteStrings
  import opened Primitives
  import opened TokenCodec

  /** `m_characters`: the challenge alphabet: all 26 capitals and the digits 2-9 (0 and 1 are left out). */
  const Characters: Bytes := Ascii("ABCDEFGHIJKLMNOPQRSTUVWXYZ23456789")

  /** Initial `m_cipher`. */
  const DefaultCipher: string := "aes-128-cbc"

  /** Initial `m_length`. */
  const DefaultLength: int := 7

  /** The prefix the constructor passes to `uniqid` when no key is given. */
  const UniqidPrefix: Bytes := Ascii("LaravelSanctumCaptcha_")

  /** Message of the exception `setCipher` throws. */
  const UnsupportedCipherMessage: string := "Your defined cipher is not supported"

  datatype SecureImageException = SecureImageException(message: string)

  /** How often `for ($i = 0; $i < $length; $i++)` runs its body. */
  function Iterations(length: int): (n: nat)
  {
    if length > 0 then length else 0
  }

  /**
   * The challenge-text loop of `generateCaptcha`: append one character of `characters`
   * per iteration, the one at index `picks[i]` (the value `rand(0, strlen - 1)` drew).
   */
  method BuildChallengeText(length: int, characters: Bytes, picks: seq<int>) returns (text: Bytes)
    requires |picks| == Iterations(length)
    requires forall i :: 0 <= i < |picks| ==> 0 <= picks[i] <= |characters| - 1
    ensures |text| == Iterations(length)
    ensures forall i :: 0 <= i < |text| ==> text[i] == characters[picks[i]]
    ensures forall i :: 0 <= i < |text| ==> text[i] in characters
  {
    text := [];
    var i := 0;
    while i < length
      invariant 0 <= i <= Iterations(length)
      invariant |text| == i
      invariant forall k :: 0 <= k < i ==> text[k] == characters[picks[k]]
    {
      text := text + [characters[picks[i]]];
      i := i + 1;
    }
  }

  class SecureImage {
    var secret: Bytes
    var cipher: string
    var length: int
    var ciphertext: string

    /**
     * `new SecureImage($key)`: the key is the secret; without one the secret is
     * `uniqid('LaravelSanctumCaptcha_', true)`, and `uniqueSuffix` is the part
     * `uniqid` appends after the prefix.
     */
    constructor (key: Option<Bytes>, uniqueSuffix: Bytes)
      ensures key.Some? ==> secret == key.value
      ensures key.None? ==> secret == UniqidPrefix + uniqueSuffix
      ensures cipher == DefaultCipher && length == DefaultLength && ciphertext == ""
    {
      secret := if key.Some? then key.value else UniqidPrefix + uniqueSuffix;
      cipher := DefaultCipher;
      length := DefaultLength;
      ciphertext := "";
    }

    /** `setCipher($name)`: accept only a name OpenSSL lists; otherwise throw and change nothing. */
    method SetCipher(p: Provider, name: string) returns (outcome: Outcome<SecureImageException>)
      modifies this
      ensures outcome.Pass? <==> name in p.ciphers
      ensures outcome.Fail? ==> outcome.error == SecureImageException(UnsupportedCipherMessage)
      ensures cipher == if name in p.ciphers then name else old(cipher)
      ensures secret == old(secret) && length == old(length) && ciphertext == old(ciphertext)
    {
      if name !in p.ciphers {
        return Fail(SecureImageException(UnsupportedCipherMessage));
      }
      cipher := name;
      outcome := Pass;
    }

    /** `setLength($length)`: any integer is stored; a non-positive one gives empty challenges. */
    method SetLength(n: int)
      modifies this
      ensures length == n
      ensures secret == old(secret) && cipher == old(cipher) && ciphertext == old(ciphertext)
    {
      length := n;
    }

    /** `getCipherText()`: the token the last `generateCaptcha` stored. */
    function GetCipherText(): (token: string)
      reads this
    {
      ciphertext
    }

    /** `is_valid($input, $ciphertext)` under this instance's secret and cipher. */
    function IsValid(p: Provider, input: Bytes, token: string): (accepted: bool)
      reads this
      ensures accepted ==> forall other :: Verify(p, cipher, secret, other, token) <==> other == input
    {
      Verify(p, cipher, secret, input, token)
    }

    /**
     * The token part of `generateCaptcha`: build the challenge text from the draws
     * `picks`, encrypt it under a fresh IV `iv` (`openssl_random_pseudo_bytes($ivlen)`),
     * and store and return the framed token. The text is returned in place of the
     * rendered image that carries it to the user.
     */
    method GenerateCaptcha(p: Provider, picks: seq<int>, iv: Bytes) returns (token: string, text: Bytes)
      requires |picks| == Iterations(length)
      requires forall i :: 0 <= i < |picks| ==> 0 <= picks[i] <= |Characters| - 1
      requires |iv| == p.ivLength(cipher)
      modifies this
      ensures secret == old(secret) && cipher == old(cipher) && length == old(length)
      ensures |text| == Iterations(length)
      ensures forall i :: 0 <= i < |text| ==> text[i] == Characters[picks[i]] && text[i] in Characters
      ensures token == Seal(p, cipher, secret, text, iv)
      ensures ciphertext == token && GetCipherText() == token
      ensures Sound(p) && p.encrypt(text, cipher, secret, iv).Some? ==>
                forall input :: IsValid(p, input, token) <==> input == text
    {
      text := BuildChallengeText(length, Characters, picks);
      var raw := RawCiphertext(p, cipher, secret, text, iv);
      var hmac := p.hmac(raw, secret);
      ciphertext := p.encode(iv + hmac + raw);
      token := ciphertext;
      if Sound(p) && p.encrypt(text, cipher, secret, iv).Some? {
        forall input ensures IsValid(p, input, token) <==> input == text {
          IssuedTokenAcceptsOnlyItsText(p, cipher, secret, text, iv, input);
        }
      }
    }
  }
}
