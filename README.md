# SecureImage challenge token, modelled in Dafny

`SecureImage` (src/SecureImage.php) issues a captcha: a short random text drawn
from a fixed alphabet, and a self-contained token
`base64(iv . hmac . ciphertext_raw)`. Here `ciphertext_raw` is the text encrypted
with OpenSSL under the instance's secret and cipher, and `hmac` is the 32-byte
HMAC-SHA256 of that ciphertext keyed with the same secret. `is_valid` later takes
an answer and the token. It splits the token, recomputes the MAC and accepts
exactly when the MACs match and the decrypted text equals the answer.

This project models that logic and proves its properties:

- `wrappers.dfy` (module `Wrappers`): `Option` stands for PHP's `false` results and
  `Outcome` for a thrown exception.
- `bytes.dfy` (module `ByteStrings`): PHP strings as `seq<byte>`, and PHP 8's
  `substr` for non-negative offsets. An offset past the end gives `""`.
- `primitives.dfy` (module `Primitives`): the library calls the code makes, held as
  function values of a `Provider`. These are `openssl_get_cipher_methods`,
  `openssl_cipher_iv_length`, `openssl_encrypt`, `openssl_decrypt`,
  `hash_hmac('sha256', …, true)`, `base64_encode` and `base64_decode`. What the
  proofs assume about them is stated as predicates:
  - `HmacIs32`: the digest is 32 bytes long.
  - `CipherRoundTrips`: decryption under the same cipher, key and an IV of the
    cipher's length undoes a successful encryption.
  - `Base64RoundTrips`: decoding undoes encoding.
  - `ToyProviderIsSound` shows that these three facts can all hold at once.
- `token.dfy` (module `TokenCodec`): framing (`Frame`), the split that `is_valid`
  performs (`Split`), token assembly (`Seal`), the verdict (`Verify`), and the
  lemmas about them.
- `secure_image.dfy` (module `Captcha`): the class `SecureImage` with the fields
  the token depends on (`m_secret`, `m_cipher`, `m_length`, `m_ciphertext`). It has
  the constructor, `SetCipher`, `SetLength`, `GetCipherText`, `IsValid` and
  `GenerateCaptcha`. The challenge-text loop is the method `BuildChallengeText`.

How PHP behaviour is modelled:
- The file declares no strict types, so PHP coerces `false` to `""` where the code
  uses it as a string. When `openssl_encrypt` fails, the model hashes and frames the
  empty string. When `base64_decode` fails, the model splits the empty string.
- `is_valid` decrypts before it checks the MAC, and the model keeps that order.
- `hash_equals` is modelled as byte-sequence equality, which is false when the
  lengths differ. `===` against the decryption result is false when decryption
  returned `false`.
- `setLength` accepts any integer. The loop runs `max(m_length, 0)` times.
- Randomness is passed in as parameters. `picks` holds the values
  `rand(0, strlen($m_characters) - 1)` drew, one per character. `iv` holds the bytes
  `openssl_random_pseudo_bytes`
  returned. `uniqueSuffix` is the part `uniqid` appends after the prefix.
- `generateCaptcha` returns the token and the rendered image. The model returns the
  token and the challenge text, which the image would display.
- `getCipherText` only returns the field. `GenerateCaptcha`'s postcondition states
  that `GetCipherText()` returns the token just issued.

## Model

| member | source | states |
|---|---|---|
| `Captcha.BuildChallengeText` | src/SecureImage.php:122-126 | the text has exactly max(m_length, 0) characters, character i is the alphabet entry at the i-th draw, and every character occurs in the alphabet |
| `Captcha.SecureImage.constructor` | src/SecureImage.php:26-34 | a given key (even an empty one) becomes the secret; without one the secret is the uniqid prefix followed by the unique part; cipher aes-128-cbc, length 7, empty token |
| `Captcha.SecureImage.SetCipher` | src/SecureImage.php:43-52 | succeeds exactly when the name is among OpenSSL's cipher methods and then sets the cipher; otherwise throws the "not supported" exception and leaves the cipher as it was; no other field changes |
| `Captcha.SecureImage.SetLength` | src/SecureImage.php:82-87 | stores the given length and changes no other field |
| `Captcha.SecureImage.GenerateCaptcha` | src/SecureImage.php:122-136 | builds the challenge text as above, stores base64(iv . hmac . ciphertext_raw) in the token field and returns it; GetCipherText then yields it; with a sound library and a successful encryption, IsValid accepts that token for the generated text and for no other input; secret, cipher and length unchanged |
| `TokenCodec.Split` | src/SecureImage.php:161-165 | the three substr parts concatenate back to the decoded bytes; the IV has min(ivlen, length) bytes; on a payload of at least ivlen + 32 bytes the IV has ivlen bytes and the MAC 32; on a shorter one the MAC is shorter than 32 bytes and the ciphertext is empty |
| `TokenCodec.Seal` | src/SecureImage.php:132-136 | the token assembly; with base64 and a 32-byte HMAC as stated, the decoded token is |iv| + 32 + len(ciphertext_raw) bytes long; its content is IssuedTokenLayout, and its verdict IssuedTokenAcceptsOnlyItsText |
| `TokenCodec.Verify` | src/SecureImage.php:159-174 | is_valid on values: an accepted token decodes to a frame whose MAC is the HMAC of its ciphertext, whose decryption is exactly the input, and which is at least ivlen + 32 bytes long; further properties are IssuedTokenAcceptsOnlyItsText, MacMismatchRejected, WrongPlaintextRejected, AtMostOneAnswer, ShortPayloadRejected, UndecodableRejected and ForgedMacRejected |
| `Captcha.SecureImage.IsValid` | src/SecureImage.php:159-174 | is_valid under the instance's secret and cipher (Verify); an input it accepts is the only input that token accepts |
| `Captcha.SecureImage.GetCipherText` | src/SecureImage.php:148-151 | returns the token field; no contract of its own: GenerateCaptcha's ensures state that it yields the token just issued |
| `TokenCodec.SplitFrame` | src/SecureImage.php:163-165 | splitting at ivlen undoes framing for an IV of ivlen bytes and a 32-byte MAC |
| `TokenCodec.IssuedTokenLayout` | src/SecureImage.php:132-136 | the issued token decodes to iv . hmac . ciphertext_raw, where hmac is the 32-byte HMAC of ciphertext_raw under the secret |
| `TokenCodec.SplitIssuedToken` | src/SecureImage.php:161-165 | on an issued token, is_valid's split gives back exactly the IV, MAC and ciphertext generateCaptcha framed |
| `TokenCodec.IssuedTokenAcceptsOnlyItsText` | src/SecureImage.php:159-171 | with a sound library, an IV of the cipher's length and a successful openssl_encrypt, and the same secret and cipher, the token issued for a text is accepted for an input if and only if the input equals that text |
| `TokenCodec.MacMismatchRejected` | src/SecureImage.php:167-173 | when the embedded MAC differs from the recomputed one, every input is refused |
| `TokenCodec.WrongPlaintextRejected` | src/SecureImage.php:166-170 | an input is refused whenever decryption failed or gave anything other than that input |
| `TokenCodec.AtMostOneAnswer` | src/SecureImage.php:168-171 | no token is accepted for two different inputs |
| `TokenCodec.ShortPayloadRejected` | src/SecureImage.php:163-168 | a decoded payload shorter than ivlen + 32 bytes is refused for every input |
| `TokenCodec.UndecodableRejected` | src/SecureImage.php:161-168 | a token base64_decode rejects is refused for every input |
| `TokenCodec.ForgedMacRejected` | src/SecureImage.php:163-173 | a token framed with a 32-byte MAC that is not the HMAC of its ciphertext is refused for every input (tampering with the MAC region) |
| `TokenCodec.IvTamperPassesMac` | src/SecureImage.php:163-170 | an issued token re-framed with any other IV of the same length passes the MAC check (the MAC covers only the ciphertext), and it is accepted for an input exactly when decryption under the new IV gives that input |
| `TokenCodec.CaseSensitiveAnswer` | src/SecureImage.php:170 | with a sound library, an IV of the cipher's length and a successful openssl_encrypt, the token issued for "XK7Q2M9" is accepted for "XK7Q2M9" and refused for "xk7q2m9" |

## Left out

- Image rendering is not modelled: the canvas, background, noise lines and dots,
  glyph placement and colours, and the JPEG capture through output buffering
  (src/SecureImage.php:105-120, 128-129, 137-140). These are GD library calls. The token's
  value does not depend on them, but whether a token is issued does: they run before
  the token is built and can throw (see the `Captcha.SecureImage.GenerateCaptcha`
  line below). The `rand()` calls they make are not among the draws `picks`.
- `as_png` and `__destruct` are not modelled. They only emit headers and images and
  release the image resource.
- The rendering setters (`setBackground`, `setFont`, `setHeight`, `setWidth`,
  `setNumberOfLines`, `setNumberOfDots`) are not modelled, nor are the fields they
  write. Each is a plain field write. The token's value does not depend on these fields,
  but whether a token is issued does, through the rendering steps that read them.
- OpenSSL's ciphers, HMAC-SHA256 and PHP's base64 are stated only through the
  `Provider` predicates. The lenient handling of invalid characters by non-strict
  `base64_decode` is part of that library behaviour.
- `openssl_random_pseudo_bytes` is assumed to return exactly `ivlen` bytes. Its own
  failure modes are not modelled. In particular, `setCipher` accepts ECB-style
  ciphers whose IV length is 0, and for length 0 PHP 8 raises a ValueError
  (src/SecureImage.php:133). `GenerateCaptcha` instead issues a token with an empty IV.
- `openssl_encrypt` can return `false`, for instance for an AEAD cipher such as
  aes-128-gcm called without a `$tag`. The model then frames and MACs the empty
  string, as the code does. Such a token is accepted for its own text only if
  decrypting the empty string happens to give that text, so the round-trip lemmas
  require a successful encryption.
- `openssl_cipher_iv_length` is treated as total.
  The cipher in use is always the default or a name `setCipher` accepted.
- The constant-time behaviour of `hash_equals` is not modelled, because timing
  cannot be stated here.
- The values of `uniqid`, `rand` and `openssl_random_pseudo_bytes`, and how they are
  distributed, are not modelled. They are inputs.
- `in_array` uses PHP's loose `==`. The model uses exact equality. The two agree
  for the non-numeric names OpenSSL reports.
- A wrong secret and tampering with the IV or ciphertext regions are not covered.
  Rejecting them holds only with overwhelming probability, and it does not follow
  from the stated facts. HMAC even has key collisions: a short key and the same key
  with a zero byte appended give the same MAC. Only tampering with the MAC region is
  proved (`ForgedMacRejected`). The IV is not covered by the MAC at all: an issued
  token re-framed with another IV of the same length always passes the MAC check,
  and decryption under that IV alone decides the verdict (`IvTamperPassesMac`). With
  CBC such a token is accepted for the correspondingly bit-flipped text.
- Captcha.SecureImage.GenerateCaptcha: assumes that the rendering steps before line
  122 return normally, and so always issues and stores a new token. In the code they
  can throw, and then no token is issued and `m_ciphertext` keeps its old value. For
  example, line 114 computes `rand() % $this->m_width` and `rand() % $this->m_height`
  50 times by default, which raises DivisionByZeroError after `setWidth("0")` or
  `setHeight("0")`. GD's range checks in PHP 8 can also throw at line 105 (a canvas
  size that is not positive) and at line 109 (a background colour outside its range).
- `IsValid` is `Verify` applied to the instance's secret and cipher. Its properties
  are the `TokenCodec` lemmas.
