# SecureCrypt cipher, modelled in Dafny

SecureCrypt's `Cipher` obscures data by XOR-ing it with a repeating key.
It can also apply block padding first. A cipher is built from a key and a
`PaddingScheme` (`NONE` or `PKCS7`); both are fixed for the cipher's
lifetime. Every entry point uses the same two primitives:

- **combine**: output byte `i` is input byte `i` XOR key byte `i mod |key|`;
- **pad / unpad**: PKCS #7 style padding (section 6.3 of RFC 5652) to a
  16-byte block. Unpadding reads the last byte as the pad length and checks
  only that it does not exceed the buffer.

Encryption is pad then combine, and decryption is combine then unpad. There
are two sets of overloads with the same algorithm: one for `std::string` and
one for `std::vector<unsigned char>`.

The model has six modules:

- `Bytes` (`bytes.dfy`): a byte is an integer `0..255`. Unpadding reads
  the last byte as this unsigned value (`static_cast<unsigned char>`). The
  combine loops XOR plain `char`s, but the signedness does not change the
  bytes they produce. C++ `^` on bytes is `Xor`, defined bit by bit and
  proved self-inverse. A `std::string` is a `seq<char>` whose characters
  are all below 256 (`IsByteText`), with a conversion to bytes.
- `Results` (`results.dfy`): a `Result` with two errors. `InvalidPadding`
  stands for the exception unpadding throws. `InvalidKey` is not in the
  source: the constructor accepts an empty key, and refusing it is the
  correction recorded under "## Findings". The module also has
  `Behaviour`, which records where the C++ taken literally has undefined
  behaviour.
- `XorCombine` (`combine.dfy`): the combine loop.
- `Padding` (`padding.dfy`): `PaddingScheme`, `Pad` and `Unpad`.
- `TextCipher` (`text.dfy`): the `std::string` overloads, written over
  characters. Each one is proved to produce the same bytes as the vector
  overload.
- `SecureCrypt` (`securecrypt.dfy`): the `Cipher` value, its construction,
  and the four encrypt/decrypt entry points.

`Scenarios` (`scenarios.dfy`) states the worked examples and edge cases.

A cipher is an immutable value (`datatype Cipher`), and every entry point is
a pure function of the cipher and the input. So repeated calls on the same
input give the same output, and no call can change the key or scheme. Each
entry point returns the same container type it takes: `seq<byte>` for the
vector overloads and `seq<char>` for the string overloads.
`PaddingScheme` has exactly the two constructors `NONE` and `PKCS7`. Every
`match` on it is therefore a total case split, which Dafny checks.

## Model

| member | source | states |
|---|---|---|
| `Bytes.Xor` | src/securecrypt.cpp:16 | The C++ `^` on two bytes: a byte again, symmetric in its operands, the identity for a zero key byte, and zero when both operands are equal. |
| `Bytes.XorTwice` | src/securecrypt.cpp:16 | XOR-ing a byte with the same key byte twice gives back the original byte. This is why one loop body serves both directions. |
| `XorCombine.Combine` | src/securecrypt.cpp:38-40 | The combined output has the input's length, and byte `i` is input byte `i` XOR key byte `i mod |key|`. |
| `XorCombine.CombineSelfInverse` | src/securecrypt.cpp:49-51 | The decrypt loop applied to the encrypt loop's output, with the same key, returns the original bytes. |
| `XorCombine.CombineAsWritten` | src/securecrypt.cpp:15-17 | The literal loop is undefined (it computes `i % 0`) exactly when the key is empty and the data is not. Otherwise it preserves length and combines byte by byte. |
| `Padding.PadLength` | src/securecrypt.cpp:86-87 | The pad length is between 1 and 16 and brings the length to a multiple of 16. An already aligned input gets 16. |
| `Padding.PadLengthLeast` | src/securecrypt.cpp:87 | No smaller positive count reaches a block boundary, so padding adds at most what alignment needs, except for a whole block when already aligned. |
| `Padding.Pad` | src/securecrypt.cpp:81-91 | `NONE` returns the input unchanged. `PKCS7` gives a result whose length is a multiple of 16 and grows by 1 to 16 bytes (by exactly 16 when already aligned). The input is an unchanged prefix, and every appended byte equals the number of bytes appended. |
| `Padding.Unpad` | src/securecrypt.cpp:94-104 | `NONE` returns the input unchanged. `PKCS7` fails with `InvalidPadding` exactly when the buffer is empty or its last byte exceeds its length. Otherwise it returns the prefix that is shorter by the last byte's value. |
| `Padding.UnpadPad` | src/securecrypt.cpp:81-104 | Unpadding a padded buffer returns the original, for every input including the empty one, under both schemes. |
| `Padding.UnpadZero` | src/securecrypt.cpp:99-103 | A last byte of 0 is accepted and removes nothing. |
| `Padding.UnpadIgnoresOtherPadBytes` | src/securecrypt.cpp:99-103 | Only the last byte is read. Arbitrary bytes before it are stripped as padding, with no check that they equal the pad length. |
| `Padding.UnpadAsWritten` | src/securecrypt.cpp:94-104 | The literal unpad is undefined (it reads `back()` of an empty buffer) exactly under `PKCS7` with an empty input. Otherwise it agrees with `Unpad`: it rejects exactly when the last byte exceeds the length, and on acceptance returns the input with that many bytes removed from the end. |
| `Padding.UnpadEmptyFails` | src/securecrypt.cpp:99 | On the empty buffer the literal code is undefined, while the guarded `Unpad` fails with `InvalidPadding`. |
| `TextCipher.CombineText` | src/securecrypt.cpp:15-17 | The string loop's output is byte text of the input's length whose bytes are those of the vector combine. |
| `TextCipher.PadText` | src/securecrypt.cpp:57-65 | String padding appends exactly the bytes that vector padding appends. |
| `TextCipher.UnpadText` | src/securecrypt.cpp:68-78 | String unpadding fails exactly when vector unpadding fails, with `InvalidPadding`. Otherwise it keeps the same bytes. |
| `SecureCrypt.NewCipher` | src/securecrypt.cpp:7-8 | Construction fails with `InvalidKey` exactly when the key is empty. Otherwise the cipher holds the given key and scheme. The scheme defaults to `NONE` (include/securecrypt.h line 14). |
| `SecureCrypt.Encrypt` | src/securecrypt.cpp:34-43 | The ciphertext keeps the length under `NONE`. Under `PKCS7` its length is a multiple of 16 and 1 to 16 bytes longer. Its first bytes are the plaintext combined with the key, and each trailing byte, combined back, equals the pad length. |
| `SecureCrypt.Decrypt` | src/securecrypt.cpp:46-54 | Under `NONE`, decryption always succeeds and keeps the length. Under `PKCS7` it fails with `InvalidPadding` exactly when the ciphertext is empty or its last byte, combined with its key byte, exceeds the length. On success, the result is the combined ciphertext with exactly as many bytes removed from the end as the combined last byte says. |
| `SecureCrypt.DecryptEncrypt` | src/securecrypt.cpp:34-54 | Decrypting an encryption returns the plaintext, for every byte sequence and both schemes. |
| `SecureCrypt.EncryptText` | src/securecrypt.cpp:11-20 | The string encryption yields exactly the bytes of the vector encryption of the same bytes. |
| `SecureCrypt.DecryptText` | src/securecrypt.cpp:23-31 | The string decryption fails exactly when the vector decryption fails, with the same error. Otherwise it yields the same bytes. |
| `SecureCrypt.DecryptTextEncryptText` | src/securecrypt.cpp:11-31 | Decrypting a string encryption returns the original string. |
| `Scenarios.HelloScenario` | src/securecrypt.cpp:34-54 | Key "key", scheme `NONE`: "HELLO" keeps its five bytes, each combined with key byte `i mod 3`, and decrypts back to "HELLO". |
| `Scenarios.HelloTextScenario` | src/securecrypt.cpp:11-31 | The string overload encrypts "HELLO" to the same bytes as the vector overload and decrypts it back. |
| `Scenarios.FullBlockScenario` | src/securecrypt.cpp:86-89 | A 16-byte plaintext under `PKCS7` encrypts to 32 bytes and decrypts back. |
| `Scenarios.EmptyInputScenario` | src/securecrypt.cpp:34-43 | An empty plaintext under `PKCS7` encrypts to 16 bytes, each `0x10` XOR its key byte, and decrypts back to empty. |
| `Scenarios.RejectionScenarios` | src/securecrypt.cpp:99-102 | Unpadding `[]` and `[5]` fails with `InvalidPadding`, and an empty key is refused with `InvalidKey`. |
| `Scenarios.EmptyKeyEncryptIsUndefined` | src/securecrypt.cpp:34-40 | With an empty key, the literal `PKCS7` encryption always reaches `i % 0`, because padding never leaves the buffer empty. |
| `Scenarios.EmptyCiphertextDecryptIsUndefined` | src/securecrypt.cpp:46-54 | Decrypting an empty ciphertext under `PKCS7` hands the literal unpad an empty buffer. The modelled `Decrypt` fails with `InvalidPadding` there instead. |

## Left out

- `encryptFile` / `decryptFile` (src/securecrypt.cpp:107-136) are file I/O plumbing. They open two streams, read the whole input file into a `std::string`, apply the string `encrypt`/`decrypt`, and write the result. Their byte-level behaviour is that of `SecureCrypt.EncryptText` / `SecureCrypt.DecryptText` on the file's bytes. The open-failure error and stream handling are not modelled.
- Exceptions: the unpad `std::runtime_error` (src/securecrypt.cpp:75, 101) is modelled as a `Failure(InvalidPadding)` value, not by its message. The file-open exception belongs to the file functions left out above.
- C++ `char` signedness and the `int` promotion in `paddedText[i] ^ key[...]` are not modelled. Every byte is its unsigned value, and the truncation back to `char` yields the same byte.
- Cryptographic strength: none is claimed. The combine offers no integrity, so a corrupted ciphertext whose last byte decodes to a plausible pad length is accepted and yields garbage. `SecureCrypt.Decrypt` states this acceptance condition precisely.
- `Bytes.Xor` is a bitwise XOR on integers, defined bit by bit. It is not proved equal to a bit-vector `^`.

## Findings

| source | as written | input that shows it | evidently intended | confidence | as-written member | corrected member |
|---|---|---|---|---|---|---|
| src/securecrypt.cpp:7-8 | The constructor stores any key, including an empty one, and the combine loop computes `i % key.size()` | an empty key with any plaintext under `PKCS7` (see `Scenarios.EmptyKeyEncryptIsUndefined`) | refuse an empty key at construction | high; not executed | `XorCombine.CombineAsWritten` | `SecureCrypt.NewCipher` |
| src/securecrypt.cpp:99 | `unpad` reads `input.back()` without checking that the buffer is non-empty (the string overload does the same at line 73) | decrypting an empty ciphertext under `PKCS7` (see `Scenarios.EmptyCiphertextDecryptIsUndefined`) | fail with the invalid-padding error | high; not executed | `Padding.UnpadAsWritten` | `Padding.Unpad` |
