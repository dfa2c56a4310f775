/** Concrete behaviours of the cipher: the worked examples its design is
    described by, the edge cases of construction and unpadding, and the two
    places where the C++ code taken literally has undefined behaviour. */
module Scenarios {
  import opened Bytes
  import opened Results
  import opened XorCombine
  import opened Padding
  import opened SecureCrypt

  /** The bytes of "HELLO" and of the key "key". */
  const Hello: seq<byte> := [0x48, 0x45, 0x4C, 0x4C, 0x4F]
  const KeyText: seq<byte> := [0x6B, 0x65, 0x79]

  /** Key "key", no padding: "HELLO" keeps its length, byte `i` is combined
      with key byte `i mod 3`, and decryption returns "HELLO". */
  lemma HelloScenario()
    ensures NewCipher(KeyText) == Success(Cipher(KeyText, NONE))
    ensures |Encrypt(Cipher(KeyText, NONE), Hello)| == 5
    ensures forall i :: 0 <= i < 5 ==>
      Encrypt(Cipher(KeyText, NONE), Hello)[i] == Xor(Hello[i], KeyText[i % 3])
    ensures Decrypt(Cipher(KeyText, NONE), Encrypt(Cipher(KeyText, NONE), Hello)) == Success(Hello)
  {
    DecryptEncrypt(Cipher(KeyText, NONE), Hello);
  }

  /** The text overload encrypts "HELLO" to the same bytes, and decrypting
      that text returns "HELLO". */
  lemma HelloTextScenario()
    ensures ToBytes(EncryptText(Cipher(KeyText, NONE), "HELLO")) == Encrypt(Cipher(KeyText, NONE), Hello)
    ensures DecryptText(Cipher(KeyText, NONE), EncryptText(Cipher(KeyText, NONE), "HELLO"))
         == Success("HELLO")
  {
    var c := Cipher(KeyText, NONE);
    var h := ToBytes("HELLO");
    assert h[0] == 0x48 && h[1] == 0x45 && h[2] == 0x4C && h[3] == 0x4C && h[4] == 0x4F;
    assert h == Hello;
    DecryptTextEncryptText(c, "HELLO");
  }

  /** A block-aligned plaintext still gains a whole block of padding, and
      decrypts back to itself. */
  lemma FullBlockScenario(c: Cipher, plaintext: seq<byte>)
    requires c.scheme == PKCS7 && |plaintext| == BlockSize
    ensures |Encrypt(c, plaintext)| == 2 * BlockSize
    ensures Decrypt(c, Encrypt(c, plaintext)) == Success(plaintext)
  {
    DecryptEncrypt(c, plaintext);
  }

  /** An empty plaintext encrypts under PKCS7 to one block whose bytes are
      0x10 combined with the key schedule, and decrypts to empty again. */
  lemma EmptyInputScenario(c: Cipher, empty: seq<byte>)
    requires c.scheme == PKCS7 && |empty| == 0
    ensures |Encrypt(c, empty)| == BlockSize
    ensures forall i :: 0 <= i < BlockSize ==> Encrypt(c, empty)[i] == Xor(0x10, c.key[i % |c.key|])
    ensures Decrypt(c, Encrypt(c, empty)) == Success(empty)
  {
  }

  /** Unpadding fails on an empty buffer and on a one-byte buffer whose pad
      length 5 exceeds it; an empty key is refused at construction. */
  lemma RejectionScenarios()
    ensures Unpad(PKCS7, []) == Failure(InvalidPadding)
    ensures Unpad(PKCS7, [5]) == Failure(InvalidPadding)
    ensures NewCipher([], PKCS7) == Failure(InvalidKey)
  {
  }

  /** With an empty key, encrypting under PKCS7 always reaches `i % 0` in the
      source's combine loop, because padding never leaves the buffer empty. */
  lemma EmptyKeyEncryptIsUndefined(plaintext: seq<byte>)
    ensures CombineAsWritten([], Pad(PKCS7, plaintext)).Undefined?
  {
  }

  /** Decrypting an empty ciphertext under PKCS7 hands the source's unpad an
      empty buffer, whose last byte it reads. */
  lemma EmptyCiphertextDecryptIsUndefined(c: Cipher)
    ensures UnpadAsWritten(PKCS7, Combine(c.key, [])).Undefined?
    ensures c.scheme == PKCS7 ==> Decrypt(c, []) == Failure(InvalidPadding)
  {
  }
}
