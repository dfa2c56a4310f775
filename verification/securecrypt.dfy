/** The cipher itself: a fixed non-empty key and padding scheme, captured at
    construction, and the encrypt/decrypt entry points for binary data and
    text. Encryption pads then combines; decryption combines then unpads. */
module SecureCrypt {
  import opened Bytes
  import opened Results
  import opened XorCombine
  import opened Padding
  import opened TextCipher

  /** A key the combine step can index cyclically: at least one byte. */
  type Key = k: seq<byte> | |k| > 0 witness [0]

  /** The cipher's whole state. Both fields are set once and never change,
      so every entry point is a pure function of the cipher and its input. */
  datatype Cipher = Cipher(key: Key, scheme: PaddingScheme)

  /** Build a cipher; the padding scheme defaults to NONE. An empty key is
      rejected, since the combine step would index it modulo zero. */
  function NewCipher(key: seq<byte>, padding: PaddingScheme := NONE): (r: Result<Cipher>)
    ensures r.Failure? <==> |key| == 0
    ensures r.Failure? ==> r.error == InvalidKey
    ensures r.Success? ==> r.value.key == key && r.value.scheme == padding
  {
    if |key| == 0 then Failure(InvalidKey) else Success(Cipher(key, padding))
  }

  /** Encrypt binary data: pad, then combine with the key. */
  function Encrypt(c: Cipher, plaintext: seq<byte>): (r: seq<byte>)
    ensures c.scheme == NONE ==> |r| == |plaintext|
    ensures c.scheme == PKCS7 ==>
      && |r| % BlockSize == 0
      && |plaintext| < |r| <= |plaintext| + BlockSize
    ensures forall i :: 0 <= i < |plaintext| ==> r[i] == Xor(plaintext[i], c.key[i % |c.key|])
    ensures forall i :: |plaintext| <= i < |r| ==>
      Xor(r[i], c.key[i % |c.key|]) == |r| - |plaintext|
  {
    var padded := Pad(c.scheme, plaintext);
    assert forall i :: 0 <= i < |plaintext| ==> padded[i] == plaintext[i];
    var r := Combine(c.key, padded);
    forall i | |plaintext| <= i < |r|
      ensures Xor(r[i], c.key[i % |c.key|]) == |r| - |plaintext|
    {
      var k := c.key[i % |c.key|];
      assert r[i] == Xor(padded[i], k);
      XorTwice(padded[i], k);
      assert padded[i] == |padded| - |plaintext|;
    }
    r
  }

  /** Decrypt binary data: combine with the key, then unpad. Under PKCS7 it
      fails exactly when the ciphertext is empty or its last byte, once
      combined, exceeds the ciphertext length. */
  function Decrypt(c: Cipher, ciphertext: seq<byte>): (r: Result<seq<byte>>)
    ensures c.scheme == NONE ==> r.Success? && |r.value| == |ciphertext|
    ensures c.scheme == PKCS7 ==>
      var n := |ciphertext|;
      (r.Failure? <==> n == 0 || Xor(ciphertext[n - 1], c.key[(n - 1) % |c.key|]) > n)
    ensures r.Failure? ==> r.error == InvalidPadding
    ensures c.scheme == PKCS7 && r.Success? ==>
      var n := |ciphertext|;
      |r.value| == n - Xor(ciphertext[n - 1], c.key[(n - 1) % |c.key|])
    ensures r.Success? ==>
      && |r.value| <= |ciphertext|
      && forall i :: 0 <= i < |r.value| ==> r.value[i] == Xor(ciphertext[i], c.key[i % |c.key|])
  {
    var combined := Combine(c.key, ciphertext);
    var r := Unpad(c.scheme, combined);
    assert r.Success? ==> combined[..|r.value|] == r.value;
    r
  }

  /** Decryption undoes encryption for every plaintext, the empty one
      included, under both padding schemes. */
  lemma DecryptEncrypt(c: Cipher, plaintext: seq<byte>)
    ensures Decrypt(c, Encrypt(c, plaintext)) == Success(plaintext)
  {
    CombineSelfInverse(c.key, Pad(c.scheme, plaintext));
    UnpadPad(c.scheme, plaintext);
  }

  /** Encrypt text: the `std::string` overload, over characters. It yields
      exactly the bytes the binary overload yields. */
  function EncryptText(c: Cipher, plaintext: seq<char>): (r: seq<char>)
    requires IsByteText(plaintext)
    ensures IsByteText(r)
    ensures ToBytes(r) == Encrypt(c, ToBytes(plaintext))
  {
    CombineText(c.key, PadText(c.scheme, plaintext))
  }

  /** Decrypt text: the `std::string` overload, over characters. It fails
      exactly when the binary overload fails, with the same error, and
      otherwise yields the same bytes. */
  function DecryptText(c: Cipher, ciphertext: seq<char>): (r: Result<seq<char>>)
    requires IsByteText(ciphertext)
    ensures r.Failure? <==> Decrypt(c, ToBytes(ciphertext)).Failure?
    ensures r.Failure? ==> r.error == InvalidPadding
    ensures r.Success? ==>
      IsByteText(r.value) && ToBytes(r.value) == Decrypt(c, ToBytes(ciphertext)).value
  {
    UnpadText(c.scheme, CombineText(c.key, ciphertext))
  }

  /** Text decryption undoes text encryption. */
  lemma DecryptTextEncryptText(c: Cipher, plaintext: seq<char>)
    requires IsByteText(plaintext)
    ensures DecryptText(c, EncryptText(c, plaintext)) == Success(plaintext)
  {
    var ct := EncryptText(c, plaintext);
    DecryptEncrypt(c, ToBytes(plaintext));
    var r := DecryptText(c, ct);
    assert r.Success?;
    ToBytesInjective(r.value, plaintext);
  }
}
