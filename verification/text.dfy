/** The `std::string` overloads of combine, pad and unpad, written over
    characters as the source writes them. Each one's contract states that it
    computes exactly the bytes the `std::vector<unsigned char>` overload
    computes. */
module TextCipher {
  import opened Bytes
  import opened Results
  import opened XorCombine
  import opened Padding

  /** XOR each character's byte with the cyclic key, appending one character
      per input character. */
  function CombineText(key: seq<byte>, s: seq<char>): (r: seq<char>)
    requires |key| > 0 && IsByteText(s)
    ensures IsByteText(r) && |r| == |s|
    ensures ToBytes(r) == Combine(key, ToBytes(s))
    decreases |s|
  {
    if |s| == 0 then []
    else
      var n := |s| - 1;
      ToBytesPrefix(s, n);
      CombineText(key, s[..n]) + [Xor(s[n] as int, key[n % |key|]) as char]
  }

  /** Append `padLen` characters of value `padLen` under PKCS7. */
  function PadText(scheme: PaddingScheme, s: seq<char>): (r: seq<char>)
    requires IsByteText(s)
    ensures IsByteText(r)
    ensures ToBytes(r) == Pad(scheme, ToBytes(s))
  {
    match scheme
    case NONE => s
    case PKCS7 =>
      var p := PadLength(|s|);
      s + seq(p, _ => p as char)
  }

  /** Read the last character as an unsigned byte and drop that many
      characters, failing when it exceeds the length or the text is empty. */
  function UnpadText(scheme: PaddingScheme, s: seq<char>): (r: Result<seq<char>>)
    requires IsByteText(s)
    ensures r.Failure? <==> Unpad(scheme, ToBytes(s)).Failure?
    ensures r.Failure? ==> r.error == InvalidPadding
    ensures r.Success? ==> IsByteText(r.value) && ToBytes(r.value) == Unpad(scheme, ToBytes(s)).value
  {
    match scheme
    case NONE => Success(s)
    case PKCS7 =>
      if |s| == 0 then Failure(InvalidPadding)
      else
        var p := s[|s| - 1] as int;
        if p > |s| then Failure(InvalidPadding)
        else
          ToBytesPrefix(s, |s| - p);
          Success(s[..|s| - p])
  }
}
