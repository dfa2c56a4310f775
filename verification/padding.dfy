/** Block padding as the cipher applies it: PKCS #7 style padding
    (section 6.3 of RFC 5652) to a 16-byte block, with the source's lax
    unpadding, or no padding at all. */
module Padding {
  import opened Bytes
  import opened Results

  /** The two padding schemes a cipher can be built with. */
  datatype PaddingScheme = NONE | PKCS7

  const BlockSize: nat := 16

  /** Number of bytes PKCS7 padding appends to an input of length `n`. */
  function PadLength(n: nat): (p: nat)
    ensures 1 <= p <= BlockSize
    ensures (n + p) % BlockSize == 0
    ensures n % BlockSize == 0 ==> p == BlockSize
  {
    BlockSize - n % BlockSize
  }

  /** PadLength is the least positive count that reaches a block boundary. */
  lemma PadLengthLeast(n: nat, q: nat)
    requires 0 < q < PadLength(n)
    ensures (n + q) % BlockSize != 0
  {
  }

  /** Pad `input` under `scheme`. */
  function Pad(scheme: PaddingScheme, input: seq<byte>): (r: seq<byte>)
    ensures scheme == NONE ==> r == input
    ensures scheme == PKCS7 ==>
      && |r| % BlockSize == 0
      && |input| < |r| <= |input| + BlockSize
      && (|input| % BlockSize == 0 ==> |r| == |input| + BlockSize)
      && r[..|input|] == input
      && forall i :: |input| <= i < |r| ==> r[i] == |r| - |input|
  {
    match scheme
    case NONE => input
    case PKCS7 =>
      var p := PadLength(|input|);
      input + seq(p, _ => p)
  }

  /** Remove padding from `input` under `scheme`. Under PKCS7 the last byte
      is read as the pad length; the only check is that it does not exceed
      the buffer, so a last byte of 0 removes nothing and the other padding
      bytes are never inspected. An empty buffer has no last byte and fails. */
  function Unpad(scheme: PaddingScheme, input: seq<byte>): (r: Result<seq<byte>>)
    ensures scheme == NONE ==> r == Success(input)
    ensures scheme == PKCS7 ==>
      (r.Failure? <==> |input| == 0 || input[|input| - 1] > |input|)
    ensures r.Failure? ==> r.error == InvalidPadding
    ensures scheme == PKCS7 && r.Success? ==>
      && |r.value| <= |input|
      && input[..|r.value|] == r.value
      && |input| - |r.value| == input[|input| - 1]
  {
    match scheme
    case NONE => Success(input)
    case PKCS7 =>
      if |input| == 0 then Failure(InvalidPadding)
      else
        var p := input[|input| - 1];
        if p > |input| then Failure(InvalidPadding)
        else Success(input[..|input| - p])
  }

  /** Unpadding undoes padding, for every input (the empty one included)
      under both schemes. */
  lemma UnpadPad(scheme: PaddingScheme, x: seq<byte>)
    ensures Unpad(scheme, Pad(scheme, x)) == Success(x)
  {
  }

  /** A last byte of 0 is accepted and leaves the buffer unchanged. */
  lemma UnpadZero(input: seq<byte>)
    requires |input| > 0 && input[|input| - 1] == 0
    ensures Unpad(PKCS7, input) == Success(input)
  {
    assert input[..|input|] == input;
  }

  /** The padding bytes before the last one are not checked: any bytes
      followed by a last byte whose value fits are stripped. */
  lemma UnpadIgnoresOtherPadBytes(body: seq<byte>, junk: seq<byte>, last: byte)
    requires last == |junk| + 1
    ensures Unpad(PKCS7, body + junk + [last]) == Success(body)
  {
    var input := body + junk + [last];
    assert input[|input| - 1] == last;
    assert input[..|input| - last] == body;
  }

  /** Unpadding read literally: `input.back()` on an empty buffer is
      undefined behaviour; everywhere else it agrees with Unpad. */
  function UnpadAsWritten(scheme: PaddingScheme, input: seq<byte>): (r: Behaviour<Result<seq<byte>>>)
    ensures r.Undefined? <==> scheme == PKCS7 && |input| == 0
    ensures r.Defined? && scheme == NONE ==> r.outcome == Success(input)
    ensures r.Defined? && scheme == PKCS7 ==>
      (r.outcome.Failure? <==> input[|input| - 1] > |input|)
    ensures r.Defined? && scheme == PKCS7 && r.outcome.Success? ==>
      r.outcome.value == input[..|input| - input[|input| - 1]]
    ensures r.Defined? ==> r.outcome == Unpad(scheme, input)
  {
    if scheme == PKCS7 && |input| == 0 then Undefined
    else Defined(Unpad(scheme, input))
  }

  /** The guarded Unpad fails on the empty buffer where the source reads
      past the end. */
  lemma UnpadEmptyFails()
    ensures UnpadAsWritten(PKCS7, []).Undefined?
    ensures Unpad(PKCS7, []) == Failure(InvalidPadding)
  {
  }
}
