/** The XOR combine step shared by every encrypt and decrypt entry point:
    byte `i` of the output is byte `i` of the input XOR-ed with key byte
    `i mod |key|`, the key being repeated cyclically. */
module XorCombine {
  import opened Bytes
  import opened Results

  /** Combine `data` with the cyclically repeated `key`. Like the source's
      loops, the output is built by appending one combined byte per input
      byte, front to back. */
  function Combine(key: seq<byte>, data: seq<byte>): (r: seq<byte>)
    requires |key| > 0
    ensures |r| == |data|
    ensures forall i :: 0 <= i < |data| ==> r[i] == Xor(data[i], key[i % |key|])
    decreases |data|
  {
    if |data| == 0 then []
    else
      var n := |data| - 1;
      Combine(key, data[..n]) + [Xor(data[n], key[n % |key|])]
  }

  /** Combine is its own inverse: the decrypt loop undoes the encrypt loop. */
  lemma CombineSelfInverse(key: seq<byte>, data: seq<byte>)
    requires |key| > 0
    ensures Combine(key, Combine(key, data)) == data
  {
    var once := Combine(key, data);
    var twice := Combine(key, once);
    forall i | 0 <= i < |data|
      ensures twice[i] == data[i]
    {
      XorTwice(data[i], key[i % |key|]);
    }
  }

  /** The combine loop read literally: it evaluates `i % key.size()` for every
      index, which divides by zero when the key is empty and the data is not. */
  function CombineAsWritten(key: seq<byte>, data: seq<byte>): (r: Behaviour<seq<byte>>)
    ensures r.Undefined? <==> |key| == 0 && |data| > 0
    ensures r.Defined? ==> |r.outcome| == |data|
    ensures r.Defined? && |key| > 0 ==>
      forall i :: 0 <= i < |data| ==> r.outcome[i] == Xor(data[i], key[i % |key|])
  {
    if |data| == 0 then Defined([])
    else if |key| == 0 then Undefined
    else Defined(Combine(key, data))
  }
}
