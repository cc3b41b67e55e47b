/** Copying bytes. */
module Memory {
  import opened Bytes

  /** b is a with data[pos..pos + n] written at index at. */
  ghost predicate Written(a: seq<byte>, b: seq<byte>, at: nat, data: seq<byte>, pos: nat, n: nat) {
    && |b| == |a| && at + n <= |a| && pos + n <= |data|
    && forall k :: 0 <= k < |a| ==> b[k] == if at <= k < at + n then data[pos + (k - at)] else a[k]
  }

  lemma WrittenTwice(a: seq<byte>, b: seq<byte>, c: seq<byte>, at: nat, data: seq<byte>, pos: nat, m: nat, n: nat)
    requires Written(a, b, at, data, pos, m) && Written(b, c, at + m, data, pos + m, n)
    ensures Written(a, c, at, data, pos, m + n)
  {
  }

  /** memcpy of a piece of the stream */
  method Copy(dst: array<byte>, at: nat, piece: seq<byte>, ghost data: seq<byte>, ghost pos: nat)
    requires at + |piece| <= dst.Length && pos + |piece| <= |data| && data[pos..pos + |piece|] == piece
    modifies dst
    ensures Written(old(dst[..]), dst[..], at, data, pos, |piece|)
  {
    var i := 0;
    while i < |piece|
      invariant i <= |piece|
      invariant forall k :: 0 <= k < dst.Length ==>
        dst[k] == if at <= k < at + i then data[pos + (k - at)] else old(dst[k])
    {
      assert piece[i] == data[pos + i];
      dst[at + i] := piece[i];
      i := i + 1;
    }
  }
}
