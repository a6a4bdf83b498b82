/** Bytes, as the C code sees unsigned chars, and a buffer that is filled from the front. */
module Bytes {
  type Byte = x: int | 0 <= x < 256

  /** The buffer now starts with this text; the rest is as before. */
  ghost predicate Written(out: array<Byte>, text: seq<Byte>, before: seq<Byte>)
    reads out
  {
    |text| <= out.Length == |before| && out[..] == text + before[|text|..]
  }

  /** Store some characters at the output pointer. */
  method Put(out: array<Byte>, pos: nat, q: seq<Byte>, ghost text: seq<Byte>, ghost before: seq<Byte>)
    requires Written(out, text, before) && pos == |text| && pos + |q| <= out.Length
    modifies out
    ensures Written(out, text + q, before)
  {
    var i := 0;
    while i < |q|
      invariant i <= |q|
      invariant forall k {:trigger out[k]} :: 0 <= k < out.Length ==>
                out[k] == if pos <= k < pos + i then q[k - pos] else old(out[k])
    {
      out[pos + i] := q[i];
      i := i + 1;
    }
    ghost var w := text + q + before[pos + |q|..];
    assert |w| == out.Length && forall k {:trigger w[k]} :: 0 <= k < |w| ==> w[k] == out[k];
  }

  lemma WrittenNothing(out: array<Byte>)
    ensures Written(out, [], out[..])
  {
  }

  lemma WrittenIs(out: array<Byte>, text: seq<Byte>, before: seq<Byte>)
    requires Written(out, text, before)
    ensures |text| <= out.Length == |before| && out[..|text|] == text && out[|text|..] == before[|text|..]
  {
  }
}
