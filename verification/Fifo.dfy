/** The fixed-size ring of bytes between a source and a destination. */
module Fifo {

  import opened Bytes

  /** What the operating system says to a read: bytes (none at the end of the input) or an error. */
  datatype ReadResult = Data(bytes: seq<Byte>) | ReadError(errno: int)

  /** What it says to a write: how many bytes it took, or an error. */
  datatype WriteResult = Took(count: nat) | WriteError(errno: int)

  function Min(a: int, b: int): int {
    if a < b then a else b
  }

  /** A position that may have run past the end once. */
  function Wrap(i: nat, size: nat): int {
    if i < size then i else i - size
  }

  /** n bytes from position r on, around the end. */
  ghost function Window(b: seq<Byte>, r: nat, n: nat): (w: seq<Byte>)
    requires r <= |b| && n <= |b|
    ensures |w| == n && forall i {:trigger w[i]} :: 0 <= i < n ==> w[i] == b[Wrap(r + i, |b|)]
  {
    if r + n <= |b| then b[r..r + n] else b[r..] + b[..r + n - |b|]
  }

  /** b with x written over it at a position. */
  ghost function Over(b: seq<Byte>, pos: nat, x: seq<Byte>): (c: seq<Byte>)
    requires pos + |x| <= |b|
    ensures |c| == |b|
    ensures forall k {:trigger c[k]} :: 0 <= k < |b| ==> c[k] == if pos <= k < pos + |x| then x[k - pos] else b[k]
  {
    b[..pos] + x + b[pos + |x|..]
  }

  /** Bytes written behind a window, up to the end and from the start on, extend it. */
  lemma Appended(b: seq<Byte>, r: nat, n: nat, data: seq<Byte>, first: nat)
    requires r <= |b| && (|b| > 0 ==> r < |b|) && n + |data| <= |b|
    requires first == Min(|data|, |b| - Wrap(r + n, |b|))
    ensures Window(Over(Over(b, Wrap(r + n, |b|), data[..first]), 0, data[first..]), r, n + |data|) ==
            Window(b, r, n) + data
  {
    hide Over, Window;
    var c := Over(Over(b, Wrap(r + n, |b|), data[..first]), 0, data[first..]);
    var w, v := Window(c, r, n + |data|), Window(b, r, n) + data;
    forall i | 0 <= i < |w| ensures w[i] == v[i] {
      assert w[i] == c[Wrap(r + i, |c|)];
      if i < n { assert v[i] == Window(b, r, n)[i]; } else { assert v[i] == data[i - n]; }
    }
  }

  /** A window is its first part and the window behind that. */
  lemma Parts(b: seq<Byte>, r: nat, n: nat, k: nat)
    requires r <= |b| && k <= n <= |b| && (r < |b| || n == 0)
    ensures Wrap(r + k, |b|) <= |b|
    ensures Window(b, r, n)[..k] == Window(b, r, k) && Window(b, r, n)[k..] == Window(b, Wrap(r + k, |b|), n - k)
  {
    var w, v := Window(b, r, n)[k..], Window(b, Wrap(r + k, |b|), n - k);
    forall i | 0 <= i < n - k ensures w[i] == v[i] {
      assert w[i] == Window(b, r, n)[k + i];
    }
  }

  class FifoBuffer {
    var base: array<Byte>
    var headW: nat
    var headR: nat
    var use: nat

    constructor (size: nat)
      ensures Valid() && fresh(base) && base.Length == size && Contents() == []
    {
      base := new Byte[size](_ => 0);
      headW, headR, use := 0, 0, 0;
    }

    ghost predicate Valid()
      reads this, base
    {
      use <= base.Length && headR <= base.Length && (base.Length > 0 ==> headR < base.Length)
      && headW == Wrap(headR + use, base.Length)
    }

    /** The bytes in the order they were read. */
    ghost function Contents(): (s: seq<Byte>)
      reads this, base
      requires Valid()
      ensures |s| == use
    {
      Window(base[..], headR, use)
    }

    function Free(): nat
      reads this, base
      requires Valid()
    {
      base.Length - use
    }

    method Clear()
      modifies this
      ensures Valid() && Contents() == [] && base == old(base)
    {
      use, headW, headR := 0, 0, 0;
    }

    /** Only an empty buffer can be resized. */
    method ResizeBuf(size: nat)
      requires Valid() && use == 0
      modifies this
      ensures Valid() && fresh(base) && base.Length == size && Contents() == []
    {
      base := new Byte[size](_ => 0);
      headW, headR := 0, 0;
    }

    /** Copy some bytes to a place in the buffer. */
    method CopyIn(pos: nat, data: seq<Byte>)
      requires pos + |data| <= base.Length
      modifies base
      ensures base[..] == Over(old(base[..]), pos, data)
    {
      var i := 0;
      while i < |data|
        invariant i <= |data|
        invariant forall k {:trigger base[k]} :: 0 <= k < base.Length ==>
                  base[k] == if pos <= k < pos + i then data[k - pos] else old(base[k])
      {
        base[pos + i] := data[i];
        i := i + 1;
      }
    }

    /** Put bytes behind the contents, in one or two pieces. */
    method Fill(data: seq<Byte>)
      requires Valid() && use + |data| <= base.Length
      modifies base
      ensures use == old(use) && headR == old(headR)
      ensures Window(base[..], headR, use + |data|) == old(Contents()) + data
    {
      hide Window, Over;
      var first := Min(|data|, base.Length - headW);
      Appended(base[..], headR, use, data, first);
      CopyIn(headW, data[..first]);
      CopyIn(0, data[first..]);
    }

    /** How many bytes a call with this limit asks for; 0 is no limit. */
    function Room(maxlen: nat): nat
      reads this, base
      requires Valid()
    {
      if maxlen > 0 && Free() > maxlen then maxlen else Free()
    }

    /** Read from a descriptor, which gives no more than it is asked for. */
    method ReadFD(maxlen: nat, io: ReadResult) returns (rd: int)
      requires Valid() && (io.Data? ==> |io.bytes| <= Room(maxlen))
      modifies this, base
      ensures Valid() && base == old(base)
      ensures rd == if io.Data? then |io.bytes| else -1
      ensures Contents() == old(Contents()) + if io.Data? then io.bytes else []
    {
      if io.ReadError? { return -1; }
      Fill(io.bytes);
      rd := |io.bytes|;
      if rd > 0 {
        var toEnd := base.Length - headW;
        if rd < toEnd { headW := headW + rd; } else { headW := rd - toEnd; }
        use := use + rd;
      }
    }

    /** Copy from a buffer what fits. The value returned is the number of bytes put behind the end. */
    method ReadBuf(ibuf: seq<Byte>) returns (r: nat)
      requires Valid()
      modifies this, base
      ensures Valid() && base == old(base)
      ensures var n := Min(old(Free()), |ibuf|); Contents() == old(Contents()) + ibuf[..n]
      ensures var n, room := Min(old(Free()), |ibuf|), base.Length - old(headW); r == if room <= n then n - room else n
    {
      var avail := base.Length - use;
      if avail > |ibuf| { avail := |ibuf|; }
      var tailRoom := base.Length - headW;
      Fill(ibuf[..avail]);
      use := use + avail;
      if tailRoom <= avail {
        headW := 0;
        avail := avail - tailRoom;
      }
      headW := headW + avail;
      r := avail;
    }

    /** Bytes from the front of the contents, in one or two pieces. */
    method Peek(n: nat) returns (out: seq<Byte>)
      requires Valid() && n <= use
      ensures out == Contents()[..n]
    {
      Parts(base[..], headR, use, n);
      var first := Min(n, base.Length - headR);
      out := base[headR..headR + first] + base[..n - first];
    }

    /** Write to a descriptor, which takes no more than it is given. */
    method WriteFD(maxlen: nat, io: WriteResult) returns (wr: int, out: seq<Byte>)
      requires Valid() && (io.Took? ==> io.count <= (if maxlen > 0 && use > maxlen then maxlen else use))
      modifies this
      ensures Valid() && base == old(base)
      ensures wr == if io.Took? then io.count else -1
      ensures io.WriteError? ==> out == [] && Contents() == old(Contents())
      ensures io.Took? ==> out == old(Contents())[..wr] && Contents() == old(Contents())[wr..]
    {
      hide Window;
      if io.WriteError? { return -1, []; }
      wr := io.count;
      out := Peek(wr);
      Parts(base[..], headR, use, wr);
      if wr > 0 {
        var toEnd := base.Length - headR;
        if wr < toEnd { headR := headR + wr; } else { headR := wr - toEnd; }
        use := use - wr;
        if use == 0 { headR, headW := 0, 0; }
      }
    }

    /** Copy to a buffer, or skip. The value returned is the number of bytes taken from behind the end. */
    method WriteBuf(obuflen: nat) returns (out: seq<Byte>, r: nat)
      requires Valid()
      modifies this
      ensures Valid() && base == old(base)
      ensures var n := Min(old(use), obuflen); out == old(Contents())[..n] && Contents() == old(Contents())[n..]
      ensures var n, room := Min(old(use), obuflen), base.Length - old(headR); r == if room <= n then n - room else n
    {
      hide Window;
      var avail := Min(use, obuflen);
      out := Peek(avail);
      Parts(base[..], headR, use, avail);
      var tailRoom := base.Length - headR;
      use := use - avail;
      if tailRoom <= avail {
        headR := 0;
        avail := avail - tailRoom;
      }
      headR := headR + avail;
      r := avail;
      if use == 0 { headR, headW := 0, 0; }
    }
  }
}
