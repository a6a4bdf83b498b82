/** Streaming base64 encoding. */
module Base64Enc {
  import opened Bytes

  const NEWLINE: Byte := 10
  const END_CHAR: Byte := 61
  /** The column counter has 14 bits in the state. */
  const MAX_WIDTH := 16384

  type Sextet = x: int | 0 <= x < 64

  function Char(v: Sextet): Byte {
    if v < 26 then 65 + v else if v < 52 then 97 + (v - 26) else if v < 62 then 48 + (v - 52) else if v == 62 then 43
    else 47
  }

  function Capitals(): string { "ABCDEFGHIJKLMNOPQRSTUVWXYZ" }

  function Smalls(): string { "abcdefghijklmnopqrstuvwxyz" }

  function Others(): string { "0123456789+/" }

  function Alphabet(): string {
    Capitals() + Smalls() + Others()
  }

  lemma CapitalsRun(i: int)
    ensures |Capitals()| == 26 && (0 <= i < 26 ==> Capitals()[i] as int == 65 + i)
  {
  }

  lemma SmallsRun(i: int)
    ensures |Smalls()| == 26 && (0 <= i < 26 ==> Smalls()[i] as int == 97 + i)
  {
  }

  lemma OthersRun(i: int)
    ensures |Others()| == 12 && (0 <= i < 10 ==> Others()[i] as int == 48 + i)
    ensures Others()[10] == '+' && Others()[11] == '/'
  {
  }

  /** The characters are those of the alphabet, in its order. */
  lemma AlphabetIs(v: Sextet)
    ensures |Alphabet()| == 64 && Alphabet()[v] as int == Char(v)
  {
    hide Capitals, Smalls, Others;
    var i: int := v;
    CapitalsRun(i);
    SmallsRun(i - 26);
    OthersRun(i - 52);
    assert i < 26 ==> Alphabet()[i] == Capitals()[i];
    assert 26 <= i < 52 ==> Alphabet()[i] == Smalls()[i - 26];
    assert 52 <= i ==> Alphabet()[i] == Others()[i - 52];
  }

  /** Four characters for three bytes. */
  function Quad(a: Byte, b: Byte, c: Byte): (q: seq<Byte>)
    ensures |q| == 4
  {
    [Char(a / 4), Char(a % 4 * 16 + b / 16), Char(b % 16 * 4 + c / 64), Char(c % 64)]
  }

  /** What is carried from one call to the next: up to two bytes and the number of quartets on the line. */
  datatype Enc = Enc(carry: seq<Byte>, col: nat)

  ghost predicate Valid(e: Enc, lwidth: nat) {
    |e.carry| <= 2 && e.col < MAX_WIDTH && (lwidth > 0 ==> e.col < lwidth)
  }

  const START := Enc([], 0)

  /** Bytes as one number. */
  function Value(s: seq<Byte>): nat {
    if s == [] then 0 else Value(s[..|s| - 1]) * 256 + s[|s| - 1]
  }

  /** The state word: 16 bits of bytes, 2 bits for their number, 14 bits for the column. */
  function Pack(e: Enc): nat {
    e.col * 262144 + |e.carry| * 65536 + Value(e.carry)
  }

  lemma ValueBound(s: seq<Byte>)
    requires |s| <= 2
    ensures Value(s) < 65536 && (s == [] ==> Value(s) == 0) && (|s| == 1 ==> Value(s) == s[0])
    ensures |s| == 2 ==> Value(s) == 256 * (s[0] as int) + s[1]
  {
    if |s| == 2 { assert s[..1][..0] == []; }
  }

  /** No bit of the carry is lost in the 32-bit state. */
  lemma PackFits(e: Enc, lwidth: nat)
    requires Valid(e, lwidth)
    ensures Pack(e) < 0x1_0000_0000
    ensures Pack(e) % 65536 == Value(e.carry) && Pack(e) / 65536 % 4 == |e.carry| && Pack(e) / 262144 == e.col
  {
    ValueBound(e.carry);
    Fields(e.col, |e.carry|, Value(e.carry));
  }

  lemma Fields(col: nat, n: nat, v: nat)
    requires col < 16384 && n < 4 && v < 65536
    ensures var w := col * 262144 + n * 65536 + v;
            w < 0x1_0000_0000 && w % 65536 == v && w / 65536 % 4 == n && w / 262144 == col
  {
    var w := col * 262144 + n * 65536 + v;
    assert w / 65536 == 4 * col + n;
  }

  // ----- the text of a stream

  datatype Fed = Fed(state: Enc, text: seq<Byte>)

  /** One more byte. */
  function Feed(e: Enc, b: Byte, lwidth: nat): Fed {
    if |e.carry| != 2 then Fed(Enc(e.carry + [b], e.col), [])
    else
      var q := Quad(e.carry[0], e.carry[1], b);
      if lwidth == 0 then Fed(Enc([], e.col), q)
      else if e.col + 1 == lwidth then Fed(Enc([], 0), q + [NEWLINE])
      else Fed(Enc([], e.col + 1), q)
  }

  function FeedAll(e: Enc, s: seq<Byte>, lwidth: nat): Fed {
    if s == [] then Fed(e, [])
    else
      var r := FeedAll(e, s[..|s| - 1], lwidth);
      var f := Feed(r.state, s[|s| - 1], lwidth);
      Fed(f.state, r.text + f.text)
  }

  /** What is left, and the end character. */
  function Tail(carry: seq<Byte>): seq<Byte> {
    if |carry| == 1 then [Char(carry[0] / 4), Char(carry[0] % 4 * 16), END_CHAR]
    else if |carry| == 2 then
      [Char(carry[0] / 4), Char(carry[0] % 4 * 16 + carry[1] / 16), Char(carry[1] % 16 * 4), END_CHAR]
    else [END_CHAR]
  }

  /** The text of a whole message. */
  function Encoded(s: seq<Byte>, lwidth: nat): seq<Byte> {
    var r := FeedAll(START, s, lwidth);
    r.text + Tail(r.state.carry)
  }

  lemma {:induction false} FeedKeeps(e: Enc, s: seq<Byte>, lwidth: nat)
    requires Valid(e, lwidth) && lwidth <= MAX_WIDTH
    ensures Valid(FeedAll(e, s, lwidth).state, lwidth)
  {
    if s == [] {
    } else {
      FeedKeeps(e, s[..|s| - 1], lwidth);
    }
  }

  lemma {:induction false} FeedGrows(e: Enc, s: seq<Byte>, i: nat, lwidth: nat)
    requires i <= |s|
    ensures |FeedAll(e, s[..i], lwidth).text| <= |FeedAll(e, s, lwidth).text|
    decreases |s|
  {
    if i == |s| {
      assert s[..i] == s;
    } else {
      assert s[..|s| - 1][..i] == s[..i];
      FeedGrows(e, s[..|s| - 1], i, lwidth);
    }
  }

  /** Feeding in pieces is feeding at once. */
  lemma {:induction false} FeedSplit(e: Enc, a: seq<Byte>, b: seq<Byte>, lwidth: nat)
    ensures var r := FeedAll(e, a, lwidth); var q := FeedAll(r.state, b, lwidth);
            FeedAll(e, a + b, lwidth) == Fed(q.state, r.text + q.text)
    decreases |b|
  {
    hide Feed;
    if b == [] {
      assert a + b == a;
    } else {
      FeedSplit(e, a, b[..|b| - 1], lwidth);
      assert (a + b)[..|a + b| - 1] == a + b[..|b| - 1];
    }
  }

  /** Four sextets in one number come apart again. */
  lemma Digits(w: Sextet, x: Sextet, y: Sextet, z: Sextet, acc: nat)
    requires acc == 262144 * (w as int) + 4096 * (x as int) + 64 * (y as int) + z
    ensures acc / 262144 % 64 == w && acc / 4096 % 64 == x && acc / 64 % 64 == y && acc % 64 == z
  {
    assert acc / 64 == 4096 * (w as int) + 64 * (x as int) + y;
    assert acc / 4096 == 64 * (w as int) + x;
    assert acc / 262144 == w;
  }

  /** The shifts and masks on the 24-bit accumulator. */
  lemma QuadBits(a: Byte, b: Byte, c: Byte, acc: nat)
    requires acc == 65536 * (a as int) + 256 * (b as int) + c
    ensures Quad(a, b, c) == [Char(acc / 262144 % 64), Char(acc / 4096 % 64), Char(acc / 64 % 64), Char(acc % 64)]
  {
    hide Char;
    Digits(a / 4, a % 4 * 16 + b / 16, b % 16 * 4 + c / 64, c % 64, acc);
  }

  /** The characters of the rest of one or two bytes and the end character. */
  function Rest(acc: nat, ai: nat): seq<Byte> {
    if ai == 1 then [Char(acc / 4 % 64), Char(acc * 16 % 64), END_CHAR]
    else if ai == 2 then [Char(acc / 1024 % 64), Char(acc / 16 % 64), Char(acc * 4 % 64), END_CHAR]
    else [END_CHAR]
  }

  lemma RestSize(acc: nat, ai: nat)
    requires ai <= 2
    ensures |Rest(acc, ai)| == if ai == 0 then 1 else ai + 2
  {
  }

  lemma RestIsTail(carry: seq<Byte>)
    requires |carry| <= 2
    ensures Rest(Value(carry), |carry|) == Tail(carry)
  {
    ValueBound(carry);
    hide Value, Char;
    if |carry| == 1 {
      OneBits(carry[0]);
    } else if |carry| == 2 {
      TailBits(carry, Value(carry));
    }
  }

  lemma OneBits(c: Byte)
    ensures (c as int) / 4 % 64 == c / 4 && (c as int) * 16 % 64 == c % 4 * 16
  {
  }

  lemma TailBits(carry: seq<Byte>, acc: nat)
    requires |carry| == 2 && acc == 256 * (carry[0] as int) + carry[1]
    ensures acc / 1024 % 64 == carry[0] / 4 && acc / 16 % 64 == carry[0] % 4 * 16 + carry[1] / 16
    ensures acc * 4 % 64 == carry[1] % 16 * 4
  {
    assert acc / 16 == 16 * (carry[0] as int) + carry[1] / 16;
  }

  lemma ValuePush(s: seq<Byte>, b: Byte)
    ensures Value(s + [b]) == Value(s) * 256 + b
  {
    assert (s + [b])[..|s|] == s;
  }

  /** Encode some bytes into the output buffer. With a state, only an empty input ends the text; without one, every
      call does. The result is the number of characters, or -4 if the buffer is too small. At the end, a text of whole
      quartets needs room for one character more than it has. */
  method Base64Encode(input: seq<Byte>, out: array<Byte>, hasState: bool, state: nat, lwidth: nat, ghost e: Enc)
      returns (rv: int, next: nat)
    requires lwidth <= MAX_WIDTH && Valid(e, lwidth) && (if hasState then state == Pack(e) else e == START)
    modifies out
    ensures var r := FeedAll(e, input, lwidth);
            if hasState && input != []
            then
              if |r.text| <= out.Length then rv == |r.text| && out[..rv] == r.text && next == Pack(r.state)
              else rv == -4 && next == state
            else
              if |r.text| + |r.state.carry| + 2 <= out.Length
              then rv == |r.text + Tail(r.state.carry)| <= out.Length && out[..rv] == r.text + Tail(r.state.carry)
              else rv == -4
    ensures rv >= 0 ==> rv <= out.Length && out[rv..] == old(out[..])[rv..]
    ensures hasState && input == [] ==> next == 0
  {
    hide Feed, Tail, Rest, Quad, Value, Char, Bytes.Written;
    ghost var before := out[..];
    WrittenNothing(out);
    PackFits(e, lwidth);
    ValueBound([]);
    next := state;
    var acc, ai, ci := 0, 0, 0;
    if hasState { acc, ai, ci := state % 65536, state / 65536 % 4, state / 262144; }
    ghost var r := Fed(e, []);
    var pos, i := 0, 0;
    while i < |input|
      invariant i <= |input| && r == FeedAll(e, input[..i], lwidth) && Valid(r.state, lwidth)
      invariant acc == Value(r.state.carry) && ai == |r.state.carry| && ci == r.state.col
      invariant pos == |r.text| <= out.Length && Written(out, r.text, before)
    {
      ghost var f := Feed(r.state, input[i], lwidth);
      assert input[..i + 1][..i] == input[..i];
      FeedGrows(e, input, i + 1, lwidth);
      ValuePush(r.state.carry, input[i]);
      ValueBound(r.state.carry);
      acc := acc * 256 + input[i];
      ai := ai + 1;
      if ai == 3 {
        FeedFull(r.state, input[i], lwidth);
        if pos + 4 > out.Length { return -4, next; }
        QuadBits(r.state.carry[0], r.state.carry[1], input[i], acc);
        Put(out, pos, [Char(acc / 262144 % 64), Char(acc / 4096 % 64), Char(acc / 64 % 64), Char(acc % 64)],
            r.text, before);
        pos := pos + 4;
        ai, acc := 0, 0;
        if lwidth > 0 {
          ci := ci + 1;
          if ci == lwidth {
            if pos >= out.Length { return -4, next; }
            Put(out, pos, [NEWLINE], r.text + Quad(r.state.carry[0], r.state.carry[1], input[i]), before);
            pos := pos + 1;
            ci := 0;
          }
        }
      } else {
        FeedShort(r.state, input[i], lwidth);
      }
      StepJoined(r.text, f.text, r.state, input[i]);
      r := Fed(f.state, r.text + f.text);
      i := i + 1;
    }
    assert input[..i] == input;
    if hasState && input != [] {
      PackFits(r.state, lwidth);
      WrittenIs(out, r.text, before);
      return pos, ci * 262144 + ai * 65536 + acc;
    }
    if hasState { next := 0; }
    rv := PutTail(out, pos, acc, ai, r.text, r.state.carry, before);
  }

  /** Put what is left and the end character. */
  method PutTail(out: array<Byte>, pos: nat, acc: nat, ai: nat, ghost text: seq<Byte>, ghost carry: seq<Byte>,
          ghost before: seq<Byte>) returns (rv: int)
    requires pos == |text| <= out.Length == |before| && Written(out, text, before)
    requires ai == |carry| <= 2 && acc == Value(carry)
    modifies out
    ensures if |text| + |carry| + 2 <= out.Length
            then
              rv == |text + Tail(carry)| <= out.Length && out[..rv] == text + Tail(carry) && out[rv..] == before[rv..]
            else rv == -4
  {
    hide Tail, Rest, Value, Bytes.Written;
    if out.Length - pos < ai + 2 { return -4; }
    RestSize(acc, ai);
    RestIsTail(carry);
    var tail := Rest(acc, ai);
    Put(out, pos, tail, text, before);
    WrittenIs(out, text + tail, before);
    return pos + |tail|;
  }

  lemma StepJoined(text: seq<Byte>, more: seq<Byte>, e: Enc, b: Byte)
    ensures text + [] == text
    ensures |e.carry| == 2 ==>
              var q := Quad(e.carry[0], e.carry[1], b); text + q + [NEWLINE] == text + (q + [NEWLINE]) && q + [] == q
  {
  }

  lemma FeedFull(e: Enc, b: Byte, lwidth: nat)
    requires |e.carry| == 2
    ensures var f := Feed(e, b, lwidth); var full := lwidth > 0 && e.col + 1 == lwidth;
            f.text == Quad(e.carry[0], e.carry[1], b) + (if full then [NEWLINE] else [])
            && f.state == Enc([], if lwidth == 0 then e.col else if full then 0 else e.col + 1)
  {
  }

  lemma FeedShort(e: Enc, b: Byte, lwidth: nat)
    requires |e.carry| < 2
    ensures Feed(e, b, lwidth) == Fed(Enc(e.carry + [b], e.col), [])
  {
  }

  // ----- the layout of a text

  /** Where quartet q starts: after the earlier quartets and the ends of the full lines. */
  function Offset(q: nat, lwidth: nat): nat {
    4 * q + if lwidth == 0 then 0 else q / lwidth
  }

  lemma NextLine(q: nat, lwidth: nat)
    requires lwidth > 0
    ensures var full := q % lwidth + 1 == lwidth;
            (q + 1) / lwidth == (if full then q / lwidth + 1 else q / lwidth) &&
            (q + 1) % lwidth == if full then 0 else q % lwidth + 1
  {
    var d, m := q / lwidth, q % lwidth;
    assert q == d * lwidth + m;
    if m + 1 == lwidth { Unique(q + 1, d + 1, 0, lwidth); } else { Unique(q + 1, d, m + 1, lwidth); }
  }

  lemma Unique(a: nat, d: nat, m: nat, lwidth: nat)
    requires lwidth > 0 && a == d * lwidth + m && m < lwidth
    ensures a / lwidth == d && a % lwidth == m
  {
    var e := a / lwidth;
    assert (e - d) * lwidth == e * lwidth - d * lwidth;
    AtLeast(e - d, lwidth);
  }

  lemma AtLeast(x: int, l: int)
    requires l >= 0
    ensures (x >= 1 ==> x * l >= l) && (x <= -1 ==> x * l <= -l)
  {
    if x >= 1 { assert (x - 1) * l >= 0; }
    if x <= -1 { assert (x + 1) * l <= 0; }
  }

  /** Quartet q and, if it fills its line, the newline behind it. */
  ghost predicate QuadAt(text: seq<Byte>, s: seq<Byte>, q: nat, lwidth: nat)
    requires 3 * q + 3 <= |s|
  {
    var o := Offset(q, lwidth);
    && o + 4 <= |text| && text[o..o + 4] == Quad(s[3 * q], s[3 * q + 1], s[3 * q + 2])
    && (lwidth > 0 && (q + 1) % lwidth == 0 ==> o + 4 < |text| && text[o + 4] == NEWLINE)
  }

  lemma QuadKept(text: seq<Byte>, more: seq<Byte>, p: seq<Byte>, x: Byte, q: nat, lwidth: nat)
    requires 3 * q + 3 <= |p| && QuadAt(text, p, q, lwidth)
    ensures QuadAt(text + more, p + [x], q, lwidth)
  {
    hide Quad;
    var o := Offset(q, lwidth);
    assert (text + more)[o..o + 4] == text[o..o + 4];
  }

  lemma QuadNew(text: seq<Byte>, p: seq<Byte>, x: Byte, q: nat, lwidth: nat)
    requires |p| == 3 * q + 2 && |text| == Offset(q, lwidth)
    ensures var full := lwidth > 0 && (q + 1) % lwidth == 0;
            QuadAt(text + (Quad(p[3 * q], p[3 * q + 1], x) + if full then [NEWLINE] else []), p + [x], q, lwidth)
  {
    hide Quad;
    var o, quad := Offset(q, lwidth), Quad(p[3 * q], p[3 * q + 1], x);
    var t := text + (quad + if lwidth > 0 && (q + 1) % lwidth == 0 then [NEWLINE] else []);
    assert t[o..o + 4] == quad;
  }

  /** After any input the whole quartets are out, each at its place, with a newline after every lwidth of them. */
  lemma {:induction false} Layout(s: seq<Byte>, lwidth: nat)
    ensures var r := FeedAll(START, s, lwidth); var n := |s| / 3;
            && r.state == Enc(s[3 * n..], if lwidth == 0 then 0 else n % lwidth)
            && |r.text| == Offset(n, lwidth)
            && forall q :: 0 <= q < n ==> QuadAt(r.text, s, q, lwidth)
  {
    if s == [] {
      if lwidth > 0 { Unique(0, 0, 0, lwidth); }
    } else {
      var p, x := s[..|s| - 1], s[|s| - 1];
      Layout(p, lwidth);
      assert s == p + [x];
      LayoutStep(p, x, FeedAll(START, p, lwidth), lwidth);
    }
  }

  lemma LayoutStep(p: seq<Byte>, x: Byte, r: Fed, lwidth: nat)
    requires var m := |p| / 3;
            r.state == Enc(p[3 * m..], if lwidth == 0 then 0 else m % lwidth) && |r.text| == Offset(m, lwidth)
    requires forall q :: 0 <= q < |p| / 3 ==> QuadAt(r.text, p, q, lwidth)
    ensures var s, f := p + [x], Feed(r.state, x, lwidth); var n := |s| / 3;
            && f.state == Enc(s[3 * n..], if lwidth == 0 then 0 else n % lwidth)
            && |r.text + f.text| == Offset(n, lwidth)
            && forall q :: 0 <= q < n ==> QuadAt(r.text + f.text, s, q, lwidth)
  {
    hide Quad, QuadAt, Feed;
    var m, f := |p| / 3, Feed(r.state, x, lwidth);
    forall q | 0 <= q < m ensures QuadAt(r.text + f.text, p + [x], q, lwidth) {
      QuadKept(r.text, f.text, p, x, q, lwidth);
    }
    if |p| == 3 * m + 2 {
      FeedFull(r.state, x, lwidth);
      if lwidth > 0 { NextLine(m, lwidth); }
      QuadNew(r.text, p, x, m, lwidth);
      assert (p + [x])[3 * (m + 1)..] == [];
    } else {
      FeedShort(r.state, x, lwidth);
      assert p[3 * m..] + [x] == (p + [x])[3 * m..];
    }
  }

  /** The length of an encoded text. */
  lemma EncodedLength(s: seq<Byte>, lwidth: nat)
    ensures var n := |s| / 3; var r := |s| % 3;
            |Encoded(s, lwidth)| == 4 * n + (if lwidth == 0 then 0 else n / lwidth) + (if r == 0 then 0 else r + 1) + 1
  {
    hide FeedAll, Tail, QuadAt;
    Layout(s, lwidth);
    TailSize(s[3 * (|s| / 3)..]);
  }

  lemma TailSize(carry: seq<Byte>)
    requires |carry| <= 2
    ensures |Tail(carry)| == if carry == [] then 1 else |carry| + 2
  {
  }
}
