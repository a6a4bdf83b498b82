/** Streaming base64 decoding. */
module Base64Dec {
  import opened Bytes
  import opened Base64Enc

  /** What the decoder's table says of a character. */
  datatype Code = Digit(v: Sextet) | Ignored | End | Illegal

  function Classify(c: Byte): Code {
    if 65 <= c <= 90 then Digit(c - 65)
    else if 97 <= c <= 122 then Digit(c - 97 + 26)
    else if 48 <= c <= 57 then Digit(c - 48 + 52)
    else if c == 43 then Digit(62)
    else if c == 47 then Digit(63)
    else if c == END_CHAR then End
    else if 8 <= c <= 13 || c == 32 || c == 92 || c == 127 then Ignored
    else Illegal
  }

  /** The two tables are inverse. */
  lemma CharBack(v: Sextet)
    ensures Classify(Char(v)) == Digit(v)
  {
  }

  // ----- which characters these are

  /** Space, CR, LF, tab, backslash, form feed, vertical tab, backspace and DEL. */
  predicate Skipped(c: Byte) {
    c in [32, 13, 10, 9, 92, 12, 11, 8, 127]
  }

  predicate Foreign(c: Byte) {
    c as char !in Alphabet() && !Skipped(c) && c as char != '='
  }

  lemma DigitIs(c: Byte, v: Sextet)
    ensures |Alphabet()| == 64 && (Classify(c) == Digit(v) <==> Alphabet()[v] == c as char)
  {
    hide Alphabet;
    AlphabetIs(v);
  }

  lemma IsDigit(c: Byte)
    ensures Classify(c).Digit? <==> c as char in Alphabet()
  {
    hide Alphabet;
    DigitIs(c, 0);
    if Classify(c).Digit? {
      DigitIs(c, Classify(c).v);
    } else if c as char in Alphabet() {
      var i :| 0 <= i < |Alphabet()| && Alphabet()[i] == c as char;
      DigitIs(c, i);
    }
  }

  /** The decoder's table, by enumeration. */
  lemma TableIs(c: Byte)
    ensures |Alphabet()| == 64
    ensures forall v: Sextet {:trigger Digit(v)} :: Classify(c) == Digit(v) <==> Alphabet()[v] == c as char
    ensures (Classify(c).Ignored? <==> Skipped(c)) && (Classify(c).End? <==> c as char == '=')
    ensures Classify(c).Illegal? <==> Foreign(c)
  {
    hide Alphabet;
    DigitIs(c, 0);
    IsDigit(c);
    forall v: Sextet ensures Classify(c) == Digit(v) <==> Alphabet()[v] == c as char { DigitIs(c, v); }
  }

  /** A text without the characters that are skipped. */
  function Essential(s: seq<Byte>): seq<Byte> {
    if s == [] then [] else Essential(s[..|s| - 1]) + if Skipped(s[|s| - 1]) then [] else [s[|s| - 1]]
  }

  function Number(s: seq<Sextet>): nat {
    if s == [] then 0 else Number(s[..|s| - 1]) * 64 + s[|s| - 1]
  }

  /** The state word: 24 bits of sextets and above them their number. */
  function PackDec(carry: seq<Sextet>): nat {
    |carry| * 16777216 + Number(carry)
  }

  lemma NumberIs(s: seq<Sextet>)
    requires |s| <= 3
    ensures Number(s) < 262144 && (s == [] ==> Number(s) == 0) && (|s| == 1 ==> Number(s) == s[0])
    ensures |s| == 2 ==> Number(s) == 64 * (s[0] as int) + s[1]
    ensures |s| == 3 ==> Number(s) == 4096 * (s[0] as int) + 64 * (s[1] as int) + s[2]
  {
    if |s| > 0 {
      var p := s[..|s| - 1];
      NumberIs(p);
      assert |s| > 1 ==> p[0] == s[0];
      assert |s| > 2 ==> p[1] == s[1];
    }
  }

  lemma NumberPush(s: seq<Sextet>, v: Sextet)
    ensures Number(s + [v]) == Number(s) * 64 + v
  {
    assert (s + [v])[..|s|] == s;
  }

  /** No bit of the carry is lost in the 32-bit state. */
  lemma PackDecFits(carry: seq<Sextet>)
    requires |carry| <= 3
    ensures PackDec(carry) < 0x1_0000_0000 && PackDec(carry) % 16777216 == Number(carry)
    ensures PackDec(carry) / 16777216 == |carry|
  {
    NumberIs(carry);
  }

  // ----- the bytes of a stream

  function Hi(w: Sextet, x: Sextet): Byte { (w as int) * 4 + x / 16 }

  function Mid(x: Sextet, y: Sextet): Byte { (x as int) % 16 * 16 + y / 4 }

  function Lo(y: Sextet, z: Sextet): Byte { (y as int) % 4 * 64 + z }

  /** Three bytes for four sextets. */
  function Triple(w: Sextet, x: Sextet, y: Sextet, z: Sextet): (t: seq<Byte>)
    ensures |t| == 3
  {
    [Hi(w, x), Mid(x, y), Lo(y, z)]
  }

  datatype Status = Going | AtEnd | Refused

  datatype Scanned = Scanned(carry: seq<Sextet>, bytes: seq<Byte>, status: Status)

  /** One more character. Nothing is read behind an end or an illegal character. */
  function Step(r: Scanned, c: Byte): Scanned {
    if r.status != Going then r
    else
      match Classify(c)
      case Illegal => r.(status := Refused)
      case End => r.(status := AtEnd)
      case Ignored => r
      case Digit(v) =>
        if |r.carry| == 3 then Scanned([], r.bytes + Triple(r.carry[0], r.carry[1], r.carry[2], v), Going)
        else r.(carry := r.carry + [v])
  }

  function Scan(r: Scanned, s: seq<Byte>): Scanned {
    if s == [] then r else Step(Scan(r, s[..|s| - 1]), s[|s| - 1])
  }

  /** The bytes in the rest of a message. */
  function Last(carry: seq<Sextet>): seq<Byte> {
    if |carry| == 3 then [Hi(carry[0], carry[1]), Mid(carry[1], carry[2])]
    else if |carry| == 2 then [Hi(carry[0], carry[1])]
    else []
  }

  lemma {:induction false} ScanSplit(r: Scanned, a: seq<Byte>, b: seq<Byte>)
    ensures Scan(r, a + b) == Scan(Scan(r, a), b)
    decreases |b|
  {
    hide Step;
    if b == [] {
      assert a + b == a;
    } else {
      ScanSplit(r, a, b[..|b| - 1]);
      assert (a + b)[..|a + b| - 1] == a + b[..|b| - 1];
    }
  }

  lemma {:induction false} EssentialSplit(a: seq<Byte>, b: seq<Byte>)
    ensures Essential(a + b) == Essential(a) + Essential(b)
    decreases |b|
  {
    hide Skipped;
    if b == [] {
      assert a + b == a;
    } else {
      EssentialSplit(a, b[..|b| - 1]);
      assert (a + b)[..|a + b| - 1] == a + b[..|b| - 1];
    }
  }

  /** The skipped characters change nothing, wherever they stand. */
  lemma {:induction false} ScanEssential(r: Scanned, s: seq<Byte>)
    ensures Scan(r, s) == Scan(r, Essential(s))
  {
    hide Step, Skipped;
    if s == [] {
    } else {
      var before, c := s[..|s| - 1], s[|s| - 1];
      ScanEssential(r, before);
      if Skipped(c) {
        StepSkipped(Scan(r, before), c);
        assert Essential(s) == Essential(before);
      } else {
        assert (Essential(before) + [c])[..|Essential(before)|] == Essential(before);
      }
    }
  }

  lemma EndNotSkipped()
    ensures !Skipped(END_CHAR)
  {
  }

  lemma StepSkipped(r: Scanned, c: Byte)
    requires Skipped(c)
    ensures Step(r, c) == r
  {
  }

  // ----- how a scan ends

  ghost predicate Plain(s: seq<Byte>) {
    forall j :: 0 <= j < |s| ==> !Foreign(s[j]) && s[j] as char != '='
  }

  ghost predicate RefusedAt(s: seq<Byte>, i: nat) {
    i < |s| && Foreign(s[i]) && forall j :: 0 <= j < i ==> s[j] as char != '='
  }

  ghost predicate EndsAt(s: seq<Byte>, i: nat) {
    i < |s| && s[i] as char == '=' && forall j :: 0 <= j < i ==> !Foreign(s[j])
  }

  lemma NotBoth(s: seq<Byte>, i: nat, k: nat)
    requires RefusedAt(s, i)
    ensures !EndsAt(s, k)
  {
  }

  lemma StepEnds(r: Scanned, c: Byte)
    requires r.status == Going
    ensures Step(r, c).status == if Foreign(c) then Refused else if c as char == '=' then AtEnd else Going
  {
    hide Classify, Foreign, Triple;
    TableIs(c);
  }

  /** A text is refused exactly if a character that is neither of the alphabet nor skipped comes before any =, and ended
      exactly if a = comes before any such character. */
  lemma {:induction false} EndsExactly(r: Scanned, s: seq<Byte>)
    requires r.status == Going
    ensures Scan(r, s).status == Going <==> Plain(s)
    ensures Scan(r, s).status == Refused <==> exists i :: RefusedAt(s, i)
    ensures Scan(r, s).status == AtEnd <==> exists i :: EndsAt(s, i)
  {
    hide Step, Foreign;
    if s == [] {
    } else {
      var before, c := s[..|s| - 1], s[|s| - 1];
      var q := Scan(r, before);
      EndsExactly(r, before);
      if q.status == Refused {
        var i :| RefusedAt(before, i);
        assert RefusedAt(s, i);
        StepEnded(q, c);
        forall k ensures !EndsAt(s, k) { NotBoth(s, i, k); }
      } else if q.status == AtEnd {
        var i :| EndsAt(before, i);
        assert EndsAt(s, i);
        StepEnded(q, c);
        forall k ensures !RefusedAt(s, k) { if RefusedAt(s, k) { NotBoth(s, k, i); } }
      } else {
        StepEnds(q, c);
        EqualsKnown();
        LastDecides(before, c);
        assert s == before + [c];
      }
    }
  }

  lemma StepEnded(r: Scanned, c: Byte)
    requires r.status != Going
    ensures Step(r, c) == r
  {
  }

  lemma LastDecides(s: seq<Byte>, c: Byte)
    requires Plain(s)
    ensures Plain(s + [c]) <==> !Foreign(c) && c as char != '='
    ensures (exists i :: RefusedAt(s + [c], i)) <==> Foreign(c)
    ensures (exists i :: EndsAt(s + [c], i)) <==> c as char == '='
  {
    hide Foreign;
    var t := s + [c];
    assert forall j :: 0 <= j < |s| ==> t[j] == s[j];
    EqualsKnown();
    if Foreign(c) { assert RefusedAt(t, |s|); }
    if c as char == '=' { assert EndsAt(t, |s|); }
  }

  lemma EqualsKnown()
    ensures forall c: Byte :: c as char == '=' ==> !Foreign(c)
  {
  }

  lemma {:induction false} ScanKeeps(r: Scanned, s: seq<Byte>)
    requires |r.carry| <= 3
    ensures |Scan(r, s).carry| <= 3 && |r.bytes| <= |Scan(r, s).bytes| && (r.status != Going ==> Scan(r, s) == r)
  {
    if s == [] {
    } else {
      ScanKeeps(r, s[..|s| - 1]);
    }
  }

  /** Scanning adds to the bytes; it does not look at them. */
  lemma {:induction false} ScanFrom(carry: seq<Sextet>, before: seq<Byte>, s: seq<Byte>)
    ensures var r := Scan(Scanned(carry, [], Going), s);
            Scan(Scanned(carry, before, Going), s) == r.(bytes := before + r.bytes)
  {
    if s == [] {
    } else {
      ScanFrom(carry, before, s[..|s| - 1]);
    }
  }

  /** The shifts and masks on the accumulator. */
  lemma TripleBits(w: Sextet, x: Sextet, y: Sextet, z: Sextet, acc: nat)
    requires acc == 262144 * (w as int) + 4096 * (x as int) + 64 * (y as int) + z
    ensures [acc / 65536 % 256, acc / 256 % 256, acc % 256] == Triple(w, x, y, z)
  {
    hide Hi, Mid, Lo;
    Regroup(w, x, y, z);
    BytesApart(Hi(w, x), Mid(x, y), Lo(y, z), acc);
  }

  lemma Regroup(w: Sextet, x: Sextet, y: Sextet, z: Sextet)
    ensures 262144 * (w as int) + 4096 * (x as int) + 64 * (y as int) + z
            == 65536 * (Hi(w, x) as int) + 256 * (Mid(x, y) as int) + Lo(y, z)
  {
  }

  lemma BytesApart(a: Byte, b: Byte, c: Byte, acc: nat)
    requires acc == 65536 * (a as int) + 256 * (b as int) + c
    ensures acc / 65536 % 256 == a && acc / 256 % 256 == b && acc % 256 == c
  {
    assert acc / 256 == 256 * (a as int) + b;
    assert acc / 65536 == a;
  }

  function RestOf(acc: nat, ai: nat): seq<Byte> {
    if ai == 3 then [acc / 1024 % 256, acc / 4 % 256] else if ai == 2 then [acc / 16 % 256] else []
  }

  lemma RestIsLast(carry: seq<Sextet>)
    requires |carry| <= 3
    ensures RestOf(Number(carry), |carry|) == Last(carry)
  {
    NumberIs(carry);
    hide Number, Hi, Mid;
    if |carry| == 3 {
      LastBits(carry[0], carry[1], carry[2], Number(carry));
    } else if |carry| == 2 {
      TwoBits(carry[0], carry[1], Number(carry));
    }
  }

  lemma LastBits(w: Sextet, x: Sextet, y: Sextet, acc: nat)
    requires acc == 4096 * (w as int) + 64 * (x as int) + y
    ensures acc / 1024 % 256 == Hi(w, x) && acc / 4 % 256 == Mid(x, y)
  {
    var x1, x2, y1, y2 := x as int / 16, x as int % 16, y as int / 4, y as int % 4;
    assert x as int == 16 * x1 + x2 && y as int == 4 * y1 + y2;
    CutBits(acc, w as int * 4 + x1, x2 * 16 + y1, y2);
  }

  lemma CutBits(acc: int, h: int, m: int, l: int)
    requires 0 <= h < 256 && 0 <= m < 256 && 0 <= l < 4 && acc == 1024 * h + 4 * m + l
    ensures acc / 1024 % 256 == h && acc / 4 % 256 == m
  {
    assert acc / 4 == 256 * h + m;
  }

  lemma TwoBits(w: Sextet, x: Sextet, acc: nat)
    requires acc == 64 * (w as int) + x
    ensures acc / 16 % 256 == Hi(w, x)
  {
  }

  /** Decode some characters into the output buffer. With a state, only an empty input or the end character ends the
      message; without one, every call does. The result is the number of bytes, -2 for an illegal character, -3 for a
      message that stops after one character of a quartet, or -4 if the buffer is too small for the bytes before. */
  method Base64Decode(input: seq<Byte>, out: array<Byte>, hasState: bool, state: nat, ghost carry: seq<Sextet>)
      returns (rv: int, next: nat)
    requires |carry| <= 3 && (if hasState then state == PackDec(carry) else carry == [])
    modifies out
    ensures var r := Scan(Scanned(carry, [], Going), input); var all := r.bytes + Last(r.carry);
            if |r.bytes| > out.Length then rv == -4 && next == state
            else if r.status == Refused then rv == -2 && next == state
            else if hasState && input != [] && r.status == Going then
              rv == |r.bytes| && out[..rv] == r.bytes && next == PackDec(r.carry)
            else if |all| > out.Length then rv == -4 && (hasState ==> next == 0)
            else if |r.carry| == 1 then rv == -3 && (hasState ==> next == 0)
            else rv == |all| && out[..rv] == all && (hasState ==> next == 0)
    ensures rv >= 0 ==> rv <= out.Length && out[rv..] == old(out[..])[rv..]
  {
    hide Step, Last, RestOf, Triple, Number, Bytes.Written;
    PackDecFits(carry);
    NumberIs([]);
    ghost var before := out[..];
    WrittenNothing(out);
    next := state;
    var dec, acc, ai := End, 0, 0;
    if hasState { acc, ai := state % 16777216, state / 16777216; }
    ghost var r := Scanned(carry, [], Going);
    ghost var start := r;
    var pos, i := 0, 0;
    while i < |input|
      invariant i <= |input| && r == Scan(start, input[..i]) && |r.carry| <= 3 && r.status == Going
      invariant acc == Number(r.carry) && ai == |r.carry| && (dec == End <==> i == 0)
      invariant pos == |r.bytes| <= out.Length && Written(out, r.bytes, before)
    {
      ghost var s := Step(r, input[i]);
      assert input[..i + 1][..i] == input[..i];
      ScanOn(start, input, i + 1);
      StepCases(r, input[i]);
      dec := Classify(input[i]);
      if dec.Digit? {
        NumberPush(r.carry, dec.v);
        NumberIs(r.carry);
        acc := acc * 64 + dec.v;
        ai := ai + 1;
        if ai == 4 {
          if pos + 2 >= out.Length { return -4, next; }
          TripleBits(r.carry[0], r.carry[1], r.carry[2], dec.v, acc);
          Put(out, pos, [acc / 65536 % 256, acc / 256 % 256, acc % 256], r.bytes, before);
          pos := pos + 3;
          acc, ai := 0, 0;
        }
      } else if dec.Illegal? {
        return -2, next;
      } else if dec.End? {
        r := s;
        break;
      }
      r := s;
      i := i + 1;
    }
    assert i == |input| ==> input[..i] == input;
    assert r == Scan(start, input);
    if hasState && dec != End {
      PackDecFits(r.carry);
      WrittenIs(out, r.bytes, before);
      return pos, ai * 16777216 + acc;
    }
    if hasState { next := 0; }
    RestIsLast(r.carry);
    RestOfSize(acc, ai);
    if pos + ai - 2 >= out.Length { return -4, next; }
    if ai == 1 { return -3, next; }
    var rest := RestOf(acc, ai);
    Put(out, pos, rest, r.bytes, before);
    WrittenIs(out, r.bytes + rest, before);
    return pos + |rest|, next;
  }

  lemma RestOfSize(acc: nat, ai: nat)
    requires ai <= 3
    ensures |RestOf(acc, ai)| == if ai < 2 then 0 else ai - 1
  {
  }

  lemma StepCases(r: Scanned, c: Byte)
    requires r.status == Going
    ensures var s := Step(r, c);
            match Classify(c)
            case Illegal => s == r.(status := Refused)
            case End => s == r.(status := AtEnd)
            case Ignored => s == r
            case Digit(v) =>
              if |r.carry| == 3 then s == Scanned([], r.bytes + Triple(r.carry[0], r.carry[1], r.carry[2], v), Going)
              else s == r.(carry := r.carry + [v])
  {
  }

  /** What the rest of the input can still change. */
  lemma ScanOn(r: Scanned, s: seq<Byte>, i: nat)
    requires i <= |s| && |r.carry| <= 3
    ensures |Scan(r, s[..i]).bytes| <= |Scan(r, s).bytes|
    ensures Scan(r, s[..i]).status != Going ==> Scan(r, s) == Scan(r, s[..i])
  {
    ScanSplit(r, s[..i], s[i..]);
    assert s[..i] + s[i..] == s;
    ScanKeeps(r, s[..i]);
    ScanKeeps(Scan(r, s[..i]), s[i..]);
  }
}
