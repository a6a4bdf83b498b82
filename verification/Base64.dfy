/** Encoding and decoding a message in pieces. */
module Base64 {
  import opened Bytes
  import opened Sequences
  import opened Base64Enc
  import opened Base64Dec

  const FIRST := Scanned([], [], Going)

  // ----- decoding undoes encoding

  lemma BytesBack(a: Byte, b: Byte, c: Byte)
    ensures Hi(a / 4, a % 4 * 16 + b / 16) == a
    ensures Mid(a % 4 * 16 + b / 16, b % 16 * 4 + c / 64) == b
    ensures Lo(b % 16 * 4 + c / 64, c % 64) == c
  {
    assert (a % 4 * 16 + b / 16) / 16 == a % 4 && (a % 4 * 16 + b / 16) % 16 == b / 16;
    assert (b % 16 * 4 + c / 64) / 4 == b % 16 && (b % 16 * 4 + c / 64) % 4 == c / 64;
  }

  lemma OneMore(r: Scanned, s: seq<Byte>, v: Sextet)
    requires Scan(r, s).status == Going
    ensures var p := Scan(r, s);
            Scan(r, s + [Char(v)]) ==
            if |p.carry| == 3 then Scanned([], p.bytes + Triple(p.carry[0], p.carry[1], p.carry[2], v), Going)
            else p.(carry := p.carry + [v])
  {
    hide Char, Classify, Triple;
    CharBack(v);
    assert (s + [Char(v)])[..|s|] == s;
  }

  /** Some characters add their digits to the carry. */
  lemma Digits3(r: Scanned, q: seq<Byte>, w: Sextet, x: Sextet, y: Sextet)
    requires r.carry == [] && r.status == Going && |q| >= 1 && q[0] == Char(w)
    ensures |q| >= 2 && q[1] == Char(x) ==> Scan(r, q[..2]) == r.(carry := [w, x])
    ensures |q| >= 3 && q[1] == Char(x) && q[2] == Char(y) ==> Scan(r, q[..3]) == r.(carry := [w, x, y])
  {
    hide Char, Triple;
    OneMore(r, [], w);
    assert [] + [Char(w)] == q[..1];
    if |q| >= 2 && q[1] == Char(x) {
      OneMore(r, q[..1], x);
      assert q[..1] + [Char(x)] == q[..2];
      if |q| >= 3 && q[2] == Char(y) {
        OneMore(r, q[..2], y);
        assert q[..2] + [Char(y)] == q[..3];
      }
    }
  }

  /** A quartet gives its three bytes back. */
  lemma QuadBack(r: Scanned, a: Byte, b: Byte, c: Byte)
    requires r.carry == [] && r.status == Going
    ensures Scan(r, Quad(a, b, c)) == Scanned([], r.bytes + [a, b, c], Going)
  {
    hide Char, Hi, Mid, Lo, Scan;
    var q := Quad(a, b, c);
    var w, x, y, z := a / 4, a % 4 * 16 + b / 16, b % 16 * 4 + c / 64, c % 64;
    Digits3(r, q, w, x, y);
    OneMore(r, q[..3], z);
    assert q[..3] + [Char(z)] == q;
    BytesBack(a, b, c);
  }

  lemma NewlineBack(r: Scanned, s: seq<Byte>)
    ensures Scan(r, s + [NEWLINE]) == Scan(r, s)
  {
    assert (s + [NEWLINE])[..|s|] == s;
  }

  lemma EndBack(r: Scanned, s: seq<Byte>)
    requires Scan(r, s).status == Going
    ensures Scan(r, s + [END_CHAR]) == Scan(r, s).(status := AtEnd)
  {
    assert (s + [END_CHAR])[..|s|] == s;
  }

  /** The text of the whole quartets gives the bytes of the whole quartets back. */
  lemma {:induction false} FeedBack(s: seq<Byte>, lwidth: nat)
    ensures Scan(FIRST, FeedAll(START, s, lwidth).text) == Scanned([], s[..3 * (|s| / 3)], Going)
  {
    hide Feed, Step, Scan;
    if s == [] {
      ScanNothing(FIRST);
    } else {
      var p, x := s[..|s| - 1], s[|s| - 1];
      var r, m := FeedAll(START, p, lwidth), |p| / 3;
      FeedBack(p, lwidth);
      CarryIs(p, lwidth);
      ScanSplit(FIRST, r.text, Feed(r.state, x, lwidth).text);
      assert s == p + [x];
      BackStep(p, x, r.state, lwidth);
    }
  }

  lemma CarryIs(s: seq<Byte>, lwidth: nat)
    ensures FeedAll(START, s, lwidth).state.carry == s[3 * (|s| / 3)..]
  {
    Layout(s, lwidth);
  }

  lemma BackStep(p: seq<Byte>, x: Byte, e: Enc, lwidth: nat)
    requires e.carry == p[3 * (|p| / 3)..]
    ensures var s := p + [x];
            Scan(Scanned([], p[..3 * (|p| / 3)], Going), Feed(e, x, lwidth).text) ==
            Scanned([], s[..3 * (|s| / 3)], Going)
  {
    hide Feed, Step, Scan, Quad;
    var m := |p| / 3;
    var d := Scanned([], p[..3 * m], Going);
    if |p| == 3 * m + 2 {
      FeedFull(e, x, lwidth);
      var q := Quad(p[3 * m], p[3 * m + 1], x);
      QuadBack(d, p[3 * m], p[3 * m + 1], x);
      NewlineBack(d, q);
      assert q + [] == q;
      assert p[..3 * m] + [p[3 * m], p[3 * m + 1], x] == (p + [x])[..3 * (m + 1)];
    } else {
      FeedShort(e, x, lwidth);
      ScanNothing(d);
      assert p[..3 * m] == (p + [x])[..3 * m];
    }
  }

  lemma ScanNothing(r: Scanned)
    ensures Scan(r, []) == r
  {
  }

  /** The tail gives the bytes of the carry back, and ends the text with its last character. */
  ghost predicate GivesBack(r: Scanned, t: seq<Byte>, carry: seq<Byte>) {
    var e := Scan(r, t);
    && e.status == AtEnd && e.bytes == r.bytes && Last(e.carry) == carry && |e.carry| != 1 && |e.carry| <= 3
    && t != [] && Scan(r, t[..|t| - 1]).status == Going
  }

  lemma EndAfter(r: Scanned, x: seq<Byte>, digits: seq<Sextet>, carry: seq<Byte>)
    requires Scan(r, x) == r.(carry := digits) && r.status == Going
    requires Last(digits) == carry && |digits| != 1 && |digits| <= 3
    ensures GivesBack(r, x + [END_CHAR], carry)
  {
    hide Scan, Last;
    EndBack(r, x);
    var t := x + [END_CHAR];
    assert t[..|t| - 1] == x;
  }

  lemma TailBack(r: Scanned, carry: seq<Byte>)
    requires |carry| <= 2 && r.carry == [] && r.status == Going
    ensures GivesBack(r, Tail(carry), carry)
  {
    hide Char, Scan, Hi, Mid, GivesBack;
    var t := Tail(carry);
    if carry == [] {
      ScanNothing(r);
      EndAfter(r, [], [], []);
      assert [] + [END_CHAR] == t;
    } else if |carry| == 1 {
      var a := carry[0];
      var w, x := a / 4, a % 4 * 16;
      Digits3(r, t, w, x, 0);
      BytesBack(a, 0, 0);
      assert Last([w, x]) == carry;
      EndAfter(r, t[..2], [w, x], carry);
      assert t[..2] + [END_CHAR] == t;
    } else {
      var a, b := carry[0], carry[1];
      var w, x, y := a / 4, a % 4 * 16 + b / 16, b % 16 * 4;
      Digits3(r, t, w, x, y);
      BytesBack(a, b, 0);
      assert Last([w, x, y]) == carry;
      EndAfter(r, t[..3], [w, x, y], carry);
      assert t[..3] + [END_CHAR] == t;
    }
  }

  /** Decoding undoes encoding, for every message and every line width. */
  lemma RoundTrip(s: seq<Byte>, lwidth: nat)
    ensures var e := Scan(FIRST, Encoded(s, lwidth));
            e.status == AtEnd && e.bytes + Last(e.carry) == s && |e.carry| != 1 && |e.carry| <= 3
    ensures var t := Encoded(s, lwidth); t != [] && Scan(FIRST, t[..|t| - 1]).status == Going
  {
    hide Last, Feed, Step, Scan, FeedAll;
    var r := FeedAll(START, s, lwidth);
    FeedBack(s, lwidth);
    CarryIs(s, lwidth);
    ScanSplit(FIRST, r.text, Tail(r.state.carry));
    TailBack(Scan(FIRST, r.text), r.state.carry);
    var t, tail := Encoded(s, lwidth), Tail(r.state.carry);
    var body := r.text + tail[..|tail| - 1];
    ScanSplit(FIRST, r.text, tail[..|tail| - 1]);
    assert t[..|t| - 1] == body;
  }

  // ----- messages in pieces

  lemma {:induction false} FedBound(e: Enc, s: seq<Byte>, lwidth: nat)
    ensures |FeedAll(e, s, lwidth).text| <= 5 * |s|
  {
    if s == [] {
    } else {
      FedBound(e, s[..|s| - 1], lwidth);
    }
  }

  /** Encode a message chunk by chunk, with an empty chunk at the end. */
  method EncodeStream(chunks: seq<seq<Byte>>, lwidth: nat) returns (text: seq<Byte>)
    requires lwidth <= MAX_WIDTH && forall i :: 0 <= i < |chunks| ==> chunks[i] != []
    ensures text == Encoded(Flattened(chunks), lwidth)
  {
    hide FeedAll, Feed, Tail, Pack, Flattened;
    StartState();
    text := [];
    var state: nat := 0;
    ghost var r := Fed(START, []);
    var i := 0;
    while i < |chunks|
      invariant i <= |chunks| && r == FeedAll(START, Flattened(chunks[..i]), lwidth)
      invariant Base64Enc.Valid(r.state, lwidth) && state == Pack(r.state) && text == r.text
    {
      ghost var q := FeedAll(r.state, chunks[i], lwidth);
      FlattenedPush(chunks, i);
      FeedSplit(START, Flattened(chunks[..i]), chunks[i], lwidth);
      FeedKeeps(r.state, chunks[i], lwidth);
      FedBound(r.state, chunks[i], lwidth);
      var out := new Byte[5 * |chunks[i]|](_ => 0);
      var rv, next := Base64Encode(chunks[i], out, true, state, lwidth, r.state);
      text, state := text + out[..rv], next;
      r := Fed(q.state, r.text + q.text);
      i := i + 1;
    }
    assert chunks[..i] == chunks;
    FeedNothing(r.state, lwidth);
    var out := new Byte[4](_ => 0);
    var rv, _ := Base64Encode([], out, true, state, lwidth, r.state);
    text := text + out[..rv];
  }

  lemma StartState()
    ensures Pack(START) == 0 && PackDec([]) == 0 && Flattened<Byte>([]) == []
    ensures forall lwidth :: FeedAll(START, [], lwidth) == Fed(START, [])
  {
  }

  lemma FeedNothing(e: Enc, lwidth: nat)
    ensures FeedAll(e, [], lwidth) == Fed(e, [])
  {
  }

  // ----- encoding undoes decoding

  lemma SextetsBack(w: Sextet, x: Sextet, y: Sextet, z: Sextet)
    ensures Hi(w, x) / 4 == w && Hi(w, x) % 4 * 16 + Mid(x, y) / 16 == x
    ensures Mid(x, y) % 16 * 4 + Lo(y, z) / 64 == y && Lo(y, z) % 64 == z
  {
    assert x as int == x / 16 * 16 + x % 16 && y as int == y / 4 * 4 + y % 4;
  }

  lemma CharOf(c: Byte)
    requires c as char in Alphabet()
    ensures Classify(c).Digit? && Char(Classify(c).v) == c
  {
    hide Alphabet;
    IsDigit(c);
  }

  ghost predicate InAlphabet(t: seq<Byte>) {
    forall i :: 0 <= i < |t| ==> t[i] as char in Alphabet()
  }

  /** Any four characters of the alphabet are the quartet of the bytes they give. */
  lemma QuartetBack(r: Scanned, q: seq<Byte>)
    requires |q| == 4 && InAlphabet(q) && r.carry == [] && r.status == Going
    ensures var s := Scan(r, q);
            s.status == Going && s.carry == [] && |s.bytes| == |r.bytes| + 3 && s.bytes[..|r.bytes|] == r.bytes
            && Quad(s.bytes[|r.bytes|], s.bytes[|r.bytes| + 1], s.bytes[|r.bytes| + 2]) == q
  {
    hide Char, Classify, Alphabet, Scan, Hi, Mid, Lo;
    CharOf(q[0]);
    CharOf(q[1]);
    CharOf(q[2]);
    CharOf(q[3]);
    var w, x, y, z := Classify(q[0]).v, Classify(q[1]).v, Classify(q[2]).v, Classify(q[3]).v;
    Digits3(r, q, w, x, y);
    OneMore(r, q[..3], z);
    assert q[..3] + [Char(z)] == q;
    SextetsBack(w, x, y, z);
    assert q == [Char(w), Char(x), Char(y), Char(z)];
  }

  /** Encoding the bytes of a text of whole quartets gives the text. */
  lemma {:induction false} TextBack(t: seq<Byte>)
    requires InAlphabet(t) && |t| % 4 == 0
    ensures var r := Scan(FIRST, t);
            r.status == Going && r.carry == [] && FeedAll(START, r.bytes, 0) == Fed(START, t)
    decreases |t|
  {
    hide Scan, FeedAll, Quad, Alphabet;
    if t == [] {
      ScanNothing(FIRST);
      FeedNothing(START, 0);
    } else {
      var p, q := t[..|t| - 4], t[|t| - 4..];
      TextBack(p);
      var r := Scan(FIRST, p);
      QuartetBack(r, q);
      assert t == p + q;
      ScanSplit(FIRST, p, q);
      var s := Scan(FIRST, t);
      var n := |r.bytes|;
      assert s.bytes == r.bytes + [s.bytes[n], s.bytes[n + 1], s.bytes[n + 2]];
      FeedSplit(START, r.bytes, [s.bytes[n], s.bytes[n + 1], s.bytes[n + 2]], 0);
      FeedThree(s.bytes[n], s.bytes[n + 1], s.bytes[n + 2]);
    }
  }

  lemma FeedThree(a: Byte, b: Byte, c: Byte)
    ensures FeedAll(START, [a, b, c], 0) == Fed(START, Quad(a, b, c))
  {
    hide Quad;
    FeedNothing(START, 0);
    assert [a, b, c][..2] == [a, b] && [a, b][..1] == [a] && [a][..0] == [];
    assert FeedAll(START, [a], 0) == Fed(Enc([a], 0), []);
    assert FeedAll(START, [a, b], 0) == Fed(Enc([a, b], 0), []);
  }

  /** Whatever could have followed: a rest gives the first bytes of every quartet that starts with it, and the bits that
      do not fill a byte are dropped. */
  lemma RestIsFirstPart(carry: seq<Sextet>, w: Sextet, x: Sextet, y: Sextet, z: Sextet)
    requires |carry| <= 3 && carry == [w, x, y, z][..|carry|]
    ensures Last(carry) == if carry == [] then [] else Triple(w, x, y, z)[..|carry| - 1]
  {
    hide Hi, Mid, Lo;
  }

  // ----- texts with other characters in between

  /** What a text decodes to: the position of its end character, before which it goes on, and the message. */
  ghost predicate Ended(t: seq<Byte>, end: nat, s: seq<Byte>) {
    && end < |t| && Scan(FIRST, t[..end]).status == Going && Essential(t[end + 1..]) == []
    && var e := Scan(FIRST, t[..end + 1]); e.status == AtEnd && e.bytes + Last(e.carry) == s && |e.carry| != 1
  }

  /** The last character that is not skipped. */
  lemma {:induction false} LastEssential(t: seq<Byte>) returns (end: nat)
    requires Essential(t) != []
    ensures end < |t| && !Skipped(t[end]) && Essential(t[end + 1..]) == []
    ensures Essential(t) == Essential(t[..end]) + [t[end]]
  {
    hide Essential, Skipped;
    EssentialNothing();
    assert t != [];
    var before, c := t[..|t| - 1], t[|t| - 1];
    assert t == before + [c];
    EssentialPush(before, c);
    if Skipped(c) {
      end := LastEssential(before);
      EssentialPush(before[end + 1..], c);
      assert t[end + 1..] == before[end + 1..] + [c] && before[..end] == t[..end];
    } else {
      end := |t| - 1;
      assert t[end + 1..] == [];
    }
  }

  lemma EssentialNothing()
    ensures Essential([]) == []
  {
  }

  lemma EssentialPush(t: seq<Byte>, c: Byte)
    ensures Essential(t + [c]) == Essential(t) + if Skipped(c) then [] else [c]
  {
    hide Skipped;
    assert (t + [c])[..|t|] == t;
  }

  /** An encoded text still decodes to its message when skipped characters are put in or taken out anywhere. */
  lemma SpacedBack(t: seq<Byte>, s: seq<Byte>, lwidth: nat) returns (end: nat)
    requires Essential(t) == Essential(Encoded(s, lwidth))
    ensures Ended(t, end, s)
  {
    hide Scan, Last, Essential, Encoded, Skipped;
    var u := Encoded(s, lwidth);
    RoundTrip(s, lwidth);
    EncodedEnds(s, lwidth);
    EndKept(u);
    end := LastEssential(t);
    var head := Essential(u[..|u| - 1]);
    assert Essential(t[..end]) == head && t[end] == END_CHAR by { LastOf(Essential(t[..end]), t[end], head, END_CHAR); }
    ScanEssential(FIRST, t[..end]);
    ScanEssential(FIRST, u[..|u| - 1]);
    EndBack(FIRST, t[..end]);
    assert t[..end + 1] == t[..end] + [END_CHAR];
    EndBack(FIRST, u[..|u| - 1]);
    assert u == u[..|u| - 1] + [END_CHAR];
  }

  lemma LastOf(a: seq<Byte>, x: Byte, b: seq<Byte>, y: Byte)
    requires a + [x] == b + [y]
    ensures a == b && x == y
  {
    assert (a + [x])[..|a|] == a && (b + [y])[..|b|] == b;
    assert (a + [x])[|a|] == x && (b + [y])[|b|] == y;
  }

  lemma EncodedEnds(s: seq<Byte>, lwidth: nat)
    ensures var u := Encoded(s, lwidth); u != [] && u[|u| - 1] == END_CHAR
  {
    hide FeedAll;
    CarryIs(s, lwidth);
  }

  lemma EndKept(u: seq<Byte>)
    requires u != [] && u[|u| - 1] == END_CHAR
    ensures Essential(u) == Essential(u[..|u| - 1]) + [END_CHAR] && Essential(u) != []
  {
    hide Essential, Skipped;
    assert u == u[..|u| - 1] + [END_CHAR];
    EssentialPush(u[..|u| - 1], END_CHAR);
    EndNotSkipped();
  }

  /** A scan of a first part, up to the end character or beyond. */
  lemma UpTo(t: seq<Byte>, end: nat, s: seq<Byte>, k: nat)
    requires Ended(t, end, s) && k <= |t|
    ensures if k <= end then Scan(FIRST, t[..k]).status == Going else Scan(FIRST, t[..k]) == Scan(FIRST, t[..end + 1])
  {
    hide Step, Last, Essential;
    if k <= end {
      ScanOn(FIRST, t[..end], k);
      assert t[..end][..k] == t[..k];
    } else {
      ScanOn(FIRST, t[..k], end + 1);
      assert t[..k][..end + 1] == t[..end + 1];
    }
  }

  /** Behind the end there is nothing but skipped characters. */
  lemma BehindEnd(t: seq<Byte>, end: nat, s: seq<Byte>, a: nat, b: nat)
    requires Ended(t, end, s) && end < a <= b <= |t|
    ensures Scan(FIRST, t[a..b]) == FIRST
  {
    hide Scan, Last, Essential;
    var rest := t[end + 1..];
    EssentialSplit(rest[..a - end - 1], rest[a - end - 1..]);
    EssentialSplit(t[a..b], t[b..]);
    assert rest == rest[..a - end - 1] + rest[a - end - 1..];
    assert rest[a - end - 1..] == t[a..b] + t[b..];
    ScanEssential(FIRST, t[a..b]);
    ScanNothing(FIRST);
  }

  /** What has been decoded of a first part of the text. */
  ghost predicate DecodedUpTo(t: seq<Byte>, end: nat, s: seq<Byte>, pos: nat, state: nat, bytes: seq<Byte>) {
    pos <= |t| &&
    if pos <= end then
      var r := Scan(FIRST, t[..pos]); |r.carry| <= 3 && state == PackDec(r.carry) && bytes == r.bytes
    else
      state == 0 && bytes == s
  }

  lemma NothingDecoded(t: seq<Byte>, end: nat, s: seq<Byte>)
    ensures DecodedUpTo(t, end, s, 0, 0, [])
  {
  }

  /** One part more. */
  method DecodePart(part: seq<Byte>, state: nat, bytes: seq<Byte>, ghost t: seq<Byte>, ghost end: nat,
          ghost s: seq<Byte>, ghost pos: nat) returns (next: nat, more: seq<Byte>)
    requires Ended(t, end, s) && DecodedUpTo(t, end, s, pos, state, bytes)
    requires part != [] && pos + |part| <= |t| && t[pos..pos + |part|] == part
    ensures DecodedUpTo(t, end, s, pos + |part|, next, more)
  {
    hide Scan, Step, Last, PackDec, Essential;
    StartState();
    ghost var to := pos + |part|;
    ghost var r := if pos <= end then Scan(FIRST, t[..pos]) else FIRST;
    ghost var start := Scanned(r.carry, [], Going);
    ghost var q := Scan(start, part);
    UpTo(t, end, s, pos);
    UpTo(t, end, s, to);
    if pos <= end {
      assert t[..to] == t[..pos] + part;
      ScanSplit(FIRST, t[..pos], part);
      ScanFrom(r.carry, r.bytes, part);
    } else {
      BehindEnd(t, end, s, pos, to);
    }
    ScanKeeps(start, part);
    ScanBound(start, part);
    LastBound(q.carry);
    var out := new Byte[3 * |part| + 2](_ => 0);
    var rv;
    rv, next := Base64Decode(part, out, true, state, r.carry);
    more := bytes + out[..rv];
    assert pos <= end < to ==> more == r.bytes + (q.bytes + Last(q.carry));
  }

  /** Decode a text that arrives in pieces: an encoded one, with skipped characters put in or taken out anywhere. */
  method DecodeStream(parts: seq<seq<Byte>>, ghost s: seq<Byte>, ghost lwidth: nat) returns (bytes: seq<Byte>)
    requires forall i :: 0 <= i < |parts| ==> parts[i] != []
    requires Essential(Flattened(parts)) == Essential(Encoded(s, lwidth))
    ensures bytes == s
  {
    hide Scan, Step, Encoded, PackDec, Last, Flattened, Essential;
    StartState();
    ghost var t := Flattened(parts);
    ghost var end := SpacedBack(t, s, lwidth);
    bytes := [];
    var state: nat := 0;
    NothingDecoded(t, end, s);
    ghost var pos: nat := 0;
    var i := 0;
    while i < |parts|
      invariant i <= |parts| && pos <= |t| && t[..pos] == Flattened(parts[..i])
      invariant DecodedUpTo(t, end, s, pos, state, bytes)
    {
      PartThere(parts, i, pos);
      state, bytes := DecodePart(parts[i], state, bytes, t, end, s, pos);
      pos := pos + |parts[i]|;
      i := i + 1;
    }
    assert parts[..i] == parts && t[..pos] == t;
  }

  lemma PartThere(parts: seq<seq<Byte>>, i: nat, pos: nat)
    requires i < |parts| && pos <= |Flattened(parts)| && Flattened(parts)[..pos] == Flattened(parts[..i])
    ensures var t := Flattened(parts); var to := pos + |parts[i]|;
            to <= |t| && t[pos..to] == parts[i] && t[..to] == Flattened(parts[..i + 1])
  {
    FlattenedPush(parts, i);
    var rest := FlattenedRest(parts, i + 1);
    var a := Flattened(parts[..i]);
    assert Flattened(parts) == a + parts[i] + rest;
    assert |a| == pos;
  }

  lemma {:induction false} FlattenedRest(parts: seq<seq<Byte>>, i: nat) returns (rest: seq<Byte>)
    requires i <= |parts|
    ensures Flattened(parts) == Flattened(parts[..i]) + rest
    decreases |parts|
  {
    if i == |parts| {
      rest := [];
      assert parts[..i] == parts;
    } else {
      var p := parts[..|parts| - 1];
      var r := FlattenedRest(p, i);
      assert p[..i] == parts[..i];
      rest := r + parts[|parts| - 1];
    }
  }

  lemma {:induction false} ScanBound(r: Scanned, s: seq<Byte>)
    ensures |Scan(r, s).bytes| <= |r.bytes| + 3 * |s|
  {
    if s == [] {
    } else {
      ScanBound(r, s[..|s| - 1]);
    }
  }

  lemma LastBound(carry: seq<Sextet>)
    ensures |Last(carry)| <= 2
  {
  }

  /** Cut a text into pieces of one length. */
  method CutUp(text: seq<Byte>, cut: nat) returns (parts: seq<seq<Byte>>)
    requires cut > 0
    ensures Flattened(parts) == text && forall i :: 0 <= i < |parts| ==> parts[i] != []
  {
    hide Flattened;
    parts := [];
    StartState();
    var pos := 0;
    while pos < |text|
      invariant pos <= |text| && Flattened(parts) == text[..pos] && forall i :: 0 <= i < |parts| ==> parts[i] != []
    {
      var end := if pos + cut < |text| then pos + cut else |text|;
      var more := parts + [text[pos..end]];
      FlattenedPush(more, |parts|);
      assert more[..|parts|] == parts && more[..|more|] == more;
      assert text[..end] == text[..pos] + text[pos..end];
      parts := more;
      pos := end;
    }
    assert text[..pos] == text;
  }

  /** Any chunks in, pieces of any length between, the message out. */
  method Transfer(chunks: seq<seq<Byte>>, lwidth: nat, cut: nat) returns (bytes: seq<Byte>)
    requires lwidth <= MAX_WIDTH && (forall i :: 0 <= i < |chunks| ==> chunks[i] != []) && cut > 0
    ensures bytes == Flattened(chunks)
  {
    hide Flattened, Encoded;
    var text := EncodeStream(chunks, lwidth);
    var parts := CutUp(text, cut);
    bytes := DecodeStream(parts, Flattened(chunks), lwidth);
  }
}
