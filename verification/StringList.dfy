/** Printing a list of strings as one line and parsing such a line. */
module StringList {
  import opened Bytes
  import opened ParamArgs

  const QUOTE: Byte := 34
  const BACKSLASH: Byte := 92
  const SPACE: Byte := 32
  const HASH: Byte := 35

  /** A C string is a sequence without the terminator. */
  ghost predicate NulFree(s: seq<Byte>) {
    forall i :: 0 <= i < |s| ==> s[i] != 0
  }

  predicate IsSpace(c: Byte) {
    9 <= c <= 13 || c == 32
  }

  class RefStrList {
    var items: seq<seq<Byte>>

    constructor (items: seq<seq<Byte>>)
      ensures this.items == items
    {
      this.items := items;
    }
  }

  // ----- the printed form

  predicate NeedsEscape(c: Byte) {
    c == BACKSLASH || c == QUOTE
  }

  function Escaped(s: seq<Byte>): seq<Byte> {
    if s == [] then [] else (if NeedsEscape(s[0]) then [BACKSLASH, s[0]] else [s[0]]) + Escaped(s[1..])
  }

  function Item(s: seq<Byte>): seq<Byte> {
    [QUOTE] + Escaped(s) + [QUOTE]
  }

  function Text(l: seq<seq<Byte>>): seq<Byte> {
    if l == [] then [] else Item(l[0]) + (if |l| > 1 then [SPACE] else []) + Text(l[1..])
  }

  /** What the printer computes before it prints. */
  function Escapes(s: seq<Byte>): nat {
    if s == [] then 0 else (if NeedsEscape(s[0]) then 1 else 0) + Escapes(s[1..])
  }

  function NeedLen(l: seq<seq<Byte>>): nat {
    if l == [] then 0 else |l[0]| + 3 + Escapes(l[0]) + NeedLen(l[1..])
  }

  lemma {:induction false} EscapedLength(s: seq<Byte>)
    ensures |Escaped(s)| == |s| + Escapes(s)
  {
    if s == [] {
    } else {
      EscapedLength(s[1..]);
    }
  }

  /** The space computed is exactly that of the text and its terminator. */
  lemma {:induction false} NeedIsExact(l: seq<seq<Byte>>)
    ensures |Text(l)| + 1 == if l == [] then 1 else NeedLen(l)
  {
    if l == [] {
    } else {
      EscapedLength(l[0]);
      NeedIsExact(l[1..]);
    }
  }

  // ----- the parser's reading of a text

  datatype Piece = Piece(str: seq<Byte>, rest: seq<Byte>, closed: bool)

  predicate Unescapes(c: Byte) {
    c == BACKSLASH || c == QUOTE || c == SPACE
  }

  function Before(c: Byte, p: Piece): Piece {
    p.(str := [c] + p.str)
  }

  /** A string in quotes, read from behind the opening one. */
  function Quoted(s: seq<Byte>): Piece {
    if s == [] then Piece([], [], false)
    else if s[0] == BACKSLASH then
      if |s| > 1 && Unescapes(s[1]) then Before(s[1], Quoted(s[2..])) else Before(BACKSLASH, Quoted(s[1..]))
    else if s[0] == QUOTE then Piece([], s[1..], true)
    else Before(s[0], Quoted(s[1..]))
  }

  /** A string without quotes around it; quotes inside keep spaces. */
  function Bare(s: seq<Byte>, inQuot: bool): Piece {
    if s == [] then Piece([], [], !inQuot)
    else if s[0] == BACKSLASH then
      if |s| > 1 && Unescapes(s[1]) then Before(s[1], Bare(s[2..], inQuot)) else Before(BACKSLASH, Bare(s[1..], inQuot))
    else if s[0] == QUOTE then Bare(s[1..], !inQuot)
    else if !inQuot && IsSpace(s[0]) then Piece([], s[1..], true)
    else Before(s[0], Bare(s[1..], inQuot))
  }

  function SkipSpace(s: seq<Byte>): (r: seq<Byte>)
    ensures |r| <= |s| && (r != [] ==> !IsSpace(r[0]))
  {
    if s != [] && IsSpace(s[0]) then SkipSpace(s[1..]) else s
  }

  lemma {:induction false} QuotedShorter(s: seq<Byte>)
    ensures |Quoted(s).rest| <= |s|
    decreases |s|
  {
    if s != [] && s[0] == BACKSLASH && |s| > 1 && Unescapes(s[1]) {
      QuotedShorter(s[2..]);
    } else if s != [] {
      QuotedShorter(s[1..]);
    }
  }

  lemma {:induction false} BareShorter(s: seq<Byte>, inQuot: bool)
    ensures |Bare(s, inQuot).rest| <= |s| && (s != [] && s[0] != QUOTE ==> |Bare(s, inQuot).rest| < |s|)
    decreases |s|
  {
    if s == [] {
    } else {
      if s[0] == BACKSLASH && |s| > 1 && Unescapes(s[1]) { BareShorter(s[2..], inQuot); }
      else if s[0] == QUOTE { BareShorter(s[1..], !inQuot); }
      else { BareShorter(s[1..], inQuot); }
    }
  }

  datatype Parsed = Parsed(items: seq<seq<Byte>>, closed: bool)

  /** The strings in a text; an unclosed last one is dropped. In a file, a # between two strings starts a comment. */
  function Tokens(s: seq<Byte>, fromFile: bool): Parsed
    decreases |s|
  {
    var t := SkipSpace(s);
    if t == [] || (fromFile && t[0] == HASH) then Parsed([], true)
    else
      var p := if t[0] == QUOTE then Quoted(t[1..]) else Bare(t, false);
      assert |p.rest| < |t| by { QuotedShorter(t[1..]); BareShorter(t, false); }
      if !p.closed then Parsed([], false)
      else var r := Tokens(p.rest, fromFile); Parsed([p.str] + r.items, r.closed)
  }

  function CutEnd(s: seq<Byte>): (r: seq<Byte>)
    ensures |r| <= |s| && (r != [] ==> !IsSpace(r[|r| - 1]))
  {
    if s != [] && IsSpace(s[|s| - 1]) then CutEnd(s[..|s| - 1]) else s
  }

  /** The first k characters, and one more if the last of them is a backslash. */
  function KeepEscaped(t: seq<Byte>, k: nat): seq<Byte>
    requires k <= |t|
  {
    if k > 0 && t[k - 1] == BACKSLASH && k < |t| then t[..k + 1] else t[..k]
  }

  /** Spaces around a value go, but not one behind a last backslash. */
  function Trimmed(value: seq<Byte>): seq<Byte> {
    var t := SkipSpace(value);
    KeepEscaped(t, |CutEnd(t)|)
  }

  /** What the parser makes of a value. */
  function Reading(value: seq<Byte>, fromFile: bool): Parsed {
    var t := Trimmed(value);
    if t == [] || (fromFile && t[0] == HASH) then Parsed([], true) else Tokens(t, fromFile)
  }

  // ----- parsing undoes printing

  lemma {:induction false} QuotedBack(s: seq<Byte>, rest: seq<Byte>)
    ensures Quoted(Escaped(s) + [QUOTE] + rest) == Piece(s, rest, true)
  {
    hide Quoted, NeedsEscape;
    if s == [] {
      assert Escaped(s) + [QUOTE] + rest == [QUOTE] + rest;
      QuotedEnd(rest);
    } else {
      QuotedBack(s[1..], rest);
      var t := Escaped(s[1..]) + [QUOTE] + rest;
      QuotedFirst(s[0], t);
      assert Escaped(s) + [QUOTE] + rest == (if NeedsEscape(s[0]) then [BACKSLASH, s[0]] else [s[0]]) + t;
      assert [s[0]] + s[1..] == s;
    }
  }

  lemma QuotedEnd(rest: seq<Byte>)
    ensures Quoted([QUOTE] + rest) == Piece([], rest, true)
  {
    assert ([QUOTE] + rest)[1..] == rest;
  }

  lemma QuotedFirst(b: Byte, t: seq<Byte>)
    ensures Quoted((if NeedsEscape(b) then [BACKSLASH, b] else [b]) + t) == Before(b, Quoted(t))
  {
    assert ([BACKSLASH, b] + t)[2..] == t && ([b] + t)[1..] == t;
  }

  lemma FirstToken(t: seq<Byte>, fromFile: bool)
    requires t != [] && t[0] == QUOTE && Quoted(t[1..]).closed
    ensures |Quoted(t[1..]).rest| < |t|
    ensures var p := Quoted(t[1..]); var r := Tokens(p.rest, fromFile);
            Tokens(t, fromFile) == Parsed([p.str] + r.items, r.closed)
  {
    hide Quoted, Bare;
    QuotedShorter(t[1..]);
  }

  lemma SpaceFirst(t: seq<Byte>, fromFile: bool)
    ensures Tokens([SPACE] + t, fromFile) == Tokens(t, fromFile)
  {
    hide Quoted, Bare;
    assert ([SPACE] + t)[1..] == t;
    assert SkipSpace([SPACE] + t) == SkipSpace(t);
  }

  /** The first item of a printed list and what follows. */
  lemma ItemBack(x: seq<Byte>, rest: seq<Byte>, fromFile: bool)
    ensures Tokens(Item(x) + rest, fromFile) == (var r := Tokens(rest, fromFile); Parsed([x] + r.items, r.closed))
  {
    hide Quoted, Escaped, Tokens;
    var t := Item(x) + rest;
    assert t[1..] == Escaped(x) + [QUOTE] + rest;
    QuotedBack(x, rest);
    FirstToken(t, fromFile);
  }

  lemma {:induction false} TokensBack(l: seq<seq<Byte>>, fromFile: bool)
    ensures Tokens(Text(l), fromFile) == Parsed(l, true)
  {
    hide Item, Tokens;
    if l == [] {
      NoTokens(fromFile);
    } else {
      var rest := (if |l| > 1 then [SPACE] else []) + Text(l[1..]);
      assert Text(l) == Item(l[0]) + rest;
      TokensBack(l[1..], fromFile);
      RestBack(Text(l[1..]), |l| > 1, fromFile);
      ItemBack(l[0], rest, fromFile);
      assert [l[0]] + l[1..] == l;
    }
  }

  lemma NoTokens(fromFile: bool)
    ensures Tokens([], fromFile) == Parsed([], true)
  {
  }

  lemma RestBack(t: seq<Byte>, space: bool, fromFile: bool)
    ensures Tokens((if space then [SPACE] else []) + t, fromFile) == Tokens(t, fromFile)
  {
    hide Tokens;
    if space { SpaceFirst(t, fromFile); } else { assert [] + t == t; }
  }

  lemma {:induction false} TextEnds(l: seq<seq<Byte>>)
    requires l != []
    ensures Text(l) != [] && Text(l)[0] == QUOTE && Text(l)[|Text(l)| - 1] == QUOTE
  {
    if |l| <= 1 {
    } else {
      TextEnds(l[1..]);
    }
  }

  /** Parsing the printed form of a list gives the list back, be it read from a file or not. */
  lemma RoundTrip(l: seq<seq<Byte>>, fromFile: bool)
    ensures Reading(Text(l), fromFile) == Parsed(l, true)
  {
    if l == [] {
      assert Trimmed([]) == [];
    } else {
      RoundTripSome(l, fromFile);
    }
  }

  lemma RoundTripSome(l: seq<seq<Byte>>, fromFile: bool)
    requires l != []
    ensures Reading(Text(l), fromFile) == Parsed(l, true)
  {
    hide Tokens, Text, Trimmed;
    TextEnds(l);
    TokensBack(l, fromFile);
    NothingToTrim(Text(l));
  }

  lemma NothingToTrim(s: seq<Byte>)
    requires s != [] && !IsSpace(s[0]) && !IsSpace(s[|s| - 1])
    ensures Trimmed(s) == s
  {
    assert SkipSpace(s) == s && CutEnd(s) == s && s[..|s|] == s;
  }

  // ----- the printer

  method ComputeNeed(l: seq<seq<Byte>>) returns (need: nat)
    ensures need == if l == [] then 1 else NeedLen(l)
  {
    need := 0;
    var i := 0;
    while i < |l|
      invariant i <= |l| && need + NeedLen(l[i..]) == NeedLen(l)
    {
      need := need + |l[i]| + 3;
      var c := 0;
      ghost var base := need;
      while c < |l[i]|
        invariant c <= |l[i]| && need + Escapes(l[i][c..]) == base + Escapes(l[i])
      {
        if l[i][c] == BACKSLASH || l[i][c] == QUOTE { need := need + 1; }
        assert l[i][c..][1..] == l[i][c + 1..];
        c := c + 1;
      }
      assert l[i..][1..] == l[i + 1..];
      i := i + 1;
    }
    if l == [] { need := need + 1; }
  }

  method PutEscaped(out: array<Byte>, pos: nat, s: seq<Byte>, ghost text: seq<Byte>, ghost before: seq<Byte>)
      returns (d: nat)
    requires Written(out, text, before) && pos == |text| && pos + |Escaped(s)| <= out.Length
    modifies out
    ensures Written(out, text + Escaped(s), before) && d == pos + |Escaped(s)|
  {
    hide Bytes.Written;
    d := pos;
    ghost var done: seq<Byte> := [];
    assert text + done == text;
    var c := 0;
    while c < |s|
      invariant c <= |s| && done + Escaped(s[c..]) == Escaped(s)
      invariant d == |text| + |done| && Written(out, text + done, before)
    {
      ghost var e := if NeedsEscape(s[c]) then [BACKSLASH, s[c]] else [s[c]];
      assert s[c..][1..] == s[c + 1..];
      Regroup(done, e, Escaped(s[c + 1..]));
      Regroup(text, done, e);
      if s[c] == BACKSLASH || s[c] == QUOTE {
        Put(out, d, [BACKSLASH, s[c]], text + done, before);
        d := d + 2;
      } else {
        Put(out, d, [s[c]], text + done, before);
        d := d + 1;
      }
      done := done + e;
      c := c + 1;
    }
    assert done + [] == done;
  }

  lemma Regroup(a: seq<Byte>, b: seq<Byte>, c: seq<Byte>)
    ensures (a + b) + c == a + (b + c)
  {
  }

  method PutItem(out: array<Byte>, pos: nat, s: seq<Byte>, ghost text: seq<Byte>, ghost before: seq<Byte>)
      returns (d: nat)
    requires Written(out, text, before) && pos == |text| && pos + |Item(s)| <= out.Length
    modifies out
    ensures Written(out, text + Item(s), before) && d == pos + |Item(s)|
  {
    hide Bytes.Written, Escaped;
    Put(out, pos, [QUOTE], text, before);
    d := PutEscaped(out, pos + 1, s, text + [QUOTE], before);
    Put(out, d, [QUOTE], text + [QUOTE] + Escaped(s), before);
    assert text + [QUOTE] + Escaped(s) + [QUOTE] == text + Item(s);
    d := d + 1;
  }

  /** Print into the buffer passed if it is long enough, else into a new one; nothing behind the terminator is
      touched. */
  method Print(sl: RefStrList, dest: array?<Byte>) returns (out: array<Byte>)
    modifies dest
    ensures var t := Text(sl.items) + [0]; |t| <= out.Length && out[..|t|] == t
    ensures if dest != null && |Text(sl.items)| + 1 <= dest.Length then
              out == dest && out[|Text(sl.items)| + 1..] == old(dest[..])[|Text(sl.items)| + 1..]
            else fresh(out) && out.Length == |Text(sl.items)| + 1
  {
    hide Bytes.Written, Item, Text, NeedLen;
    ghost var l := sl.items;
    var need := ComputeNeed(sl.items);
    NeedIsExact(l);
    if dest != null && dest.Length >= need { out := dest; } else { out := new Byte[need](_ => 0); }
    ghost var before := out[..];
    WrittenNothing(out);
    ghost var done: seq<Byte> := [];
    var d, i := 0, 0;
    while i < |sl.items|
      invariant i <= |l| && done + Text(l[i..]) == Text(l)
      invariant d == |done| && Written(out, done, before)
    {
      TextStep(l, i);
      ghost var item, rest := Item(l[i]), Text(l[i + 1..]);
      assert |done| + |Text(l[i..])| == |Text(l)|;
      ghost var sep := if i + 1 < |l| then [SPACE] else [];
      Regroup(done, item, sep + rest);
      Regroup(done + item, sep, rest);
      Regroup(item, sep, rest);
      d := PutItem(out, d, sl.items[i], done, before);
      if i + 1 < |sl.items| {
        Put(out, d, [SPACE], done + item, before);
        d := d + 1;
      }
      done := done + item + sep;
      assert i + 1 == |l| ==> done == done[..|done|] && sep == [];
      i := i + 1;
    }
    TextStep(l, i);
    assert done == Text(l);
    Put(out, d, [0], done, before);
    WrittenIs(out, done + [0], before);
  }

  lemma TextStep(l: seq<seq<Byte>>, i: nat)
    requires i <= |l|
    ensures if i < |l| then Text(l[i..]) == Item(l[i]) + (if i + 1 < |l| then [SPACE] else []) + Text(l[i + 1..])
            else Text(l[i..]) == []
  {
    hide Item;
    if i < |l| { assert l[i..][1..] == l[i + 1..]; }
  }

  // ----- the parser

  /** The part of the copy from tc on has not been overwritten. */
  ghost predicate Unread(tmp: array<Byte>, t: seq<Byte>, tc: nat)
    reads tmp
  {
    tmp.Length == |t| + 1 && tc <= |t| && tmp[|t|] == 0 && NulFree(t) && forall k :: tc <= k < |t| ==> tmp[k] == t[k]
  }

  /** Write behind the read pointer. */
  method Overwrite(tmp: array<Byte>, ghost begin: nat, dest: nat, b: Byte, ghost t: seq<Byte>, ghost tc: nat)
    requires Unread(tmp, t, tc) && begin <= dest < tc
    modifies tmp
    ensures Unread(tmp, t, tc) && tmp[begin..dest + 1] == old(tmp[begin..dest]) + [b]
  {
    tmp[dest] := b;
  }

  lemma Peek(tmp: array<Byte>, t: seq<Byte>, tc: nat)
    requires Unread(tmp, t, tc)
    ensures tmp.Length == |t| + 1 && tc <= |t| && (tmp[tc] == 0 <==> tc == |t|)
    ensures tc < |t| ==> tmp[tc] == t[tc] && Unread(tmp, t, tc + 1)
  {
  }

  lemma QuotedStep(t: seq<Byte>, tc: nat)
    requires tc <= |t|
    ensures Quoted(t[tc..]) ==
            if tc == |t| then Piece([], [], false)
            else if t[tc] == BACKSLASH then
              if tc + 1 < |t| && Unescapes(t[tc + 1]) then Before(t[tc + 1], Quoted(t[tc + 2..]))
              else Before(BACKSLASH, Quoted(t[tc + 1..]))
            else if t[tc] == QUOTE then Piece([], t[tc + 1..], true)
            else Before(t[tc], Quoted(t[tc + 1..]))
  {
    if tc < |t| {
      assert t[tc..][1..] == t[tc + 1..];
      if tc + 1 < |t| { assert t[tc..][2..] == t[tc + 2..]; }
    }
  }

  lemma BareStep(t: seq<Byte>, tc: nat, inQuot: bool)
    requires tc <= |t|
    ensures Bare(t[tc..], inQuot) ==
            if tc == |t| then Piece([], [], !inQuot)
            else if t[tc] == BACKSLASH then
              if tc + 1 < |t| && Unescapes(t[tc + 1]) then Before(t[tc + 1], Bare(t[tc + 2..], inQuot))
              else Before(BACKSLASH, Bare(t[tc + 1..], inQuot))
            else if t[tc] == QUOTE then Bare(t[tc + 1..], !inQuot)
            else if !inQuot && IsSpace(t[tc]) then Piece([], t[tc + 1..], true)
            else Before(t[tc], Bare(t[tc + 1..], inQuot))
  {
    if tc < |t| {
      assert t[tc..][1..] == t[tc + 1..];
      if tc + 1 < |t| { assert t[tc..][2..] == t[tc + 2..]; }
    }
  }

  /** What has been read before what is still to be read. */
  function Prefixed(acc: seq<Byte>, q: Piece): Piece {
    q.(str := acc + q.str)
  }

  lemma PrefixedBefore(acc: seq<Byte>, b: Byte, q: Piece)
    ensures Prefixed(acc, Before(b, q)) == Prefixed(acc + [b], q)
  {
    Regroup(acc, [b], q.str);
  }

  lemma PrefixedEnd(acc: seq<Byte>, q: Piece)
    requires q.str == []
    ensures Prefixed(acc, q) == q.(str := acc)
  {
  }

  /** Read a quoted string; its unescaped form replaces it, and the write pointer stays behind the read pointer. */
  method ReadQuoted(tmp: array<Byte>, begin: nat, ghost t: seq<Byte>) returns (str: seq<Byte>, tc: nat, closed: bool)
    requires Unread(tmp, t, begin) && begin < |t| && t[begin] == QUOTE
    modifies tmp
    ensures var p := Quoted(t[begin + 1..]);
            closed == p.closed
            && (closed ==> str == p.str && begin < tc <= |t| && t[tc..] == p.rest && Unread(tmp, t, tc))
  {
    hide Quoted, Unread, Prefixed, Before;
    Peek(tmp, t, begin);
    var dest := begin;
    tc := begin + 1;
    str, closed := [], false;
    ghost var p, acc := Quoted(t[tc..]), tmp[begin..dest];
    assert acc == [];
    PrefixedStart(p);
    while true
      invariant begin <= dest < tc <= |t| && Unread(tmp, t, tc) && tmp.Length == |t| + 1
      invariant acc == tmp[begin..dest] && p == Prefixed(acc, Quoted(t[tc..]))
      decreases |t| - tc
    {
      Peek(tmp, t, tc);
      QuotedStep(t, tc);
      var c := tmp[tc];
      if c == BACKSLASH {
        Peek(tmp, t, tc + 1);
        if tmp[tc + 1] == BACKSLASH || tmp[tc + 1] == QUOTE || tmp[tc + 1] == SPACE {
          tc := tc + 1;
          c := tmp[tc];
        }
      } else if c == QUOTE {
        PrefixedEnd(acc, Piece([], t[tc + 1..], true));
        str := tmp[begin..dest];
        Overwrite(tmp, begin, dest, 0, t, tc + 1);
        tc := tc + 1;
        closed := true;
        return;
      } else if c == 0 {
        PrefixedEnd(acc, Piece([], [], false));
        return;
      }
      PrefixedBefore(acc, c, Quoted(t[tc + 1..]));
      Overwrite(tmp, begin, dest, c, t, tc + 1);
      acc := acc + [c];
      dest := dest + 1;
      tc := tc + 1;
    }
  }

  lemma PrefixedStart(q: Piece)
    ensures Prefixed([], q) == q
  {
    assert [] + q.str == q.str;
  }

  /** Read a string that does not start with a quote. */
  method ReadBare(tmp: array<Byte>, begin: nat, ghost t: seq<Byte>) returns (str: seq<Byte>, tc: nat, closed: bool)
    requires Unread(tmp, t, begin) && begin < |t|
    modifies tmp
    ensures var p := Bare(t[begin..], false);
            closed == p.closed
            && (closed ==> str == p.str && begin <= tc <= |t| && t[tc..] == p.rest && Unread(tmp, t, tc))
  {
    hide Bare, Unread, Prefixed, Before;
    Peek(tmp, t, begin);
    var dest := begin;
    var inQuot := false;
    tc := begin;
    str, closed := [], false;
    ghost var p, acc := Bare(t[tc..], false), tmp[begin..dest];
    assert acc == [];
    PrefixedStart(p);
    while true
      invariant begin <= dest <= tc <= |t| && Unread(tmp, t, tc) && tmp.Length == |t| + 1
      invariant acc == tmp[begin..dest] && p == Prefixed(acc, Bare(t[tc..], inQuot))
      decreases |t| - tc
    {
      Peek(tmp, t, tc);
      BareStep(t, tc, inQuot);
      var c := tmp[tc];
      if c == QUOTE {
        inQuot := !inQuot;
        tc := tc + 1;
        continue;
      }
      if c == BACKSLASH {
        Peek(tmp, t, tc + 1);
        if tmp[tc + 1] == SPACE || tmp[tc + 1] == QUOTE || tmp[tc + 1] == BACKSLASH {
          tc := tc + 1;
          c := tmp[tc];
        }
      } else if c == 0 {
        PrefixedEnd(acc, Piece([], [], !inQuot));
        if !inQuot { break; }
        return;
      } else if !inQuot && IsSpace(c) {
        PrefixedEnd(acc, Piece([], t[tc + 1..], true));
        tc := tc + 1;
        break;
      }
      PrefixedBefore(acc, c, Bare(t[tc + 1..], inQuot));
      Overwrite(tmp, begin, dest, c, t, tc + 1);
      acc := acc + [c];
      dest := dest + 1;
      tc := tc + 1;
    }
    str := tmp[begin..dest];
    Terminate(tmp, dest, t, tc);
    closed := true;
  }

  method Terminate(tmp: array<Byte>, dest: nat, ghost t: seq<Byte>, ghost tc: nat)
    requires Unread(tmp, t, tc) && (dest < tc || dest == tc == |t|)
    modifies tmp
    ensures Unread(tmp, t, tc)
  {
    tmp[dest] := 0;
  }

  // ----- parsing a value

  datatype ParseState = Success | ArgUnterminated | IllegalAssMode | Aborted

  function ReadingOf(value: Value, fromFile: bool): Parsed {
    if value.NoValue? then Parsed([], true) else Reading(value.text, fromFile)
  }

  function Reads(arg: ParamArg): Parsed {
    ReadingOf(arg.Source(), arg.origin.FromFile?)
  }

  /** The last character of a value that is no space. */
  method LastNonSpace(s: seq<Byte>) returns (pend: nat)
    requires s != [] && !IsSpace(s[0])
    ensures pend < |s| && |CutEnd(s)| == pend + 1
  {
    pend := |s| - 1;
    assert s[..pend + 1] == s;
    while IsSpace(s[pend])
      invariant pend < |s| && CutEnd(s) == CutEnd(s[..pend + 1])
      decreases pend
    {
      assert s[..pend + 1][..pend] == s[..pend];
      pend := pend - 1;
    }
  }

  method FirstNonSpace(value: seq<Byte>) returns (p: nat)
    ensures p <= |value| && SkipSpace(value) == value[p..] && (p < |value| ==> !IsSpace(value[p]))
  {
    p := 0;
    assert value[0..] == value;
    while p < |value| && IsSpace(value[p])
      invariant p <= |value| && SkipSpace(value) == SkipSpace(value[p..])
    {
      assert value[p..][1..] == value[p + 1..];
      p := p + 1;
    }
  }

  /** The part of a value between the spaces around it, or nothing to parse. */
  method Trim(value: seq<Byte>, fromFile: bool) returns (some: bool, t: seq<Byte>)
    ensures some ==> t == Trimmed(value) && t != [] && !(fromFile && t[0] == HASH)
    ensures !some ==> var r := Trimmed(value); r == [] || (fromFile && r[0] == HASH)
  {
    hide CutEnd, SkipSpace;
    var p := FirstNonSpace(value);
    var s := value[p..];
    if s == [] { return false, []; }
    var pend := LastNonSpace(s);
    if fromFile && s[0] == HASH { return false, []; }
    if s[pend] == BACKSLASH && pend + 1 < |s| { pend := pend + 1; }
    t := s[..pend + 1];
    some := true;
  }

  /** Split the copy into strings, in place. */
  method Split(tmp: array<Byte>, fromFile: bool, ghost t: seq<Byte>) returns (list: seq<seq<Byte>>, closed: bool)
    requires Unread(tmp, t, 0)
    modifies tmp
    ensures Parsed(list, closed) == Tokens(t, fromFile)
  {
    hide Unread, Quoted, Bare, Tokens, SkipSpace;
    list, closed := [], true;
    var tc := 0;
    ghost var all := Tokens(t, fromFile);
    assert t[0..] == t;
    Collected0(all);
    Peek(tmp, t, 0);
    while true
      invariant tc <= |t| && Unread(tmp, t, tc) && closed && tmp.Length == |t| + 1
      invariant all == Collected(list, Tokens(t[tc..], fromFile))
      decreases |t| - tc
    {
      ghost var from := tc;
      Peek(tmp, t, tc);
      while IsSpace(tmp[tc])
        invariant from <= tc <= |t| && Unread(tmp, t, tc) && tmp.Length == |t| + 1
        invariant Tokens(t[from..], fromFile) == Tokens(t[tc..], fromFile)
        decreases |t| - tc
        modifies {}
      {
        Peek(tmp, t, tc);
        SpaceSkipped(t, tc, fromFile);
        tc := tc + 1;
      }
      Peek(tmp, t, tc);
      TokenStep(t, tc, fromFile);
      if tmp[tc] == 0 || (fromFile && tmp[tc] == HASH) {
        CollectedEnd(list, true);
        return;
      }
      var begin := tc;
      var str, ok;
      if tmp[tc] == QUOTE { str, tc, ok := ReadQuoted(tmp, begin, t); } else { str, tc, ok := ReadBare(tmp, begin, t); }
      if !ok {
        CollectedEnd(list, false);
        closed := false;
        return;
      }
      CollectedOne(list, str, Tokens(t[tc..], fromFile));
      list := list + [str];
    }
  }

  /** Strings found before those still to be found. */
  function Collected(list: seq<seq<Byte>>, r: Parsed): Parsed {
    r.(items := list + r.items)
  }

  lemma Collected0(r: Parsed)
    ensures Collected([], r) == r
  {
    assert [] + r.items == r.items;
  }

  lemma CollectedOne(list: seq<seq<Byte>>, x: seq<Byte>, r: Parsed)
    ensures Collected(list, Parsed([x] + r.items, r.closed)) == Collected(list + [x], r)
  {
    assert list + ([x] + r.items) == list + [x] + r.items;
  }

  lemma CollectedEnd(list: seq<seq<Byte>>, closed: bool)
    ensures Collected(list, Parsed([], closed)) == Parsed(list, closed)
  {
    assert list + [] == list;
  }

  lemma SpaceSkipped(t: seq<Byte>, tc: nat, fromFile: bool)
    requires tc < |t| && IsSpace(t[tc])
    ensures Tokens(t[tc..], fromFile) == Tokens(t[tc + 1..], fromFile)
  {
    hide Quoted, Bare;
    assert t[tc..][1..] == t[tc + 1..];
    assert SkipSpace(t[tc..]) == SkipSpace(t[tc + 1..]);
  }

  lemma TokenStep(t: seq<Byte>, tc: nat, fromFile: bool)
    requires tc <= |t| && (tc < |t| ==> !IsSpace(t[tc]))
    ensures Tokens(t[tc..], fromFile) ==
            if tc == |t| || (fromFile && t[tc] == HASH) then Parsed([], true)
            else
              var p := if t[tc] == QUOTE then Quoted(t[tc + 1..]) else Bare(t[tc..], false);
              if !p.closed then Parsed([], false)
              else var r := Tokens(p.rest, fromFile); Parsed([p.str] + r.items, r.closed)
    ensures tc < |t| ==>
              (t[tc] == QUOTE ==> |Quoted(t[tc + 1..]).rest| < |t| - tc)
              && (t[tc] != QUOTE ==> |Bare(t[tc..], false).rest| < |t| - tc)
  {
    hide Quoted, Bare;
    var s := t[tc..];
    assert SkipSpace(s) == s;
    if s != [] {
      assert s[1..] == t[tc + 1..];
      QuotedShorter(s[1..]);
      BareShorter(s, false);
    }
  }

  /** The working copy. */
  method Copied(t: seq<Byte>) returns (tmp: array<Byte>)
    requires NulFree(t)
    ensures fresh(tmp) && Unread(tmp, t, 0)
  {
    hide NulFree;
    tmp := new Byte[|t| + 1](i => if 0 <= i < |t| then t[i] else 0);
  }

  /** The strings of a value, and whether all quotes are closed. */
  method ParseValue(value: Value, fromFile: bool) returns (list: seq<seq<Byte>>, closed: bool)
    requires value.Value? ==> NulFree(value.text)
    ensures Parsed(list, closed) == ReadingOf(value, fromFile)
  {
    hide NulFree, Tokens, Trimmed, Unread;
    list, closed := [], true;
    if value.Value? {
      var some, t := Trim(value.text, fromFile);
      if some {
        TrimmedPart(value.text);
        var tmp := Copied(t);
        list, closed := Split(tmp, fromFile, t);
      }
    }
  }

  /** Parse a value into a list. A value that stops inside quotes still assigns the strings before. An option has no
      mode, so the value it takes from the next argument is marked as done but never assigned: the program ends if
      assertions are compiled in, and the mode is illegal otherwise. Nor can a list lose strings. */
  method Parse(sl: RefStrList, arg: ParamArg, asserting: bool) returns (rv: ParseState)
    requires arg.Valid() && (arg.Source().Value? ==> NulFree(arg.Source().text))
    modifies sl, arg.Following()
    ensures sl.items == (match arg.mode
                         case Assign => Reads(arg).items
                         case Append => old(sl.items) + Reads(arg).items
                         case NoMode => old(sl.items)
                         case Remove => old(sl.items))
    ensures rv == (match arg.mode
                   case NoMode => if asserting then Aborted else IllegalAssMode
                   case Remove => Aborted
                   case _ => if Reads(arg).closed then Success else ArgUnterminated)
    ensures arg.next != null ==> arg.next.pdone == if arg.TakesNext() then 1 else old(arg.next.pdone)
    ensures !arg.atype.Assignment? ==> sl.items == old(sl.items) && (rv.IllegalAssMode? || rv.Aborted?)
  {
    hide Reading, NulFree;
    var value := arg.value;
    if arg.ValueInNextArg() {
      var nx := arg.next;
      if nx.atype.Unknown? || nx.atype.Filename? {
        value := nx.arg;
        nx.pdone := 1;
      }
    }
    var list, closed := ParseValue(value, arg.origin.FromFile?);
    rv := if closed then Success else ArgUnterminated;
    match arg.mode
    case NoMode => rv := if asserting then Aborted else IllegalAssMode;
    case Assign => sl.items := list;
    case Append => sl.items := sl.items + list;
    case Remove => rv := Aborted;
  }

  lemma {:induction false} SkipNulFree(s: seq<Byte>)
    requires NulFree(s)
    ensures NulFree(SkipSpace(s))
  {
    if s == [] || !IsSpace(s[0]) {
    } else {
      SkipNulFree(s[1..]);
    }
  }

  lemma TrimmedPart(value: seq<Byte>)
    requires NulFree(value)
    ensures NulFree(Trimmed(value))
  {
    hide SkipSpace, CutEnd;
    SkipNulFree(value);
    PartNulFree(SkipSpace(value), |CutEnd(SkipSpace(value))|);
  }

  lemma PartNulFree(t: seq<Byte>, k: nat)
    requires NulFree(t) && k <= |t|
    ensures NulFree(KeepEscaped(t, k))
  {
  }

  /** What is printed can be parsed: a parameter of a file or the environment with the printed list as its value
      assigns that list or appends it. */
  method PrintThenParse(from: RefStrList, to: RefStrList, append: bool, fromFile: bool) returns (rv: ParseState)
    requires forall i :: 0 <= i < |from.items| ==> NulFree(from.items[i])
    modifies to
    ensures rv == Success
    ensures to.items == (if append then old(to.items) else []) + old(from.items)
  {
    hide Text, Reading, NulFree;
    var text := Printed(from, fromFile);
    var mode := if append then Append else Assign;
    var arg := new ParamArg.Setting(Value(text), [], mode, Value(text), fromFile);
    rv := Parse(to, arg, true);
  }

  /** So does an argument of the command line that names the list, whatever the dashes and the name. */
  method PrintThenPass(from: RefStrList, to: RefStrList, append: bool, k: nat, name: seq<Byte>)
    returns (rv: ParseState)
    requires forall i :: 0 <= i < |from.items| ==> NulFree(from.items[i])
    requires WellNamed(k, name, if append then Append else Assign)
    modifies to
    ensures rv == Success
    ensures to.items == (if append then old(to.items) else []) + old(from.items)
  {
    hide Text, Reading, NulFree, WellNamed, Spelled;
    var text := Printed(from, false);
    var mode := if append then Append else Assign;
    var arg := new ParamArg.CmdLine(Value(Spelled(k, name, mode, text)), null);
    SpelledBack(arg, k, name, mode, text);
    rv := Parse(to, arg, true);
  }

  method Printed(from: RefStrList, ghost fromFile: bool) returns (text: seq<Byte>)
    requires forall i :: 0 <= i < |from.items| ==> NulFree(from.items[i])
    ensures NulFree(text) && Reading(text, fromFile) == Parsed(from.items, true)
  {
    hide Text, Reading, Written, NulFree;
    ghost var l := from.items;
    var out := Print(from, null);
    TextNulFree(l);
    RoundTrip(l, fromFile);
    text := out[..out.Length - 1];
    assert text == Text(l) by { assert (Text(l) + [0])[..|Text(l)|] == Text(l); }
  }

  lemma {:induction false} EscapedNulFree(s: seq<Byte>)
    requires NulFree(s)
    ensures NulFree(Escaped(s))
  {
    if s == [] {
    } else {
      EscapedNulFree(s[1..]);
    }
  }

  lemma {:induction false} TextNulFree(l: seq<seq<Byte>>)
    requires forall i :: 0 <= i < |l| ==> NulFree(l[i])
    ensures NulFree(Text(l))
  {
    if l == [] {
    } else {
      EscapedNulFree(l[0]);
      TextNulFree(l[1..]);
    }
  }
}
