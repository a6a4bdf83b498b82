/** All the ways to write a list of strings, and that the parser reads each of them as that list. */
module StringGrammar {
  import opened Bytes
  import opened StringList

  /** How a character is written: as itself or behind a backslash. A quote that belongs to no string switches between
      the inside and the outside of quotes. */
  datatype Glyph = Self(c: Byte) | Escape(c: Byte) | Toggle

  /** Tab, newline, vertical tab, form feed, carriage return and space. */
  predicate White(c: Byte) {
    c in [9, 10, 11, 12, 13, 32]
  }

  ghost predicate AllWhite(s: seq<Byte>) {
    forall i :: 0 <= i < |s| ==> White(s[i])
  }

  /** Space, quote and backslash. */
  predicate Escapable(c: Byte) {
    c in [32, 34, 92]
  }

  function Sign(g: Glyph): seq<Byte> {
    match g
    case Self(c) => [c]
    case Escape(c) => [92, c]
    case Toggle => [34]
  }

  function Shown(gs: seq<Glyph>): seq<Byte> {
    if gs == [] then [] else Sign(gs[0]) + Shown(gs[1..])
  }

  /** The string that is meant. */
  function Meant(gs: seq<Glyph>): seq<Byte> {
    if gs == [] then [] else (if gs[0].Toggle? then [] else [gs[0].c]) + Meant(gs[1..])
  }

  /** Whether quotes are open behind the glyphs. */
  function OpenAfter(gs: seq<Glyph>, inQuot: bool): bool {
    if gs == [] then inQuot else OpenAfter(gs[1..], if gs[0].Toggle? then !inQuot else inQuot)
  }

  /** White space stands for itself inside quotes only, a backslash where nothing that it could escape follows, and a
      quote never. */
  predicate Fits(gs: seq<Glyph>, inQuot: bool, rest: seq<Byte>) {
    gs == [] ||
    match gs[0]
    case Self(c) =>
      && c != 34 && (White(c) ==> inQuot)
      && (c == 92 ==> var t := Shown(gs[1..]) + rest; t == [] || !Escapable(t[0]))
      && Fits(gs[1..], inQuot, rest)
    case Escape(c) => Escapable(c) && Fits(gs[1..], inQuot, rest)
    case Toggle => Fits(gs[1..], !inQuot, rest)
  }

  predicate NoToggle(gs: seq<Glyph>) {
    forall i :: 0 <= i < |gs| ==> !gs[i].Toggle?
  }

  /** A text: strings with white space before them, and its end. A string is either within quotes as a whole, or begins
      outside. A text can end in a comment or in a string whose quotes are left open. */
  datatype Line =
    | End(white: seq<Byte>)
    | Comment(white: seq<Byte>, remark: seq<Byte>)
    | Unclosed(white: seq<Byte>, within: bool, gs: seq<Glyph>)
    | Item(white: seq<Byte>, within: bool, gs: seq<Glyph>, more: Line)

  function LineText(l: Line): seq<Byte> {
    match l
    case End(w) => w
    case Comment(w, remark) => w + [35] + remark
    case Unclosed(w, within, gs) => w + (if within then [34] else []) + Shown(gs)
    case Item(w, within, gs, more) => w + (if within then [34] + Shown(gs) + [34] else Shown(gs)) + LineText(more)
  }

  /** The strings written. */
  function Items(l: Line): seq<seq<Byte>> {
    if l.Item? then [Meant(l.gs)] + Items(l.more) else []
  }

  function AllClosed(l: Line): bool {
    if l.Item? then AllClosed(l.more) else !l.Unclosed?
  }

  /** A string that begins outside quotes begins with a character, in a file not with #, and is followed by white
      space or the end. Comments are for files. */
  ghost predicate LineOk(l: Line, fromFile: bool) {
    AllWhite(l.white) &&
    match l
    case End(_) => true
    case Comment(_, _) => fromFile
    case Unclosed(_, within, gs) =>
      if within then NoToggle(gs) && Fits(gs, true, [])
      else Begins(gs, fromFile) && Fits(gs, false, []) && OpenAfter(gs, false)
    case Item(_, within, gs, more) =>
      LineOk(more, fromFile)
      && var rest := LineText(more);
         if within then NoToggle(gs) && Fits(gs, true, [34] + rest)
         else
           Begins(gs, fromFile) && Fits(gs, false, rest) && !OpenAfter(gs, false) && (rest == [] || White(rest[0]))
  }

  predicate Begins(gs: seq<Glyph>, fromFile: bool) {
    gs != [] && !gs[0].Toggle? && (fromFile ==> gs[0] != Self(35))
  }

  // ----- what is written is what is read

  lemma FirstGlyph(gs: seq<Glyph>, rest: seq<Byte>)
    requires gs != []
    ensures var s := Shown(gs) + rest; var t := Shown(gs[1..]) + rest;
            s == Sign(gs[0]) + t && s != [] && s[|Sign(gs[0])|..] == t
  {
  }

  lemma {:induction false} BareBack(gs: seq<Glyph>, inQuot: bool, rest: seq<Byte>)
    requires Fits(gs, inQuot, rest) && (rest == [] || (White(rest[0]) && !OpenAfter(gs, inQuot)))
    ensures Bare(Shown(gs) + rest, inQuot) ==
            Piece(Meant(gs), if rest == [] then [] else rest[1..], !OpenAfter(gs, inQuot))
  {
    if gs == [] {
      assert Shown(gs) + rest == rest;
    } else {
      FirstGlyph(gs, rest);
      BareBack(gs[1..], if gs[0].Toggle? then !inQuot else inQuot, rest);
      BareFirst(gs[0], Shown(gs[1..]) + rest, inQuot);
    }
  }

  lemma BareFirst(g: Glyph, t: seq<Byte>, inQuot: bool)
    requires g.Self? ==> g.c != 34 && (White(g.c) ==> inQuot) && (g.c == 92 ==> t == [] || !Escapable(t[0]))
    requires g.Escape? ==> Escapable(g.c)
    ensures Bare(Sign(g) + t, inQuot) == if g.Toggle? then Bare(t, !inQuot) else Before(g.c, Bare(t, inQuot))
  {
    var s := Sign(g) + t;
    assert s[|Sign(g)|..] == t;
  }

  lemma {:induction false} WithinBack(gs: seq<Glyph>, t: seq<Byte>)
    requires t != [] && t[0] == 34 && NoToggle(gs) && Fits(gs, true, t)
    ensures Quoted(Shown(gs) + t) == Piece(Meant(gs), t[1..], true)
  {
    if gs == [] {
      assert Shown(gs) + t == t;
    } else {
      FirstGlyph(gs, t);
      WithinBack(gs[1..], t);
      WithinFirst(gs[0], Shown(gs[1..]) + t);
    }
  }

  lemma {:induction false} WithinOpen(gs: seq<Glyph>)
    requires NoToggle(gs) && Fits(gs, true, [])
    ensures !Quoted(Shown(gs)).closed
  {
    if gs == [] {
    } else {
      FirstGlyph(gs, []);
      WithinOpen(gs[1..]);
      assert Shown(gs) + [] == Shown(gs) && Shown(gs[1..]) + [] == Shown(gs[1..]);
      WithinFirst(gs[0], Shown(gs[1..]));
    }
  }

  lemma WithinFirst(g: Glyph, t: seq<Byte>)
    requires !g.Toggle? && (g.Self? ==> g.c != 34 && (g.c == 92 ==> t == [] || !Escapable(t[0])))
    requires g.Escape? ==> Escapable(g.c)
    ensures Quoted(Sign(g) + t) == Before(g.c, Quoted(t))
  {
    var s := Sign(g) + t;
    assert s[|Sign(g)|..] == t;
  }

  lemma {:induction false} WhiteFirst(w: seq<Byte>, t: seq<Byte>, fromFile: bool)
    requires AllWhite(w)
    ensures Tokens(w + t, fromFile) == Tokens(t, fromFile)
  {
    hide Tokens;
    if w == [] {
      assert w + t == t;
    } else {
      WhiteFirst(w[1..], t, fromFile);
      assert (w + t)[0] == w[0] && (w + t)[1..] == w[1..] + t && (w + t)[0..] == w + t;
      SpaceSkipped(w + t, 0, fromFile);
    }
  }

  /** The strings after one more. */
  function Added(x: seq<Byte>, r: Parsed): Parsed {
    Parsed([x] + r.items, r.closed)
  }

  lemma TokenFirst(t: seq<Byte>, fromFile: bool)
    requires t == [] || !White(t[0])
    ensures Tokens(t, fromFile) ==
            if t == [] || (fromFile && t[0] == 35) then Parsed([], true)
            else
              var p := if t[0] == 34 then Quoted(t[1..]) else Bare(t, false);
              if !p.closed then Parsed([], false) else Added(p.str, Tokens(p.rest, fromFile))
  {
    hide Quoted, Bare, Tokens;
    assert t[0..] == t;
    TokenStep(t, 0, fromFile);
  }

  lemma BeginsRight(gs: seq<Glyph>, rest: seq<Byte>, fromFile: bool)
    requires Begins(gs, fromFile) && Fits(gs, false, rest)
    ensures var t := Shown(gs) + rest; t != [] && !White(t[0]) && t[0] != 34 && !(fromFile && t[0] == 35)
  {
    FirstGlyph(gs, rest);
  }

  /** A string and what follows it. */
  lemma ItemRead(within: bool, gs: seq<Glyph>, rest: seq<Byte>, fromFile: bool)
    requires if within then NoToggle(gs) && Fits(gs, true, [34] + rest)
             else
               Begins(gs, fromFile) && Fits(gs, false, rest) && !OpenAfter(gs, false)
               && (rest == [] || White(rest[0]))
    ensures Tokens((if within then [34] + Shown(gs) + [34] else Shown(gs)) + rest, fromFile) ==
            Added(Meant(gs), Tokens(rest, fromFile))
  {
    hide Tokens, Quoted, Bare, Fits, Shown, Meant, OpenAfter, Begins, NoToggle;
    if within {
      var t := [34] + rest;
      WithinBack(gs, t);
      var s := [34] + Shown(gs) + [34] + rest;
      assert s[1..] == Shown(gs) + t && t[1..] == rest;
      TokenFirst(s, fromFile);
    } else {
      BeginsRight(gs, rest, fromFile);
      BareBack(gs, false, rest);
      TokenFirst(Shown(gs) + rest, fromFile);
      if rest != [] {
        WhiteFirst([rest[0]], rest[1..], fromFile);
        assert [rest[0]] + rest[1..] == rest;
      }
    }
  }

  lemma OpenRead(within: bool, gs: seq<Glyph>, fromFile: bool)
    requires if within then NoToggle(gs) && Fits(gs, true, [])
             else Begins(gs, fromFile) && Fits(gs, false, []) && OpenAfter(gs, false)
    ensures Tokens((if within then [34] else []) + Shown(gs), fromFile) == Parsed([], false)
  {
    hide Tokens, Quoted, Bare, Fits, Shown, Meant, OpenAfter, Begins, NoToggle;
    var s := (if within then [34] else []) + Shown(gs);
    if within {
      WithinOpen(gs);
      assert s[1..] == Shown(gs);
    } else {
      BeginsRight(gs, [], fromFile);
      BareBack(gs, false, []);
      assert Shown(gs) + [] == s;
    }
    TokenFirst(s, fromFile);
  }

  /** Every text that is written in this way is read as the strings that are meant. */
  lemma {:induction false} LineRead(l: Line, fromFile: bool)
    requires LineOk(l, fromFile)
    ensures Tokens(LineText(l), fromFile) == Parsed(Items(l), AllClosed(l))
  {
    hide Tokens, Fits, Shown, Meant, OpenAfter, Begins, NoToggle, AllWhite;
    match l
    case End(w) =>
      WhiteFirst(w, [], fromFile);
      assert w + [] == w;
      TokenFirst([], fromFile);
    case Comment(w, remark) =>
      WhiteFirst(w, [35] + remark, fromFile);
      assert w + [35] + remark == w + ([35] + remark);
      TokenFirst([35] + remark, fromFile);
    case Unclosed(w, within, gs) =>
      var t := (if within then [34] else []) + Shown(gs);
      assert LineText(l) == w + t;
      WhiteFirst(w, t, fromFile);
      OpenRead(within, gs, fromFile);
    case Item(w, within, gs, more) =>
      var t := (if within then [34] + Shown(gs) + [34] else Shown(gs)) + LineText(more);
      assert LineText(l) == w + t;
      WhiteFirst(w, t, fromFile);
      ItemRead(within, gs, LineText(more), fromFile);
      LineRead(more, fromFile);
  }

  // ----- every text is written in this way

  lemma {:induction false} WithinWritten(s: seq<Byte>) returns (gs: seq<Glyph>, closed: bool, rest: seq<Byte>)
    ensures NoToggle(gs) && Fits(gs, true, if closed then [34] + rest else []) && |rest| <= |s|
    ensures s == Shown(gs) + if closed then [34] + rest else []
    ensures closed ==> |rest| < |s|
    decreases |s|
  {
    if s == [] {
      gs, closed, rest := [], false, [];
    } else if s[0] == 34 {
      gs, closed, rest := [], true, s[1..];
    } else {
      var g := if s[0] == 92 && |s| > 1 && Escapable(s[1]) then Escape(s[1]) else Self(s[0]);
      var more := s[|Sign(g)|..];
      var tail;
      tail, closed, rest := WithinWritten(more);
      gs := [g] + tail;
      OneGlyph(g, tail, if closed then [34] + rest else []);
      assert s == Sign(g) + more;
    }
  }

  lemma OneGlyph(g: Glyph, tail: seq<Glyph>, rest: seq<Byte>)
    ensures Shown([g] + tail) + rest == Sign(g) + (Shown(tail) + rest) && ([g] + tail)[1..] == tail
  {
  }

  lemma {:induction false} BareWritten(s: seq<Byte>, inQuot: bool) returns (gs: seq<Glyph>, rest: seq<Byte>)
    ensures s == Shown(gs) + rest && Fits(gs, inQuot, rest) && |rest| <= |s|
    ensures rest == [] || (White(rest[0]) && !OpenAfter(gs, inQuot))
    ensures s != [] && (inQuot || !White(s[0])) ==>
              gs != [] && |rest| < |s| && (s[0] != 34 ==> !gs[0].Toggle?) && (s[0] != 35 ==> gs[0] != Self(35))
    decreases |s|
  {
    if s == [] || (!inQuot && White(s[0])) {
      gs, rest := [], s;
    } else {
      var g := if s[0] == 34 then Toggle
               else if s[0] == 92 && |s| > 1 && Escapable(s[1]) then Escape(s[1]) else Self(s[0]);
      var more := s[|Sign(g)|..];
      var tail;
      tail, rest := BareWritten(more, if g.Toggle? then !inQuot else inQuot);
      gs := [g] + tail;
      OneGlyph(g, tail, rest);
      assert s == Sign(g) + more;
    }
  }

  lemma {:induction false} WhiteWritten(s: seq<Byte>) returns (w: seq<Byte>, t: seq<Byte>)
    ensures s == w + t && AllWhite(w) && (t == [] || !White(t[0]))
  {
    if s == [] || !White(s[0]) {
      w, t := [], s;
    } else {
      w, t := WhiteWritten(s[1..]);
      w := [s[0]] + w;
    }
  }

  /** Every text is written in this way. */
  lemma {:induction false} EveryText(s: seq<Byte>, fromFile: bool) returns (l: Line)
    ensures LineOk(l, fromFile) && LineText(l) == s
    decreases |s|, 1
  {
    hide Fits, Shown, OpenAfter, NoToggle, AllWhite;
    var w, t := WhiteWritten(s);
    if t == [] {
      l := End(w);
    } else if fromFile && t[0] == 35 {
      l := Comment(w, t[1..]);
      assert t == [35] + t[1..];
    } else if t[0] == 34 {
      l := StartsWithin(w, t, fromFile);
    } else {
      l := StartsBare(w, t, fromFile);
    }
  }

  lemma {:induction false} StartsWithin(w: seq<Byte>, t: seq<Byte>, fromFile: bool) returns (l: Line)
    requires AllWhite(w) && t != [] && t[0] == 34
    ensures LineOk(l, fromFile) && LineText(l) == w + t
    decreases |w + t|, 0
  {
    hide Fits, Shown, OpenAfter, NoToggle, AllWhite, Begins;
    var gs, closed, rest := WithinWritten(t[1..]);
    assert t == [34] + t[1..];
    if closed {
      var more := EveryText(rest, fromFile);
      l := Item(w, true, gs, more);
      assert t == [34] + Shown(gs) + [34] + rest;
      Regroup(w, [34] + Shown(gs) + [34], rest);
    } else {
      l := Unclosed(w, true, gs);
      assert Shown(gs) + [] == Shown(gs);
      Regroup(w, [34], Shown(gs));
    }
  }

  lemma {:induction false} StartsBare(w: seq<Byte>, t: seq<Byte>, fromFile: bool) returns (l: Line)
    requires AllWhite(w) && t != [] && !White(t[0]) && t[0] != 34 && !(fromFile && t[0] == 35)
    ensures LineOk(l, fromFile) && LineText(l) == w + t
    decreases |w + t|, 0
  {
    hide Fits, Shown, OpenAfter, NoToggle, AllWhite;
    var gs, rest := BareWritten(t, false);
    if OpenAfter(gs, false) {
      l := Unclosed(w, false, gs);
      assert rest == [] && t == Shown(gs);
      assert w + [] + t == w + t;
    } else {
      var more := EveryText(rest, fromFile);
      l := Item(w, false, gs, more);
      Regroup(w, Shown(gs), rest);
    }
  }

  // ----- the spaces cut off at the ends of a value

  /** The last character is no backslash, which would take a space behind it along. */
  ghost predicate Loose(s: seq<Byte>) {
    s != [] ==> s[|s| - 1] != 92
  }

  lemma {:induction false} WhiteInQuotes(w: seq<Byte>)
    requires AllWhite(w)
    ensures !Bare(w, true).closed && !Quoted(w).closed
  {
    if w == [] {
    } else {
      WhiteInQuotes(w[1..]);
    }
  }

  /** White space behind a text is left over with the rest of the text. */
  lemma {:induction false} BareLonger(s: seq<Byte>, w: seq<Byte>, inQuot: bool) returns (v: seq<Byte>)
    requires AllWhite(w) && Loose(s)
    ensures AllWhite(v)
    ensures var p, q := Bare(s, inQuot), Bare(s + w, inQuot);
            p.closed == q.closed && (p.closed ==> q.str == p.str && q.rest == p.rest + v && Loose(p.rest))
    decreases |s|
  {
    hide Bare, AllWhite;
    var t := s + w;
    BareOne(s, inQuot);
    BareOne(t, inQuot);
    if s == [] {
      assert t == w;
      if inQuot { WhiteInQuotes(w); }
      v := if w == [] then [] else w[1..];
      assert [] + v == v;
      WhiteRest(w);
    } else {
      var n := if s[0] == 92 && |s| > 1 && Escapable(s[1]) then 2 else 1;
      assert t[0] == s[0] && t[n..] == s[n..] + w && (|s| > 1 ==> t[1] == s[1]);
      if !inQuot && White(s[0]) {
        v := w;
      } else {
        v := BareLonger(s[n..], w, if s[0] == 34 then !inQuot else inQuot);
      }
    }
  }

  lemma WhiteRest(w: seq<Byte>)
    requires AllWhite(w)
    ensures w != [] ==> White(w[0]) && AllWhite(w[1..])
  {
  }

  lemma BareOne(s: seq<Byte>, inQuot: bool)
    ensures Bare(s, inQuot) ==
            if s == [] then Piece([], [], !inQuot)
            else if s[0] == 92 && |s| > 1 && Escapable(s[1]) then Before(s[1], Bare(s[2..], inQuot))
            else if s[0] == 34 then Bare(s[1..], !inQuot)
            else if !inQuot && White(s[0]) then Piece([], s[1..], true)
            else Before(s[0], Bare(s[1..], inQuot))
  {
  }

  lemma {:induction false} QuotedLonger(s: seq<Byte>, w: seq<Byte>)
    requires AllWhite(w) && Loose(s)
    ensures var p, q := Quoted(s), Quoted(s + w);
            p.closed == q.closed && (p.closed ==> q.str == p.str && q.rest == p.rest + w && Loose(p.rest))
    decreases |s|
  {
    if s == [] {
      assert s + w == w;
      WhiteInQuotes(w);
    } else {
      var n := if s[0] == 92 && |s| > 1 && Escapable(s[1]) then 2 else 1;
      assert (s + w)[n..] == s[n..] + w;
      if s[0] != 34 { QuotedLonger(s[n..], w); }
    }
  }

  lemma {:induction false} TokensLonger(s: seq<Byte>, w: seq<Byte>, fromFile: bool)
    requires AllWhite(w) && Loose(s)
    ensures Tokens(s + w, fromFile) == Tokens(s, fromFile)
    decreases |s|
  {
    hide Tokens, Quoted, Bare;
    var lead, t := WhiteWritten(s);
    WhiteFirst(lead, t, fromFile);
    WhiteFirst(lead, t + w, fromFile);
    assert s + w == lead + (t + w);
    if t == [] {
      WhiteFirst(w, [], fromFile);
      assert w + [] == w && [] + w == w;
    } else {
      TokenFirst(t, fromFile);
      TokenFirst(t + w, fromFile);
      FromToken(t, w, fromFile);
    }
  }

  lemma {:induction false} FromToken(t: seq<Byte>, w: seq<Byte>, fromFile: bool)
    requires t != [] && !White(t[0]) && AllWhite(w) && Loose(t)
    ensures var p := if t[0] == 34 then Quoted(t[1..]) else Bare(t, false);
            var q := if t[0] == 34 then Quoted((t + w)[1..]) else Bare(t + w, false);
            p.closed == q.closed
            && (p.closed ==> q.str == p.str && Tokens(q.rest, fromFile) == Tokens(p.rest, fromFile))
    decreases |t|, 0
  {
    hide Tokens, Quoted, Bare;
    if t[0] == 34 {
      QuotedLonger(t[1..], w);
      assert (t + w)[1..] == t[1..] + w;
      QuotedShorter(t[1..]);
      if Quoted(t[1..]).closed { TokensLonger(Quoted(t[1..]).rest, w, fromFile); }
    } else {
      var v := BareLonger(t, w, false);
      BareShorter(t, false);
      if Bare(t, false).closed { TokensLonger(Bare(t, false).rest, v, fromFile); }
    }
  }

  lemma {:induction false} CutWhite(t: seq<Byte>)
    ensures AllWhite(t[|CutEnd(t)|..])
  {
    if t != [] && IsSpace(t[|t| - 1]) {
      var before := t[..|t| - 1];
      CutWhite(before);
      var k := |CutEnd(before)|;
      assert CutEnd(t) == CutEnd(before);
      assert t[k..] == before[k..] + [t[|t| - 1]];
    } else {
      assert t[|t|..] == [];
    }
  }

  /** Cutting the spaces around a value does not change what is read, and neither does what is kept of them. */
  lemma TrimHarmless(value: seq<Byte>, fromFile: bool)
    ensures Reading(value, fromFile) == Tokens(value, fromFile)
  {
    hide Tokens, CutEnd, KeepEscaped, SkipSpace;
    SkipFirst(value, fromFile);
    CutHarmless(SkipSpace(value), fromFile);
  }

  lemma CutHarmless(t: seq<Byte>, fromFile: bool)
    requires t == [] || !White(t[0])
    ensures var u := KeepEscaped(t, |CutEnd(t)|);
            Tokens(t, fromFile) == if u == [] || (fromFile && u[0] == 35) then Parsed([], true) else Tokens(u, fromFile)
  {
    hide Tokens, CutEnd, AllWhite, KeepEscaped, Loose, White;
    var w := CutOff(t);
    var u := KeepEscaped(t, |CutEnd(t)|);
    if w == [] { assert u + w == u; } else { TokensLonger(u, w, fromFile); }
    if u == [] || (fromFile && u[0] == 35) { TokenFirst(u, fromFile); }
  }

  /** What is cut off the end. */
  lemma CutOff(t: seq<Byte>) returns (w: seq<Byte>)
    requires t == [] || !White(t[0])
    ensures var u := KeepEscaped(t, |CutEnd(t)|);
            t == u + w && AllWhite(w) && (w == [] || Loose(u)) && (u == [] || !White(u[0]))
  {
    hide CutEnd, AllWhite, KeepEscaped, Loose, White;
    var k := |CutEnd(t)|;
    CutWhite(t);
    KeptPart(t, k);
    w := t[|KeepEscaped(t, k)|..];
    WhitePart(t, k, |KeepEscaped(t, k)|);
  }

  lemma KeptPart(t: seq<Byte>, k: nat)
    requires k <= |t| && AllWhite(t[k..])
    ensures var u := KeepEscaped(t, k);
            k <= |u| <= |t| && t == u + t[|u|..] && (|u| == |t| || Loose(u)) && (u != [] ==> u[0] == t[0])
  {
    if k < |t| { assert t[k..][0] == t[k]; }
  }

  lemma SkipFirst(value: seq<Byte>, fromFile: bool)
    ensures SkipSpace(value) == [] || !White(SkipSpace(value)[0])
    ensures Tokens(SkipSpace(value), fromFile) == Tokens(value, fromFile)
  {
    hide Quoted, Bare;
    assert SkipSpace(SkipSpace(value)) == SkipSpace(value);
  }

  lemma WhitePart(t: seq<Byte>, k: nat, n: nat)
    requires k <= n <= |t| && AllWhite(t[k..])
    ensures AllWhite(t[n..])
  {
    assert forall i :: n <= i < |t| ==> t[i] == t[k..][i - k];
  }

  /** What a value means, whatever it is: it is written as a list of strings, and those are read; it is refused exactly
      if it ends within quotes. */
  lemma ValueMeans(value: seq<Byte>, fromFile: bool) returns (l: Line)
    ensures LineOk(l, fromFile) && LineText(l) == value
    ensures Reading(value, fromFile) == Parsed(Items(l), AllClosed(l))
  {
    l := EveryText(value, fromFile);
    LineRead(l, fromFile);
    TrimHarmless(value, fromFile);
  }

  /** Of all the ways to write a value none means anything else. */
  lemma WrittenValue(l: Line, fromFile: bool)
    requires LineOk(l, fromFile)
    ensures Reading(LineText(l), fromFile) == Parsed(Items(l), AllClosed(l))
  {
    LineRead(l, fromFile);
    TrimHarmless(LineText(l), fromFile);
  }

  // ----- the printed form

  /** The printed form: every string within quotes, one space between two, and a backslash before quotes and
      backslashes only. */
  ghost predicate Canonical(l: Line, first: bool) {
    match l
    case End(w) => w == []
    case Item(w, within, gs, more) =>
      && within && w == (if first then [] else [32]) && Canonical(more, false)
      && forall i :: 0 <= i < |gs| ==> !gs[i].Toggle? && (gs[i].Escape? <==> gs[i].c in [34, 92])
    case _ => false
  }

  lemma {:induction false} Glyphs(x: seq<Byte>, t: seq<Byte>) returns (gs: seq<Glyph>)
    ensures Shown(gs) == Escaped(x) && Meant(gs) == x && NoToggle(gs) && Fits(gs, true, t)
    ensures forall i :: 0 <= i < |gs| ==> !gs[i].Toggle? && (gs[i].Escape? <==> gs[i].c in [34, 92])
  {
    if x == [] {
      gs := [];
    } else {
      var more := Glyphs(x[1..], t);
      var g := if x[0] in [34, 92] then Escape(x[0]) else Self(x[0]);
      gs := [g] + more;
      assert gs[1..] == more && [x[0]] + x[1..] == x;
    }
  }

  lemma {:induction false} PrintedFrom(l: seq<seq<Byte>>, first: bool, fromFile: bool) returns (line: Line)
    ensures LineOk(line, fromFile) && Items(line) == l && AllClosed(line) && Canonical(line, first)
    ensures LineText(line) == (if first || l == [] then [] else [32]) + Text(l)
  {
    hide Fits, Shown, Meant, NoToggle, Escaped;
    if l == [] {
      line := End([]);
    } else {
      var more := PrintedFrom(l[1..], false, fromFile);
      var w: seq<Byte> := if first then [] else [32];
      var gs := Glyphs(l[0], [34] + LineText(more));
      line := Item(w, true, gs, more);
      assert [l[0]] + l[1..] == l;
      var x := [34] + Shown(gs) + [34];
      Regroup(x, if |l| > 1 then [32] else [], Text(l[1..]));
      Regroup(w, x, LineText(more));
    }
  }

  /** The printer writes the list in this form. */
  lemma PrintedIs(l: seq<seq<Byte>>, fromFile: bool) returns (line: Line)
    ensures LineOk(line, fromFile) && Items(line) == l && AllClosed(line) && Canonical(line, true)
    ensures LineText(line) == Text(l)
  {
    line := PrintedFrom(l, true, fromFile);
    assert [] + Text(l) == Text(l);
  }
}
