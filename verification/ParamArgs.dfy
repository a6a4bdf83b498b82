/** Arguments of the command line and parameters of files: what a complete argument is, and how an assignment is read
    from it. */
module ParamArgs {
  import opened Bytes

  const EQUALS: Byte := 61
  const MINUS: Byte := 45
  const PLUS: Byte := 43
  const DOT: Byte := 46
  const SLASH: Byte := 47

  datatype Value = NoValue | Value(text: seq<Byte>)

  datatype AssMode = NoMode | Assign | Append | Remove

  datatype ArgType = Unknown | Filename | Assignment | Option

  datatype Origin = FromFile | FromCmdLine | FromEnviron

  predicate StartsAsPath(s: seq<Byte>) {
    (|s| >= 2 && s[0] == DOT && s[1] == SLASH) || (s != [] && s[0] == SLASH)
  }

  function Classify(arg: Value): ArgType {
    if arg.NoValue? then Unknown
    else if StartsAsPath(arg.text) then Filename
    else if EQUALS in arg.text then Assignment
    else if arg.text != [] && arg.text[0] == MINUS then Option
    else if SLASH in arg.text then Filename
    else Unknown
  }

  /** The four kinds. A path is recognised at its start before a = is looked for, an option only without one, and a
      slash anywhere else last. */
  lemma KindExactly(s: seq<Byte>)
    ensures var path := [46, 47] <= s || [47] <= s;
            var k := Classify(Value(s));
            && (k.Assignment? <==> !path && 61 in s)
            && (k.Option? <==> [45] <= s && 61 !in s)
            && (k.Filename? <==> path || (47 in s && 61 !in s && !([45] <= s)))
            && (k.Unknown? <==> 47 !in s && 61 !in s && !([45] <= s))
    ensures Classify(NoValue).Unknown?
  {
  }

  /** The index of the first such character. */
  function Index(s: seq<Byte>, c: Byte): (i: nat)
    requires c in s
    ensures i < |s| && s[i] == c && c !in s[..i]
  {
    if s[0] == c then 0 else var i := Index(s[1..], c); assert s[..i + 1] == [s[0]] + s[1..][..i]; i + 1
  }

  function Dashes(k: nat): (s: seq<Byte>)
    ensures |s| == k
  {
    seq(k, i => MINUS)
  }

  function Sign(mode: AssMode): seq<Byte> {
    match mode
    case NoMode => []
    case Assign => []
    case Append => [PLUS]
    case Remove => [MINUS]
  }

  predicate IsSign(c: Byte) {
    c == PLUS || c == MINUS
  }

  // ----- how an assignment is spelled

  /** Name and value with what stands between and before them. */
  function Spelled(k: nat, name: seq<Byte>, mode: AssMode, text: seq<Byte>): seq<Byte> {
    Dashes(k) + name + Sign(mode) + [EQUALS] + text
  }

  /** The names that can stand there: one read with mode = does not end in a sign, unless it is that sign, and
      the signs of the other modes need a name before them. */
  predicate WellNamed(k: nat, name: seq<Byte>, mode: AssMode) {
    EQUALS !in name
    && !(name + Sign(mode) != [] && (name + Sign(mode))[0] == MINUS)
    && (k == 0 ==> !StartsAsPath(name + Sign(mode)))
    && match mode
       case NoMode => false
       case Assign => |name| <= 1 || !IsSign(name[|name| - 1])
       case Append => name != []
       case Remove => name != []
  }

  /** An argument of the command line or a parameter of a file or the environment, and whether it is done. What the
      lines of files and the environment yield are parameters here. */
  class ParamArg {
    const arg: Value
    const name: seq<Byte>
    const value: Value
    const mode: AssMode
    const atype: ArgType
    const origin: Origin
    const next: ParamArg?
    var pdone: int

    /** What every argument keeps of the way it was made. */
    ghost predicate Valid() {
      if origin.FromCmdLine? then
        atype == Classify(arg)
        && if atype.Assignment? then
          exists k :: ReadAs(k)
        else
          mode.NoMode? && value.NoValue? && if arg.Value? then exists k :: BehindDashes(k) else name == []
      else
        atype.Assignment?
    }

    ghost predicate BehindDashes(k: nat) {
      arg.Value? && arg.text == Dashes(k) + name && (name != [] ==> name[0] != MINUS)
    }

    ghost predicate ReadAs(k: nat) {
      arg.Value? && value.Value? && WellNamed(k, name, mode) && arg.text == Spelled(k, name, mode, value.text)
    }

    /** An argument of the command line. */
    constructor CmdLine(arg: Value, next: ParamArg?)
      ensures Valid() && this.arg == arg && this.next == next && origin.FromCmdLine? && pdone == 0
    {
      var atype := Classify(arg);
      var name: seq<Byte>, value, mode := [], NoValue, NoMode;
      ghost var k := 0;
      if arg.Value? {
        var a := SkipDashes(arg.text);
        name := arg.text[a..];
        k := a;
        if atype.Assignment? {
          var text;
          name, mode, text := SplitAssignment(arg.text, a);
          value := Value(text);
        }
      }
      this.arg, this.name, this.value, this.mode := arg, name, value, mode;
      this.atype, this.origin, this.next, pdone := atype, FromCmdLine, next, 0;
      new;
      assert atype.Assignment? ==> ReadAs(k);
      assert arg.Value? && !atype.Assignment? ==> BehindDashes(k);
    }

    /** A parameter of a file or of the environment. */
    constructor Setting(arg: Value, name: seq<Byte>, mode: AssMode, value: Value, fromFile: bool)
      ensures Valid() && this.arg == arg && this.name == name && this.mode == mode && this.value == value
      ensures origin == (if fromFile then FromFile else FromEnviron) && next == null && pdone == 0
    {
      this.arg, this.name, this.value, this.mode := arg, name, value, mode;
      atype, origin, next, pdone := Assignment, if fromFile then FromFile else FromEnviron, null, 0;
    }

    predicate ValueInNextArg() {
      atype.Option? && origin.FromCmdLine? && next != null && next.arg.Value?
    }

    predicate TakesNext() {
      ValueInNextArg() && (next.atype.Unknown? || next.atype.Filename?)
    }

    /** The text that is parsed. */
    function Source(): Value {
      if TakesNext() then next.arg else value
    }

    ghost function Following(): set<object> {
      if next == null then {} else {next}
    }
  }

  method SkipDashes(s: seq<Byte>) returns (a: nat)
    ensures a <= |s| && s[..a] == Dashes(a) && (a < |s| ==> s[a] != MINUS)
  {
    a := 0;
    while a < |s| && s[a] == MINUS
      invariant a <= |s| && s[..a] == Dashes(a)
    {
      a := a + 1;
    }
  }

  /** Name, mode and value of an assignment behind its dashes. */
  method SplitAssignment(s: seq<Byte>, a: nat) returns (name: seq<Byte>, mode: AssMode, text: seq<Byte>)
    requires a <= |s| && s[..a] == Dashes(a) && (a < |s| ==> s[a] != MINUS)
    requires Classify(Value(s)).Assignment?
    ensures WellNamed(a, name, mode) && s == Spelled(a, name, mode, text)
  {
    hide Classify, WellNamed, StartsAsPath, Spelled;
    AssignmentHas(s);
    DashesBefore(s, a);
    var eq := Index(s[a..], EQUALS);
    name, mode, text := s[a..a + eq], Assign, s[a + eq + 1..];
    ghost var head := name;
    assert head == s[a..][..eq] && s[a + eq] == s[a..][eq];
    HeadOf(s, a, head, text);
    if eq > 1 && IsSign(name[eq - 1]) {
      mode := if name[eq - 1] == PLUS then Append else Remove;
      name := name[..eq - 1];
    }
    NamedHead(a, head, name, mode);
    SpelledHead(a, name, mode, text);
  }

  lemma AssignmentHas(s: seq<Byte>)
    requires Classify(Value(s)).Assignment?
    ensures EQUALS in s && !StartsAsPath(s)
  {
  }

  /** Cutting the sign off leaves a name that can stand there. */
  lemma NamedHead(k: nat, head: seq<Byte>, name: seq<Byte>, mode: AssMode)
    requires EQUALS !in head && (head != [] ==> head[0] != MINUS) && (k == 0 ==> !StartsAsPath(head))
    requires if |head| > 1 && IsSign(head[|head| - 1]) then
               name == head[..|head| - 1] && mode == if head[|head| - 1] == PLUS then Append else Remove
             else
               name == head && mode == Assign
    ensures WellNamed(k, name, mode) && name + Sign(mode) == head
  {
    assert name + Sign(mode) == head;
    assert EQUALS !in name by { assert forall i :: 0 <= i < |name| ==> name[i] == head[i]; }
  }

  lemma HeadOf(s: seq<Byte>, a: nat, head: seq<Byte>, text: seq<Byte>)
    requires a <= |s| && s[..a] == Dashes(a) && (a < |s| ==> s[a] != MINUS)
    requires a + |head| < |s| && s[a..a + |head|] == head && s[a + |head|] == EQUALS && s[a + |head| + 1..] == text
    requires !StartsAsPath(s)
    ensures s == Dashes(a) + head + [EQUALS] + text
    ensures (head != [] ==> head[0] != MINUS) && (a == 0 ==> !StartsAsPath(head))
  {
    assert s == s[..a] + s[a..a + |head|] + [s[a + |head|]] + s[a + |head| + 1..];
    PathBefore(s, head, text, a);
  }

  lemma SpelledHead(k: nat, name: seq<Byte>, mode: AssMode, text: seq<Byte>)
    ensures Spelled(k, name, mode, text) == Dashes(k) + (name + Sign(mode)) + [EQUALS] + text
  {
  }

  /** The sign = is not among the dashes. */
  lemma DashesBefore(s: seq<Byte>, a: nat)
    requires a <= |s| && s[..a] == Dashes(a) && EQUALS in s
    ensures EQUALS in s[a..]
  {
    assert s == Dashes(a) + s[a..];
  }

  /** What starts as a path starts so before its =. */
  lemma PathBefore(s: seq<Byte>, head: seq<Byte>, text: seq<Byte>, k: nat)
    requires s == Dashes(k) + head + [EQUALS] + text
    ensures StartsAsPath(s) <==> k == 0 && StartsAsPath(head)
  {
    if k == 0 {
      assert s == head + [EQUALS] + text;
    }
  }

  // ----- what is spelled is what is read

  lemma HeadsAlike(k: nat, head: seq<Byte>, text: seq<Byte>, k': nat, head': seq<Byte>, text': seq<Byte>)
    requires Dashes(k) + head + [EQUALS] + text == Dashes(k') + head' + [EQUALS] + text'
    requires EQUALS !in head && (head != [] ==> head[0] != MINUS)
    requires EQUALS !in head' && (head' != [] ==> head'[0] != MINUS)
    ensures k == k' && head == head' && text == text'
  {
    var s := Dashes(k) + head + [EQUALS] + text;
    assert s == Dashes(k') + head' + [EQUALS] + text';
    assert s[k] != MINUS && s[k'] != MINUS;
    assert forall i :: 0 <= i < k ==> s[i] == MINUS;
    assert forall i :: 0 <= i < k' ==> s[i] == MINUS;
    var n, n' := k + |head|, k' + |head'|;
    assert s[n] == EQUALS && s[n'] == EQUALS;
    assert forall i :: k <= i < n ==> s[i] == head[i - k];
    assert forall i :: k' <= i < n' ==> s[i] == head'[i - k'];
    assert n == n';
    assert head == s[k..n] && head' == s[k..n];
    assert text == s[n + 1..] && text' == s[n + 1..];
  }

  /** An argument spells one assignment only. */
  lemma SpelledOnce(k: nat, name: seq<Byte>, mode: AssMode, text: seq<Byte>,
                    k': nat, name': seq<Byte>, mode': AssMode, text': seq<Byte>)
    requires WellNamed(k, name, mode) && WellNamed(k', name', mode')
    requires Spelled(k, name, mode, text) == Spelled(k', name', mode', text')
    ensures k == k' && name == name' && mode == mode' && text == text'
  {
    hide WellNamed, Spelled;
    SpelledHead(k, name, mode, text);
    SpelledHead(k', name', mode', text');
    HeadNamed(k, name, mode);
    HeadNamed(k', name', mode');
    HeadsAlike(k, name + Sign(mode), text, k', name' + Sign(mode'), text');
    SignsAlike(k, name, mode, name', mode');
  }

  lemma HeadNamed(k: nat, name: seq<Byte>, mode: AssMode)
    requires WellNamed(k, name, mode)
    ensures var head := name + Sign(mode); EQUALS !in head && (head != [] ==> head[0] != MINUS)
  {
  }

  /** The sign in front of the = belongs to the mode, unless it is all there is. */
  lemma SignsAlike(k: nat, name: seq<Byte>, mode: AssMode, name': seq<Byte>, mode': AssMode)
    requires WellNamed(k, name, mode) && WellNamed(k, name', mode')
    requires name + Sign(mode) == name' + Sign(mode')
    ensures name == name' && mode == mode'
  {
    var head := name + Sign(mode);
    assert mode.Assign? ==> head == name;
    assert mode'.Assign? ==> head == name';
    assert !mode.Assign? ==> head[|head| - 1] == Sign(mode)[0] && head[..|head| - 1] == name;
    assert !mode'.Assign? ==> head[|head| - 1] == Sign(mode')[0] && head[..|head| - 1] == name';
  }

  lemma SpelledIsAssignment(k: nat, name: seq<Byte>, mode: AssMode, text: seq<Byte>)
    requires WellNamed(k, name, mode)
    ensures Classify(Value(Spelled(k, name, mode, text))).Assignment?
  {
    var s, head := Spelled(k, name, mode, text), name + Sign(mode);
    assert s == Dashes(k) + head + [EQUALS] + text;
    assert s[k + |head|] == EQUALS;
    PathBefore(s, head, text, k);
  }

  /** An argument of the command line that spells an assignment has its name, mode and value. */
  lemma SpelledBack(a: ParamArg, k: nat, name: seq<Byte>, mode: AssMode, text: seq<Byte>)
    requires a.Valid() && a.origin.FromCmdLine?
    requires a.arg == Value(Spelled(k, name, mode, text)) && WellNamed(k, name, mode)
    ensures a.atype.Assignment? && a.name == name && a.mode == mode && a.value == Value(text)
  {
    SpelledIsAssignment(k, name, mode, text);
    var k' :| a.ReadAs(k');
    SpelledOnce(k, name, mode, text, k', a.name, a.mode, a.value.text);
  }

  /** An argument of the command line has an assignment mode exactly if it spells an assignment. */
  lemma ModeIfSpelled(a: ParamArg)
    requires a.Valid() && a.origin.FromCmdLine?
    ensures !a.mode.NoMode? <==> exists k, name, mode, text ::
                WellNamed(k, name, mode) && a.arg == Value(Spelled(k, name, mode, text))
    ensures a.mode.NoMode? ==> a.value.NoValue?
  {
    if a.atype.Assignment? {
      var k :| a.ReadAs(k);
      assert a.arg == Value(Spelled(k, a.name, a.mode, a.value.text));
    } else {
      forall k, name, mode, text | WellNamed(k, name, mode)
        ensures a.arg != Value(Spelled(k, name, mode, text))
      {
        SpelledIsAssignment(k, name, mode, text);
      }
    }
  }
}
