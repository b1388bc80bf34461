/**
 Quoting and token recognition of the Shell Command Language (POSIX.1-2017, sections 2.2.1 to 2.2.3, 2.3 and, for
 where an expansion ends, 2.6), and `shlex.quote`.
 */
module ShellTokens {
  import opened PyText

  // -------------------------------------------------------------- shlex.quote

  /** The characters `shlex.quote` leaves bare. */
  predicate IsSafe(c: char) {
    || 'a' <= c <= 'z' || 'A' <= c <= 'Z' || '0' <= c <= '9' || c == '_' || c == '@' || c == '%' || c == '+'
    || c == '=' || c == ':' || c == ',' || c == '.' || c == '/' || c == '-'
  }

  predicate AllSafe(s: string) { forall i :: 0 <= i < |s| ==> IsSafe(s[i]) }

  /** `s.replace("'", "'\"'\"'")`. */
  function EscapeQuotes(s: string): string {
    if s == "" then ""
    else (if s[0] == '\'' then "'\"'\"'" else [s[0]]) + EscapeQuotes(s[1..])
  }

  function Quote(s: string): string {
    if s == "" then "''"
    else if AllSafe(s) then s
    else "'" + EscapeQuotes(s) + "'"
  }

  const LOWER := "abcdefghijklmnopqrstuvwxyz"

  const UPPER := "ABCDEFGHIJKLMNOPQRSTUVWXYZ"

  const SAFE_CHARS := LOWER + UPPER + "0123456789" + "_@%+=:,./-"

  lemma LowerAre(c: char)
    ensures 'a' <= c <= 'z' <==> c in LOWER
  {
    assert 'a' <= c <= 'z' ==> LOWER[c as int - 'a' as int] == c;
  }

  lemma UpperAre(c: char)
    ensures 'A' <= c <= 'Z' <==> c in UPPER
  {
    assert 'A' <= c <= 'Z' ==> UPPER[c as int - 'A' as int] == c;
  }

  lemma DigitsAre(c: char)
    ensures '0' <= c <= '9' <==> c in "0123456789"
  {
    assert '0' <= c <= '9' ==> "0123456789"[c as int - '0' as int] == c;
  }

  lemma MarksAre(c: char)
    ensures c in "_@%+=:,./-" <==>
      || c == '_' || c == '@' || c == '%' || c == '+' || c == '=' || c == ':' || c == ',' || c == '.' || c == '/'
      || c == '-'
  {
    var m := "_@%+=:,./-";
    assert m[0] == '_' && m[1] == '@' && m[2] == '%' && m[3] == '+' && m[4] == '=';
    assert m[5] == ':' && m[6] == ',' && m[7] == '.' && m[8] == '/' && m[9] == '-';
  }

  lemma SafeCharsAre(c: char)
    ensures IsSafe(c) <==> c in SAFE_CHARS
  {
    LowerAre(c);
    UpperAre(c);
    DigitsAre(c);
    MarksAre(c);
    hide LOWER, UPPER;
  }

  lemma {:induction false} EscapedIsNotShorter(s: string)
    ensures |EscapeQuotes(s)| >= |s|
  {
    if s != "" {
      EscapedIsNotShorter(s[1..]);
    }
  }

  /** `shlex.quote` leaves exactly the nonempty values of safe characters alone. */
  lemma QuoteKeepsIff(s: string)
    ensures Quote(s) == s <==> s != "" && forall c :: c in s ==> c in SAFE_CHARS
  {
    hide SAFE_CHARS, EscapeQuotes, IsSafe;
    forall c ensures IsSafe(c) <==> c in SAFE_CHARS {
      SafeCharsAre(c);
    }
    EscapedIsNotShorter(s);
  }

  // -------------------------------------------------------------------- marks

  /** An input symbol: a character, or an opaque literal standing for a whole string. */
  datatype Symbol = Ch(c: char) | Lit(s: string)

  datatype Expansion = Parameter | Braces | Command | Backquotes | Arithmetic

  /**
   What token recognition writes down: each word and operator up to its `End`, with the expansions in a word, and
   the tokens of the commands in them, between `Open` and `Close`. Quoting removes the meaning a character may still
   have; for the characters that have none, quoted and bare are the same.
   */
  datatype Mark =
    | Literal(c: char)
    | Active(c: char)
    | OpChar(c: char)
    | Name(c: char)
    | Open(e: Expansion, quoted: bool)
    | Close
    | End
    | NewLine

  function Literals(s: string): seq<Mark> { seq(|s|, i requires 0 <= i < |s| => Literal(s[i])) }

  // ------------------------------------------------------------------- parser

  datatype Mode =
    | Between
    | InOperator(text: string)
    | InWord
    | InComment
    | Single(back: Mode)
    | Double(back: Mode)
    | Escaped(back: Mode)              // after a backslash outside quotes
    | DoubleEscaped(back: Mode)        // after a backslash inside double quotes
    | AfterDollar(back: Mode)
    | InName(back: Mode)               // in the name of `$name`
    | AfterParen(quoted: bool)         // after `$(`, which another parenthesis makes `$((`
    | BracesName(started: bool, quoted: bool)
    | BracesColon(quoted: bool)
    | BracesOp(op: char, quoted: bool) // after a `%` or `#`, which may be doubled
    | InBraces                         // in the word of an unquoted `${name-word}`
    | QuotedBraces                     // in that of a quoted one
    | NestedDouble                     // in a string within that
    | InArithmetic
    | ArithmeticEnds                   // after the first of two closing parentheses
    | Broken                           // a syntax error, or what the standard leaves undefined

  /** The enclosing expansions, with the parentheses open in each and the mode to come back to. */
  datatype Stack = Empty | Push(e: Expansion, depth: nat, back: Mode, rest: Stack)

  datatype Core = Core(mode: Mode, stack: Stack)

  /**
   Backslash processing inside backquotes: whether a backslash is held back, and whether they are in double quotes.
   */
  datatype Decoder = Decoder(held: bool, double: bool)

  datatype Outcome = Outcome(core: Core, marks: seq<Mark>, added: seq<Decoder>)

  function Out(mode: Mode, stack: Stack, marks: seq<Mark>): Outcome { Outcome(Core(mode, stack), marks, []) }

  function Breaks(): Outcome { Out(Broken, Empty, []) }

  predicate StartsOperator(c: char) {
    c == '&' || c == '|' || c == ';' || c == '<' || c == '>' || c == '(' || c == ')'
  }

  /** The operators of more than one character, by what a further character makes of them. */
  predicate Extends(op: string, c: char) {
    || (op == "&" && c == '&') || (op == "|" && c == '|') || (op == ";" && c == ';')
    || (op == "<" && (c == '<' || c == '&' || c == '>')) || (op == "<<" && c == '-')
    || (op == ">" && (c == '>' || c == '&' || c == '|'))
  }

  predicate IsNameStart(c: char) { 'a' <= c <= 'z' || 'A' <= c <= 'Z' || c == '_' }

  predicate IsNameChar(c: char) { IsNameStart(c) || '0' <= c <= '9' }

  /** The one-character parameters. */
  predicate IsSpecial(c: char) {
    '0' <= c <= '9' || c == '@' || c == '*' || c == '#' || c == '?' || c == '-' || c == '$' || c == '!'
  }

  predicate IsCommandMode(mode: Mode) { mode.Between? || mode.InOperator? || mode.InWord? }

  predicate IsQuotedMode(mode: Mode) { mode.Double? || mode.QuotedBraces? || mode.NestedDouble? || mode.InArithmetic? }

  function BracesGround(quoted: bool): Mode { if quoted then QuotedBraces else InBraces }

  /** What is written when the next character does not continue the construct just begun, and the mode it is read in. */
  function Settle(mode: Mode): (seq<Mark>, Mode) {
    match mode
    case AfterDollar(back) => ([Active('$')], back)
    case InName(back) => ([], back)
    case AfterParen(quoted) => ([Open(Command, quoted)], Between)
    case BracesOp(_, quoted) => ([], BracesGround(quoted))
    case _ => ([], mode)
  }

  /** What beginning or continuing a word writes. */
  function Begun(mode: Mode): seq<Mark> { if mode.InOperator? then [End] else [] }

  function Ended(mode: Mode): seq<Mark> { if mode.Between? then [] else [End] }

  function WordMode(mode: Mode): Mode { if IsCommandMode(mode) then InWord else mode }

  function Bare(c: char): Mark { if IsSafe(c) then Literal(c) else Active(c) }

  predicate TopIs(stack: Stack, e: Expansion) { stack.Push? && stack.e == e }

  /** Parentheses inside `$(..)` and `$((..))` are counted. */
  function Deepen(stack: Stack, c: char): Stack {
    if !TopIs(stack, Command) && !TopIs(stack, Arithmetic) then stack
    else if c == '(' then stack.(depth := stack.depth + 1)
    else if c == ')' && stack.depth > 0 then stack.(depth := stack.depth - 1)
    else stack
  }

  function OpenBackquotes(back: Mode, stack: Stack, marks: seq<Mark>, quoted: bool): Outcome {
    var inside := Core(Between, Push(Backquotes, 0, back, stack));
    Outcome(inside, marks + [Open(Backquotes, quoted)], [Decoder(false, quoted)])
  }

  /** A character in a command, outside quotes and comments. */
  function CommandStep(mode: Mode, stack: Stack, c: char): Outcome {
    if mode.InOperator? && Extends(mode.text, c) then Out(InOperator(mode.text + [c]), stack, [OpChar(c)])
    else if c == '\\' then Out(Escaped(mode), stack, [])
    else if c == '\'' then Out(Single(InWord), stack, Begun(mode))
    else if c == '"' then Out(Double(InWord), stack, Begun(mode))
    else if c == '$' then Out(AfterDollar(InWord), stack, Begun(mode))
    else if c == '`' then OpenBackquotes(InWord, stack, Begun(mode), false)
    else if c == ')' && TopIs(stack, Command) && stack.depth == 0 then
      Out(stack.back, stack.rest, Ended(mode) + [Close])
    else if StartsOperator(c) then Out(InOperator([c]), Deepen(stack, c), Ended(mode) + [OpChar(c)])
    else if c == '\n' then Out(Between, stack, Ended(mode) + [NewLine])
    else if c == ' ' || c == '\t' then Out(Between, stack, Ended(mode))
    else if c == '#' && !mode.InWord? then Out(InComment, stack, Ended(mode))
    else Out(InWord, stack, Begun(mode) + [Bare(c)])
  }

  function CloseBraces(stack: Stack): Outcome {
    if TopIs(stack, Braces) then Out(stack.back, stack.rest, [Close]) else Breaks()
  }

  /** A character in the word of an unquoted `${name-word}`. */
  function BracesStep(stack: Stack, c: char): Outcome {
    if c == '\\' then Out(Escaped(InBraces), stack, [])
    else if c == '\'' then Out(Single(InBraces), stack, [])
    else if c == '"' then Out(Double(InBraces), stack, [])
    else if c == '$' then Out(AfterDollar(InBraces), stack, [])
    else if c == '`' then OpenBackquotes(InBraces, stack, [], false)
    else if c == '}' then CloseBraces(stack)
    else Out(InBraces, stack, [Bare(c)])
  }

  /** A character in double quotes, or where the standard has characters treated as if in double quotes. */
  function QuotedStep(mode: Mode, stack: Stack, c: char): Outcome {
    if c == '\\' then Out(DoubleEscaped(mode), stack, [])
    else if c == '$' then Out(AfterDollar(mode), stack, [])
    else if c == '`' then OpenBackquotes(mode, stack, [], true)
    else if c == '"' && mode.Double? then Out(mode.back, stack, [])
    else if c == '"' && mode.QuotedBraces? then Out(NestedDouble, stack, [])
    else if c == '"' && mode.NestedDouble? then Out(QuotedBraces, stack, [])
    else if c == '}' && mode.QuotedBraces? then CloseBraces(stack)
    else if !mode.InArithmetic? then Out(mode, stack, [Literal(c)])
    else if c == ')' && TopIs(stack, Arithmetic) && stack.depth == 0 then Out(ArithmeticEnds, stack, [])
    else Out(mode, Deepen(stack, c), [Active(c)])
  }

  function Settled(mode: Mode, stack: Stack, c: char): Outcome {
    if IsCommandMode(mode) then CommandStep(mode, stack, c)
    else if mode.InBraces? then BracesStep(stack, c)
    else if IsQuotedMode(mode) then QuotedStep(mode, stack, c)
    else Breaks()
  }

  function Prefixed(marks: seq<Mark>, o: Outcome): Outcome { o.(marks := marks + o.marks) }

  /** A character that a backslash outside quotes has made literal. */
  function EscapedChar(back: Mode, stack: Stack, c: char): Outcome {
    var (marks, mode) := Settle(back);
    if IsCommandMode(mode) || mode.InBraces? then Out(WordMode(mode), stack, marks + Begun(mode) + [Literal(c)])
    else Breaks()
  }

  /** Inside double quotes a backslash is an escape only before certain characters. */
  function DoubleEscapedChar(back: Mode, stack: Stack, c: char): Outcome {
    var (marks, mode) := Settle(back);
    if !IsQuotedMode(mode) then Breaks()
    else if c == '$' || c == '`' || c == '"' || c == '\\' || (mode.QuotedBraces? && (c == '{' || c == '}')) then
      Out(mode, stack, marks + [Literal(c)])
    else Out(mode, stack, marks + [Literal('\\'), Literal(c)])
  }

  /** Modes in which the next character may still continue what was begun. */
  predicate IsPending(mode: Mode) {
    mode.AfterDollar? || mode.InName? || mode.AfterParen? || mode.BracesOp? || mode.BracesName? || mode.BracesColon?
  }

  function AfterDollarStep(back: Mode, stack: Stack, c: char): Outcome {
    var quoted := IsQuotedMode(back);
    if c == '(' then Out(AfterParen(quoted), Push(Command, 0, back, stack), [])
    else if c == '{' then Out(BracesName(false, quoted), Push(Braces, 0, back, stack), [Open(Braces, quoted)])
    else if IsNameStart(c) then Out(InName(back), stack, [Open(Parameter, quoted), Name(c)])
    else if IsSpecial(c) then Out(back, stack, [Open(Parameter, quoted), Name(c)])
    else Prefixed([Active('$')], Settled(back, stack, c))
  }

  /** The parameter of `${..}`, a leading `#` asking for its length, and the operator after it. */
  function BracesNameStep(started: bool, quoted: bool, stack: Stack, c: char): Outcome {
    if c == '}' then CloseBraces(stack)
    else if IsNameChar(c) then Out(BracesName(true, quoted), stack, [Name(c)])
    else if !started && IsSpecial(c) then Out(BracesName(c != '#', quoted), stack, [Name(c)])
    else if c == ':' then Out(BracesColon(quoted), stack, [Active(c)])
    else if c == '%' || c == '#' then Out(BracesOp(c, quoted), stack, [Active(c)])
    else if c == '-' || c == '=' || c == '?' || c == '+' then Out(BracesGround(quoted), stack, [Active(c)])
    else Breaks()
  }

  /** One character, as backquotes let it through. */
  function Parse(core: Core, c: char): Outcome {
    var mode, stack := core.mode, core.stack;
    if IsPending(mode) && c == '\\' then
      Out(if IsQuotedMode(Settle(mode).1) then DoubleEscaped(mode) else Escaped(mode), stack, [])
    else
      match mode
      case InComment => if c == '\n' then Out(Between, stack, [NewLine]) else Out(mode, stack, [])
      case Single(back) => if c == '\'' then Out(back, stack, []) else Out(mode, stack, [Literal(c)])
      case Escaped(back) => if c == '\n' then Out(back, stack, []) else EscapedChar(back, stack, c)
      case DoubleEscaped(back) => if c == '\n' then Out(back, stack, []) else DoubleEscapedChar(back, stack, c)
      case AfterDollar(back) => AfterDollarStep(back, stack, c)
      case InName(back) => if IsNameChar(c) then Out(mode, stack, [Name(c)]) else Settled(back, stack, c)
      case AfterParen(quoted) =>
        if c == '(' && stack.Push? then Out(InArithmetic, stack.(e := Arithmetic), [Open(Arithmetic, quoted)])
        else Prefixed([Open(Command, quoted)], Settled(Between, stack, c))
      case BracesName(started, quoted) => BracesNameStep(started, quoted, stack, c)
      case BracesColon(quoted) =>
        if c == '-' || c == '=' || c == '?' || c == '+' then Out(BracesGround(quoted), stack, [Active(c)]) else Breaks()
      case BracesOp(op, quoted) =>
        if c == op then Out(BracesGround(quoted), stack, [Active(c)]) else Settled(BracesGround(quoted), stack, c)
      case ArithmeticEnds => if c == ')' && stack.Push? then Out(stack.back, stack.rest, [Close]) else Breaks()
      case _ => Settled(mode, stack, c)
  }

  function ParseText(core: Core, text: string): Outcome
    decreases text
  {
    if text == "" then Outcome(core, [], [])
    else
      var o := Parse(core, text[0]);
      var rest := ParseText(o.core, text[1..]);
      Outcome(rest.core, o.marks + rest.marks, o.added + rest.added)
  }

  // --------------------------------------------------------------- backquotes

  /** What the decoders of the enclosing backquotes make of a character: text, or an unescaped backquote. */
  datatype Decoded = Passed(text: string) | Closing | Undefined

  predicate SameKinds(a: seq<Decoder>, b: seq<Decoder>) {
    |a| == |b| && forall i :: 0 <= i < |a| ==> a[i].double == b[i].double
  }

  predicate Unescapes(double: bool, c: char) { c == '$' || c == '`' || c == '\\' || (double && c == '"') }

  function Both(a: Decoded, b: Decoded): Decoded {
    if a.Passed? && b.Passed? then Passed(a.text + b.text) else Undefined
  }

  /**
   The outermost decoder comes first. A backslash is kept unless it escapes; an unescaped backquote ends the
   innermost backquotes, and has no defined meaning anywhere deeper.
   */
  function Decode(ds: seq<Decoder>, c: char): (r: (seq<Decoder>, Decoded))
    ensures SameKinds(r.0, ds)
    decreases |ds|
  {
    if ds == [] then ([], Passed([c]))
    else
      var d, rest := ds[0], ds[1..];
      if d.held && !Unescapes(d.double, c) then
        var (first, a) := Decode(rest, '\\');
        var (second, b) := Decode(first, c);
        ([d.(held := false)] + second, Both(a, b))
      else if !d.held && c == '\\' then ([d.(held := true)] + rest, Passed(""))
      else if !d.held && c == '`' then (ds, if rest == [] then Closing else Undefined)
      else
        var (after, a) := Decode(rest, c);
        ([d.(held := false)] + after, a)
  }

  /** `awaiting` tells of a here-document operator whose body begins after the next new line. */
  datatype Control = Control(core: Core, decoders: seq<Decoder>, awaiting: bool)

  const START := Control(Core(Between, Empty), [], false)

  const BROKEN := Control(Core(Broken, Empty), [], false)

  datatype Effect = Effect(after: Control, marks: seq<Mark>)

  predicate Idle(ds: seq<Decoder>) { forall i :: 0 <= i < |ds| ==> !ds[i].held }

  /** What ends a command in a mode in which it can end. */
  function Ending(mode: Mode): Option<seq<Mark>> {
    match mode
    case Between => Some([])
    case InOperator(_) => Some([End])
    case InWord => Some([End])
    case AfterDollar(InWord) => Some([Active('$'), End])
    case InName(InWord) => Some([End])
    case _ => None
  }

  function CloseBackquotes(ctrl: Control): Effect
    requires ctrl.decoders != []
  {
    var stack := ctrl.core.stack;
    if TopIs(stack, Backquotes) && Ending(ctrl.core.mode).Some? then
      var core, decoders := Core(stack.back, stack.rest), ctrl.decoders[..|ctrl.decoders| - 1];
      var outer := Control(core, decoders, ctrl.awaiting);
      Effect(outer, Ending(ctrl.core.mode).value + [Close])
    else Effect(BROKEN, [])
  }

  const HERE_DOCUMENT := InOperator("<<")

  /** The text a character comes through as has been parsed; the body of a here-document is not read, and breaks. */
  function Advance(ctrl: Control, ds: seq<Decoder>, o: Outcome): Effect {
    if o.core.mode.Broken? || (ctrl.awaiting && NewLine in o.marks) then Effect(BROKEN, [])
    else Effect(Control(o.core, ds + o.added, ctrl.awaiting || o.core.mode == HERE_DOCUMENT), o.marks)
  }

  function CharStep(ctrl: Control, c: char): Effect {
    var (ds, decoded) := Decode(ctrl.decoders, c);
    match decoded
    case Passed(text) => Advance(ctrl, ds, ParseText(ctrl.core, text))
    case Closing => if ctrl.decoders != [] then CloseBackquotes(ctrl) else Effect(BROKEN, [])
    case Undefined => Effect(BROKEN, [])
  }

  /** Modes in which an opaque literal has a meaning: not right after a backslash or `$`, in a name or in arithmetic. */
  predicate TakesLiterals(mode: Mode) {
    var ground := Settle(mode).1;
    || mode.Single?
    || (!mode.AfterDollar? && (IsCommandMode(ground) || ground.InBraces?))
    || (!mode.AfterDollar? && IsQuotedMode(ground) && !ground.InArithmetic?)
  }

  /** An opaque literal joins the word in progress, or is one; in a comment it is discarded. */
  function LiteralStep(ctrl: Control, s: string): Effect {
    var mode, stack := ctrl.core.mode, ctrl.core.stack;
    var (marks, ground) := Settle(mode);
    if !Idle(ctrl.decoders) then Effect(BROKEN, [])
    else if mode.InComment? then Effect(ctrl, [])
    else if TakesLiterals(mode) then
      Effect(ctrl.(core := Core(WordMode(ground), stack)), marks + Begun(ground) + Literals(s))
    else Effect(BROKEN, [])
  }

  function Step(ctrl: Control, sym: Symbol): Effect {
    if ctrl.core.mode.Broken? then Effect(BROKEN, [])
    else
      match sym
      case Ch(c) => CharStep(ctrl, c)
      case Lit(s) => LiteralStep(ctrl, s)
  }

  function Run(ctrl: Control, syms: seq<Symbol>): Effect
    decreases syms
  {
    if syms == [] then Effect(ctrl, [])
    else
      var e := Step(ctrl, syms[0]);
      var rest := Run(e.after, syms[1..]);
      Effect(rest.after, e.marks + rest.marks)
  }

  /** The tokens of the whole input; none when a quote, an escape or an expansion is left open or undefined. */
  function Finish(e: Effect): Option<seq<Mark>> {
    var mode := e.after.core.mode;
    if e.after.core.stack.Push? || e.after.decoders != [] then None
    else if mode.InComment? then Some(e.marks)
    else if Ending(mode).Some? then Some(e.marks + Ending(mode).value)
    else None
  }

  function Tokenize(syms: seq<Symbol>): Option<seq<Mark>> { Finish(Run(START, syms)) }

  function Chars(s: string): seq<Symbol> { seq(|s|, i requires 0 <= i < |s| => Ch(s[i])) }

  lemma {:induction false} RunAppend(ctrl: Control, a: seq<Symbol>, b: seq<Symbol>)
    ensures var first := Run(ctrl, a);
            var second := Run(first.after, b);
            Run(ctrl, a + b) == Effect(second.after, first.marks + second.marks)
    decreases a
  {
    hide Step;
    if a == [] {
      assert a + b == b;
    } else {
      assert (a + b)[0] == a[0] && (a + b)[1..] == a[1..] + b;
      RunAppend(Step(ctrl, a[0]).after, a[1..], b);
    }
  }

  lemma RunOne(ctrl: Control, sym: Symbol)
    ensures Run(ctrl, [sym]) == Step(ctrl, sym)
  {
    hide Step;
    assert [sym][1..] == [];
  }

  lemma {:induction false} BrokenStaysBroken(ctrl: Control, syms: seq<Symbol>)
    requires ctrl == BROKEN
    ensures Run(ctrl, syms) == Effect(BROKEN, [])
    decreases syms
  {
    if syms != [] {
      BrokenStaysBroken(ctrl, syms[1..]);
    }
  }

  lemma CharsAppend(a: string, b: string)
    ensures Chars(a + b) == Chars(a) + Chars(b)
  {
  }

  // --------------------------------------------- decoding in backquotes

  function Held(ds: seq<Decoder>): nat {
    if ds == [] then 0 else (if ds[0].held then 1 else 0) + Held(ds[1..])
  }

  predicate AllSlashes(s: string) { forall i :: 0 <= i < |s| ==> s[i] == '\\' }

  /** The character behind released backslashes. */
  predicate Released(text: string, c: char) {
    text != "" && AllSlashes(text[..|text| - 1]) && text[|text| - 1] == c
  }

  /** Decoding releases held backslashes before a character, losing those that escape. */
  lemma {:induction false} DecodeReleases(ds: seq<Decoder>, c: char)
    ensures var (after, decoded) := Decode(ds, c);
            && (c == '\\' ==> decoded.Passed? && AllSlashes(decoded.text))
            && (decoded.Passed? ==> |decoded.text| + Held(after) <= Held(ds) + 1)
            && (c != '\\' && decoded.Passed? ==> Idle(after) && Released(decoded.text, c))
    decreases |ds|
  {
    if ds != [] {
      var rest := ds[1..];
      if ds[0].held && !Unescapes(ds[0].double, c) {
        DecodeReleases(rest, '\\');
        DecodeReleases(Decode(rest, '\\').0, c);
      } else {
        DecodeReleases(rest, c);
      }
    }
  }

  lemma {:induction false} IdleHoldsNone(ds: seq<Decoder>)
    ensures Idle(ds) <==> Held(ds) == 0
    decreases |ds|
  {
    if ds != [] {
      IdleHoldsNone(ds[1..]);
      assert Idle(ds) ==> forall i :: 0 <= i < |ds[1..]| ==> ds[1..][i] == ds[i + 1];
      if !ds[0].held && Idle(ds[1..]) {
        assert forall i :: 0 < i < |ds| ==> ds[i] == ds[1..][i - 1];
      }
    }
  }

  lemma {:induction false} IdlePasses(ds: seq<Decoder>, c: char)
    requires Idle(ds) && c != '\\' && c != '`'
    ensures Decode(ds, c) == (ds, Passed([c]))
    decreases |ds|
  {
    if ds != [] {
      assert forall i :: 0 <= i < |ds[1..]| ==> ds[1..][i] == ds[i + 1];
      IdlePasses(ds[1..], c);
      assert ds == [ds[0]] + ds[1..];
    }
  }

  /** Decoding of a whole text. */
  function DecodeAll(ds: seq<Decoder>, s: string): (r: (seq<Decoder>, Option<string>))
    ensures SameKinds(r.0, ds)
    decreases s
  {
    if s == "" then (ds, Some(""))
    else
      var (next, first) := Decode(ds, s[0]);
      var (after, rest) := DecodeAll(next, s[1..]);
      (after, if first.Passed? && rest.Some? then Some(first.text + rest.value) else None)
  }

  predicate Escapes(ds: seq<Decoder>, c: char) { exists i :: 0 <= i < |ds| && Unescapes(ds[i].double, c) }

  /** Only the outermost decoder may hold a backslash: the one just read. */
  predicate JustRead(ds: seq<Decoder>, held: bool) {
    ds != [] && ds[0].held == held && Idle(ds[1..])
  }

  predicate HeldFirst(ds: seq<Decoder>) { ds != [] && ds[0].held }

  function Freed(ds: seq<Decoder>): seq<Decoder> {
    if ds == [] then [] else [ds[0].(held := false)] + ds[1..]
  }

  function Holding(ds: seq<Decoder>): seq<Decoder> {
    if ds == [] then [] else [ds[0].(held := true)] + ds[1..]
  }

  /** After a backslash, a character that no enclosing backquotes escape passes together with it. */
  lemma {:induction false} PairPasses(ds: seq<Decoder>, c: char)
    requires JustRead(ds, true) && !Escapes(ds, c)
    ensures Decode(ds, c) == (Freed(ds), Passed(['\\', c]))
    decreases |ds|
  {
    var rest := ds[1..];
    assert !Unescapes(ds[0].double, c);
    if rest == [] {
      assert ['\\'] + [c] == ['\\', c];
    } else {
      var held := Holding(rest);
      assert forall i :: 0 <= i < |rest| ==> rest[i] == ds[i + 1] && held[i].double == rest[i].double;
      assert Decode(rest, '\\') == (held, Passed(""));
      assert held[1..] == rest[1..] && Idle(rest[1..]);
      PairPasses(held, c);
      assert Freed(held) == rest;
      assert "" + ['\\', c] == ['\\', c];
    }
  }

  /** One that some enclosing backquotes escape loses its backslash. */
  lemma {:induction false} PairLoses(ds: seq<Decoder>, c: char)
    requires JustRead(ds, true) && Escapes(ds, c)
    ensures var (after, decoded) := Decode(ds, c); decoded.Passed? ==> |decoded.text| + Held(after) < Held(ds) + 1
    decreases |ds|
  {
    var rest := ds[1..];
    IdleHoldsNone(rest);
    if Unescapes(ds[0].double, c) {
      DecodeReleases(rest, c);
      assert Held(Decode(ds, c).0) == Held(Decode(rest, c).0);
    } else {
      var held := Holding(rest);
      var k :| 0 <= k < |ds| && Unescapes(ds[k].double, c);
      assert held[k - 1].double == rest[k - 1].double == ds[k].double;
      assert Decode(rest, '\\') == (held, Passed(""));
      assert held[1..] == rest[1..] && Idle(rest[1..]);
      PairLoses(held, c);
      assert Held(Decode(ds, c).0) == Held(Decode(held, c).0);
    }
  }

  /** No backquote, and no backslash before a character that it would escape, `held` telling of one just read. */
  predicate KeptAfter(ds: seq<Decoder>, held: bool, s: string)
    decreases s
  {
    s == "" ||
    if held then !Escapes(ds, s[0]) && KeptAfter(ds, false, s[1..])
    else s[0] != '`' && KeptAfter(ds, s[0] == '\\', s[1..])
  }

  function SlashIf(held: bool): string { if held then "\\" else "" }

  lemma EscapesDoubles(ds: seq<Decoder>, after: seq<Decoder>, c: char)
    requires SameKinds(after, ds)
    ensures Escapes(ds, c) <==> Escapes(after, c)
  {
  }

  lemma {:induction false} KeptDoubles(ds: seq<Decoder>, after: seq<Decoder>, held: bool, s: string)
    requires SameKinds(after, ds)
    ensures KeptAfter(ds, held, s) <==> KeptAfter(after, held, s)
    decreases s
  {
    hide Escapes;
    if s != "" {
      EscapesDoubles(ds, after, s[0]);
      KeptDoubles(ds, after, if held then false else s[0] == '\\', s[1..]);
    }
  }

  lemma KeptUnfolds(ds: seq<Decoder>, held: bool, s: string)
    requires s != ""
    ensures KeptAfter(ds, held, s) <==> if held then !Escapes(ds, s[0]) && KeptAfter(ds, false, s[1..])
                                        else s[0] != '`' && KeptAfter(ds, s[0] == '\\', s[1..])
  {
    hide Escapes;
  }

  lemma NoneIsHeld(ds: seq<Decoder>)
    requires JustRead(ds, false)
    ensures Idle(ds)
  {
    assert forall i :: 0 < i < |ds| ==> ds[i] == ds[1..][i - 1];
  }

  lemma SlashIsHeld(ds: seq<Decoder>)
    requires JustRead(ds, false)
    ensures Decode(ds, '\\') == (Holding(ds), Passed("")) && JustRead(Holding(ds), true)
    ensures Held(Holding(ds)) == 1 && Held(ds) == 0
  {
    IdleHoldsNone(ds[1..]);
  }

  /** One character on its way: what is not let through yet is the backslash held back. */
  lemma KeptStep(ds: seq<Decoder>, held: bool, s: string)
    requires JustRead(ds, held) && s != "" && KeptAfter(ds, held, s)
    ensures var (next, decoded) := Decode(ds, s[0]);
            && decoded.Passed? && JustRead(next, HeldFirst(next)) && KeptAfter(next, HeldFirst(next), s[1..])
            && decoded.text + SlashIf(HeldFirst(next)) == SlashIf(held) + [s[0]]
  {
    hide Decode, Escapes, Idle, SameKinds, KeptAfter;
    var next := Decode(ds, s[0]).0;
    assert if held then !Escapes(ds, s[0]) && KeptAfter(ds, false, s[1..])
           else s[0] != '`' && KeptAfter(ds, s[0] == '\\', s[1..]) by { KeptUnfolds(ds, held, s); }
    KeptDoubles(ds, next, HeldFirst(next), s[1..]);
    if held {
      PairPasses(ds, s[0]);
      assert SlashIf(true) + [s[0]] == ['\\', s[0]] && ['\\', s[0]] + "" == ['\\', s[0]];
    } else if s[0] == '\\' {
      SlashIsHeld(ds);
    } else {
      NoneIsHeld(ds);
      IdlePasses(ds, s[0]);
      assert SlashIf(false) + [s[0]] == [s[0]] && [s[0]] + SlashIf(false) == [s[0]];
    }
  }

  lemma Regroup(head: string, middle: string, tail: string, end: string, start: string, s: string)
    requires s != "" && head + middle == start + [s[0]] && tail + end == middle + s[1..]
    ensures head + tail + end == start + s
  {
    assert head + tail + end == head + (tail + end);
    assert head + (middle + s[1..]) == head + middle + s[1..];
    assert start + [s[0]] + s[1..] == start + s;
  }

  lemma HeldIsFirst(ds: seq<Decoder>, held: bool)
    requires JustRead(ds, held)
    ensures HeldFirst(ds) == held
  {
  }

  lemma {:induction false} KeptPasses(ds: seq<Decoder>, held: bool, s: string)
    requires JustRead(ds, held) && KeptAfter(ds, held, s)
    ensures var (after, r) := DecodeAll(ds, s);
            JustRead(after, HeldFirst(after)) && r.Some? && r.value + SlashIf(HeldFirst(after)) == SlashIf(held) + s
    decreases s
  {
    hide Decode, JustRead, KeptAfter;
    assert HeldFirst(ds) == held by { HeldIsFirst(ds, held); }
    if s != "" {
      var (next, first) := Decode(ds, s[0]);
      KeptStep(ds, held, s);
      KeptPasses(next, HeldFirst(next), s[1..]);
      var (after, rest) := DecodeAll(next, s[1..]);
      hide SlashIf, HeldFirst;
      Regroup(first.text, SlashIf(HeldFirst(next)), rest.value, SlashIf(HeldFirst(after)), SlashIf(held), s);
    }
  }

  // ------------------------------------------------- what escaping removes

  /** All marks but literal backslashes. */
  function Visible(marks: seq<Mark>): seq<Mark>
    decreases marks
  {
    if marks == [] then [] else (if marks[0] == Literal('\\') then [] else [marks[0]]) + Visible(marks[1..])
  }

  lemma {:induction false} VisibleAppend(a: seq<Mark>, b: seq<Mark>)
    ensures Visible(a + b) == Visible(a) + Visible(b)
    decreases a
  {
    if a == [] {
      assert a + b == b;
    } else {
      assert (a + b)[0] == a[0] && (a + b)[1..] == a[1..] + b;
      VisibleAppend(a[1..], b);
    }
  }

  lemma LiteralsAppend(a: string, b: string)
    ensures Literals(a + b) == Literals(a) + Literals(b)
  {
  }

  lemma {:induction false} SlashesAreInvisible(s: string)
    requires AllSlashes(s)
    ensures Visible(Literals(s)) == []
    decreases s
  {
    if s != "" {
      assert Literals(s)[1..] == Literals(s[1..]);
      SlashesAreInvisible(s[1..]);
    }
  }

  lemma DecodedLooksTheSame(ds: seq<Decoder>, c: char)
    requires Decode(ds, c).1.Passed?
    ensures Visible(Literals(Decode(ds, c).1.text)) == Visible(Literals([c]))
  {
    DecodeReleases(ds, c);
    hide Decode, Visible;
    var text := Decode(ds, c).1.text;
    if c == '\\' {
      SlashesAreInvisible(text);
      SlashesAreInvisible([c]);
    } else {
      var before := text[..|text| - 1];
      assert text == before + [c];
      LiteralsAppend(before, [c]);
      SlashesAreInvisible(before);
      VisibleAppend(Literals(before), Literals([c]));
    }
  }

  lemma {:induction false} DecodingShrinks(ds: seq<Decoder>, s: string)
    requires DecodeAll(ds, s).1.Some?
    ensures var (after, r) := DecodeAll(ds, s);
            |r.value| + Held(after) <= Held(ds) + |s| && Visible(Literals(r.value)) == Visible(Literals(s))
    decreases s
  {
    hide Decode, Visible, Literals;
    if s != "" {
      var (next, first) := Decode(ds, s[0]);
      var rest := DecodeAll(next, s[1..]).1.value;
      DecodeReleases(ds, s[0]);
      DecodedLooksTheSame(ds, s[0]);
      DecodingShrinks(next, s[1..]);
      LiteralsAppend(first.text, rest);
      LiteralsAppend([s[0]], s[1..]);
      VisibleAppend(Literals(first.text), Literals(rest));
      VisibleAppend(Literals([s[0]]), Literals(s[1..]));
      assert s == [s[0]] + s[1..];
    }
  }

  lemma BackquoteStops(ds: seq<Decoder>)
    requires JustRead(ds, false)
    ensures !Decode(ds, '`').1.Passed?
  {
  }

  lemma {:induction false} UnkeptShrinks(ds: seq<Decoder>, held: bool, s: string)
    requires JustRead(ds, held) && !KeptAfter(ds, held, s)
    requires DecodeAll(ds, s).1.Some?
    ensures |DecodeAll(ds, s).1.value| + Held(DecodeAll(ds, s).0) < Held(ds) + |s|
    decreases s
  {
    hide Decode, Held, Escapes;
    var next := Decode(ds, s[0]).0;
    DecodeReleases(ds, s[0]);
    DecodingShrinks(next, s[1..]);
    if held && Escapes(ds, s[0]) {
      PairLoses(ds, s[0]);
    } else if held {
      PairPasses(ds, s[0]);
      KeptDoubles(ds, next, false, s[1..]);
      UnkeptShrinks(next, false, s[1..]);
    } else if s[0] == '\\' {
      SlashIsHeld(ds);
      KeptDoubles(ds, next, true, s[1..]);
      UnkeptShrinks(next, true, s[1..]);
    } else {
      assert s[0] != '`' by { BackquoteStops(ds); }
      NoneIsHeld(ds);
      IdlePasses(ds, s[0]);
      UnkeptShrinks(ds, false, s[1..]);
    }
  }

  /** What a text becomes on its way through the decoders, up to a following character that they do not escape. */
  function Unescaped(ds: seq<Decoder>, s: string): Option<string> {
    var (after, r) := DecodeAll(ds, s);
    var last := Decode(after, '\'').1;
    if r.None? || !last.Passed? || last.text == "" then None else Some(r.value + last.text[..|last.text| - 1])
  }

  /** Backquotes leave the text as it is: none is in it, and no backslash is before a character it would escape. */
  predicate Kept(ds: seq<Decoder>, s: string) { ds == [] || KeptAfter(ds, false, s) }

  predicate LosesAt(ds: seq<Decoder>, s: string, i: nat) {
    i + 1 < |s| && s[i] == '\\' && Escapes(ds, s[i + 1])
  }

  ghost predicate LosesNowhere(ds: seq<Decoder>, s: string) { forall i: nat :: !LosesAt(ds, s, i) }

  lemma NothingIsLost(ds: seq<Decoder>)
    ensures LosesNowhere(ds, "")
  {
  }

  lemma LosesNowOrLater(ds: seq<Decoder>, s: string)
    requires s != ""
    ensures LosesNowhere(ds, s) <==> !LosesAt(ds, s, 0) && LosesNowhere(ds, s[1..])
  {
    hide Escapes;
    forall i: nat ensures LosesAt(ds, s[1..], i) <==> LosesAt(ds, s, i + 1) {
      assert i < |s[1..]| ==> s[1..][i] == s[i + 1];
      assert i + 1 < |s[1..]| ==> s[1..][i + 1] == s[i + 2];
    }
    assert forall i: nat :: i > 0 ==> (LosesAt(ds, s, i) <==> LosesAt(ds, s[1..], i - 1));
  }

  lemma EveryDecoderEscapes(ds: seq<Decoder>)
    requires ds != []
    ensures Escapes(ds, '`') && Escapes(ds, '\\')
  {
    assert Unescapes(ds[0].double, '`') && Unescapes(ds[0].double, '\\');
  }

  /** What to look for in a value inside backquotes. */
  lemma {:induction false} KeptIff(ds: seq<Decoder>, s: string)
    requires ds != []
    ensures Kept(ds, s) <==> '`' !in s && LosesNowhere(ds, s)
    decreases |s|
  {
    hide Escapes, LosesNowhere;
    assert Escapes(ds, '`') && Escapes(ds, '\\') by { EveryDecoderEscapes(ds); }
    if s != "" {
      var rest := s[1..];
      assert '`' in s <==> s[0] == '`' || '`' in rest;
      LosesNowOrLater(ds, s);
      KeptIff(ds, rest);
      if s[0] == '\\' && rest != "" {
        assert rest[0] == s[1];
        assert KeptAfter(ds, true, rest) <==> !Escapes(ds, rest[0]) && KeptAfter(ds, false, rest[1..]);
        assert LosesAt(ds, s, 0) <==> Escapes(ds, rest[0]);
        if !Escapes(ds, rest[0]) {
          assert rest[0] != '\\' && rest[0] != '`';
          assert KeptAfter(ds, false, rest) <==> KeptAfter(ds, false, rest[1..]);
        }
      } else if rest == "" {
        assert !LosesAt(ds, s, 0) && KeptAfter(ds, s[0] == '\\', rest);
      } else {
        assert !LosesAt(ds, s, 0);
        assert KeptAfter(ds, false, s) <==> s[0] != '`' && KeptAfter(ds, false, rest);
      }
    } else {
      assert LosesNowhere(ds, s) by { NothingIsLost(ds); }
    }
  }

  lemma {:induction false} NoDecoderKeeps(s: string)
    ensures DecodeAll([], s) == ([], Some(s))
    decreases s
  {
    if s != "" {
      NoDecoderKeeps(s[1..]);
      assert Decode([], s[0]) == ([], Passed([s[0]])) && s == [s[0]] + s[1..];
    }
  }

  lemma SlashThenQuote(ds: seq<Decoder>)
    requires JustRead(ds, HeldFirst(ds))
    ensures Decode(ds, '\'') == (Freed(ds), Passed(SlashIf(HeldFirst(ds)) + ['\'']))
  {
    if HeldFirst(ds) {
      PairPasses(ds, '\'');
      assert SlashIf(true) + ['\''] == ['\\', '\''];
    } else {
      NoneIsHeld(ds);
      IdlePasses(ds, '\'');
      assert SlashIf(false) + ['\''] == ['\''];
      assert ds == Freed(ds);
    }
  }

  /** A text comes through unchanged exactly when it is kept, and otherwise not at all or with backslashes missing. */
  lemma UnescapedIff(ds: seq<Decoder>, s: string)
    requires Idle(ds)
    ensures Unescaped(ds, s) == Some(s) <==> Kept(ds, s)
    ensures Unescaped(ds, s).Some? ==> Visible(Literals(Unescaped(ds, s).value)) == Visible(Literals(s))
    ensures Unescaped(ds, s).Some? && !Kept(ds, s) ==> |Unescaped(ds, s).value| < |s|
  {
    hide Decode, Visible, Literals, KeptAfter, DecodeAll;
    var (after, r) := DecodeAll(ds, s);
    var last := Decode(after, '\'').1;
    if ds == [] {
      NoDecoderKeeps(s);
      IdlePasses([], '\'');
      assert ['\''][..0] == "" && s + "" == s;
    } else {
      if Kept(ds, s) {
        KeptPasses(ds, false, s);
        SlashThenQuote(after);
        assert "" + s == s;
      }
      if r.Some? && last.Passed? {
        IdleHoldsNone(ds);
        DecodingShrinks(ds, s);
        DecodeReleases(after, '\'');
        IdleHoldsNone(Decode(after, '\'').0);
        if !Kept(ds, s) {
          UnkeptShrinks(ds, false, s);
        }
        var released := last.text[..|last.text| - 1];
        SlashesAreInvisible(released);
        LiteralsAppend(r.value, released);
        VisibleAppend(Literals(r.value), Literals(released));
      }
    }
  }

  // --------------------------------------------- what a quoted string does

  predicate IsWordMode(mode: Mode) { mode.InWord? || mode.InBraces? }

  /**
   Outside quotes, comments and escapes, at any depth of expansions; but not right after `$` or in a name in braces.
   */
  predicate IsBareMode(mode: Mode) {
    && !mode.AfterDollar? && (IsCommandMode(Settle(mode).1) || Settle(mode).1.InBraces?)
    && (mode.InName? ==> IsWordMode(mode.back)) && (mode.BracesOp? ==> mode.op == '%' || mode.op == '#')
  }

  predicate IsBare(ctrl: Control) { Idle(ctrl.decoders) && IsBareMode(ctrl.core.mode) }

  /** What beginning a word writes, and the mode the word is read in. */
  function Entry(mode: Mode): (seq<Mark>, Mode) {
    var (marks, ground) := Settle(mode);
    (marks + Begun(ground), WordMode(ground))
  }

  /** A bare character that continues the construct before it instead of beginning a word. */
  predicate Absorbs(mode: Mode, c: char) {
    match mode
    case InOperator(text) => Extends(text, c)
    case InName(_) => IsNameChar(c)
    case BracesOp(op, _) => c == op
    case _ => false
  }

  lemma OpenQuote(mode: Mode, stack: Stack)
    requires IsBareMode(mode)
    ensures var (marks, word) := Entry(mode);
            IsWordMode(word) && Parse(Core(mode, stack), '\'') == Out(Single(word), stack, marks)
  {
    assert Parse(Core(mode, stack), '\'').marks == Entry(mode).0;
  }

  lemma SafeCharInGround(mode: Mode, stack: Stack, c: char)
    requires (IsCommandMode(mode) || mode.InBraces?) && IsSafe(c) && !Absorbs(mode, c)
    ensures Settled(mode, stack, c) == Out(WordMode(mode), stack, Begun(mode) + [Literal(c)])
  {
  }

  lemma SafeCharEnters(mode: Mode, stack: Stack, c: char)
    requires IsBareMode(mode) && IsSafe(c) && !Absorbs(mode, c)
    ensures var (marks, word) := Entry(mode);
            IsWordMode(word) && Parse(Core(mode, stack), c) == Out(word, stack, marks + [Literal(c)])
  {
    SafeCharInGround(Settle(mode).1, stack, c);
    assert c != '(' && c != '\\';
    hide Settled, IsSafe;
    assert Parse(Core(mode, stack), c).marks == Entry(mode).0 + [Literal(c)];
  }

  lemma {:induction false} OrdinaryPasses(ds: seq<Decoder>, c: char)
    requires c != '`'
    ensures Decode(ds, c).1.Passed?
    decreases |ds|
  {
    if ds != [] {
      OrdinaryPasses(ds[1..], c);
      DecodeReleases(ds[1..], '\\');
      OrdinaryPasses(Decode(ds[1..], '\\').0, c);
    }
  }

  lemma ParseOne(core: Core, c: char)
    ensures ParseText(core, [c]) == Parse(core, c)
  {
    hide Parse;
    var o := Parse(core, c);
    assert [c][1..] == "";
    assert ParseText(o.core, "") == Outcome(o.core, [], []);
    assert o.marks + [] == o.marks && o.added + [] == o.added;
  }

  /** Nothing that concerns backquotes or here-documents. */
  predicate IsPlain(o: Outcome) {
    o.added == [] && !o.core.mode.Broken? && o.core.mode != HERE_DOCUMENT && NewLine !in o.marks
  }

  /** Idle decoders leave a character to the parser. */
  lemma PlainStep(ctrl: Control, c: char)
    requires Idle(ctrl.decoders) && c != '\\' && c != '`'
    requires IsPlain(Parse(ctrl.core, c))
    ensures var o := Parse(ctrl.core, c); CharStep(ctrl, c) == Effect(ctrl.(core := o.core), o.marks)
  {
    IdlePasses(ctrl.decoders, c);
    ParseOne(ctrl.core, c);
    hide Parse, Decode;
    assert ctrl.decoders + [] == ctrl.decoders;
  }

  lemma SingleCharParses(mode: Mode, stack: Stack, c: char)
    requires mode.Single? && c != '\''
    ensures Parse(Core(mode, stack), c) == Out(mode, stack, [Literal(c)])
  {
  }

  lemma LiteralsOfNothing()
    ensures Literals("") == []
  {
  }

  lemma LiteralsOfOne(c: char)
    ensures Literals([c]) == [Literal(c)]
  {
  }

  lemma {:induction false} SinglesText(mode: Mode, stack: Stack, text: string)
    requires mode.Single? && forall i :: 0 <= i < |text| ==> text[i] != '\''
    ensures ParseText(Core(mode, stack), text) == Out(mode, stack, Literals(text))
    decreases text
  {
    if text == "" {
      LiteralsOfNothing();
    } else {
      SingleCharParses(mode, stack, text[0]);
      hide Parse, Literals;
      SinglesText(mode, stack, text[1..]);
      LiteralsAppend([text[0]], text[1..]);
      LiteralsOfOne(text[0]);
      assert [text[0]] + text[1..] == text;
    }
  }

  lemma {:induction false} ParseAppend(core: Core, a: string, b: string)
    ensures var first := ParseText(core, a);
            var second := ParseText(first.core, b);
            ParseText(core, a + b) == Outcome(second.core, first.marks + second.marks, first.added + second.added)
    decreases a
  {
    hide Parse;
    if a == "" {
      assert a + b == b;
    } else {
      assert (a + b)[0] == a[0] && (a + b)[1..] == a[1..] + b;
      ParseAppend(Parse(core, a[0]).core, a[1..], b);
    }
  }

  lemma AdvancesPlainly(ctrl: Control, ds: seq<Decoder>, o: Outcome)
    requires IsPlain(o)
    ensures Advance(ctrl, ds, o) == Effect(ctrl.(core := o.core, decoders := ds), o.marks)
  {
    assert ds + [] == ds;
  }

  /** Inside single quotes a character is literal, after the backslashes it releases; a backquote is undefined. */
  lemma SingleStep(ctrl: Control, c: char)
    requires ctrl.core.mode.Single? && IsWordMode(ctrl.core.mode.back) && c != '\''
    ensures var (ds, decoded) := Decode(ctrl.decoders, c);
            CharStep(ctrl, c) ==
              if decoded.Passed? then Effect(ctrl.(decoders := ds), Literals(decoded.text)) else Effect(BROKEN, [])
  {
    var (ds, decoded) := Decode(ctrl.decoders, c);
    DecodeReleases(ctrl.decoders, c);
    hide Decode;
    if decoded.Passed? {
      var text := decoded.text;
      forall i | 0 <= i < |text| ensures text[i] != '\'' {
        assert i < |text| - 1 ==> text[..|text| - 1][i] == text[i];
      }
      SinglesText(ctrl.core.mode, ctrl.core.stack, text);
      hide Parse, ParseText, Advance;
      AdvancesPlainly(ctrl, ds, Out(ctrl.core.mode, ctrl.core.stack, Literals(text)));
    }
  }

  lemma SlashesAreNoQuotes(s: string)
    requires AllSlashes(s)
    ensures forall i :: 0 <= i < |s| ==> s[i] != '\''
  {
  }

  lemma SingleQuoteParses(mode: Mode, stack: Stack)
    requires mode.Single?
    ensures Parse(Core(mode, stack), '\'') == Out(mode.back, stack, [])
  {
  }

  /** A single quote ends the string, after the backslashes it releases. */
  lemma SingleEnds(ctrl: Control)
    requires ctrl.core.mode.Single? && IsWordMode(ctrl.core.mode.back)
    ensures var (ds, decoded) := Decode(ctrl.decoders, '\'');
            && decoded.Passed? && Idle(ds) && Released(decoded.text, '\'')
            && CharStep(ctrl, '\'') == Effect(ctrl.(core := Core(ctrl.core.mode.back, ctrl.core.stack), decoders := ds),
                                              Literals(decoded.text[..|decoded.text| - 1]))
  {
    var (ds, decoded) := Decode(ctrl.decoders, '\'');
    OrdinaryPasses(ctrl.decoders, '\'');
    DecodeReleases(ctrl.decoders, '\'');
    SingleQuoteParses(ctrl.core.mode, ctrl.core.stack);
    assert ctrl.core.mode.back != HERE_DOCUMENT && !ctrl.core.mode.back.Broken?;
    hide Decode, Parse, ParseText, Advance, Idle, IsWordMode, AllSlashes;
    var slashes := decoded.text[..|decoded.text| - 1];
    SlashesAreNoQuotes(slashes);
    assert decoded.text == slashes + ['\''];
    SinglesText(ctrl.core.mode, ctrl.core.stack, slashes);
    ParseAppend(ctrl.core, slashes, ['\'']);
    ParseOne(ctrl.core, '\'');
    assert Literals(slashes) + [] == Literals(slashes);
    AdvancesPlainly(ctrl, ds, Out(ctrl.core.mode.back, ctrl.core.stack, Literals(slashes)));
  }

  lemma {:induction false} RunCons(ctrl: Control, s: string)
    requires s != "" && !ctrl.core.mode.Broken?
    ensures var first := CharStep(ctrl, s[0]);
            var rest := Run(first.after, Chars(s[1..]));
            Run(ctrl, Chars(s)) == Effect(rest.after, first.marks + rest.marks)
  {
    hide CharStep;
    assert Chars(s)[1..] == Chars(s[1..]);
  }

  const REQUOTED := "\"'\"'"

  function WithMode(ctrl: Control, mode: Mode): Control { ctrl.(core := ctrl.core.(mode := mode)) }

  lemma WordQuotes(word: Mode, stack: Stack)
    requires IsWordMode(word)
    ensures Parse(Core(word, stack), '"') == Out(Double(word), stack, [])
    ensures Parse(Core(word, stack), '\'') == Out(Single(word), stack, [])
    ensures Parse(Core(Double(word), stack), '\'') == Out(Double(word), stack, [Literal('\'')])
    ensures Parse(Core(Double(word), stack), '"') == Out(word, stack, [])
  {
  }

  lemma RunNothing(ctrl: Control)
    ensures Run(ctrl, Chars("")) == Effect(ctrl, [])
  {
  }

  /** The rest of what a single quote is written as leads back into single quotes. */
  lemma RequotedRuns(ctrl: Control)
    requires Idle(ctrl.decoders) && IsWordMode(ctrl.core.mode)
    ensures Run(ctrl, Chars(REQUOTED)) == Effect(WithMode(ctrl, Single(ctrl.core.mode)), [Literal('\'')])
  {
    hide Parse, Idle, CharStep, Settle, Run;
    var inside := WithMode(ctrl, Double(ctrl.core.mode));
    WordQuotes(ctrl.core.mode, ctrl.core.stack);
    PlainStep(ctrl, '"');
    PlainStep(inside, '\'');
    PlainStep(inside, '"');
    PlainStep(ctrl, '\'');
    var s := REQUOTED;
    assert s[0] == '"' && s[1..] == "'\"'" && s[1..][1..] == "\"'";
    assert s[1..][1..][1..] == "'" && s[1..][1..][1..][1..] == "";
    RunCons(ctrl, s);
    RunCons(inside, s[1..]);
    RunCons(inside, s[1..][1..]);
    RunCons(ctrl, s[1..][1..][1..]);
    RunNothing(WithMode(ctrl, Single(ctrl.core.mode)));
  }

  lemma RunText(ctrl: Control, a: string, b: string)
    ensures var first := Run(ctrl, Chars(a));
            var second := Run(first.after, Chars(b));
            Run(ctrl, Chars(a + b)) == Effect(second.after, first.marks + second.marks)
  {
    hide Run;
    CharsAppend(a, b);
    RunAppend(ctrl, Chars(a), Chars(b));
  }

  const ESCAPED_QUOTE := "'\"'\"'"

  lemma EscapeQuotesCons(s: string)
    requires s != ""
    ensures EscapeQuotes(s) == (if s[0] == '\'' then ESCAPED_QUOTE else [s[0]]) + EscapeQuotes(s[1..])
    ensures ESCAPED_QUOTE == "'" + REQUOTED
  {
  }

  /** Inside single quotes, one character as `shlex.quote` writes it is what the decoders leave of it. */
  lemma EscapedCharRuns(ctrl: Control, c: char)
    requires ctrl.core.mode.Single? && IsWordMode(ctrl.core.mode.back)
    ensures var (ds, decoded) := Decode(ctrl.decoders, c);
            Run(ctrl, Chars(if c == '\'' then ESCAPED_QUOTE else [c])) ==
              if decoded.Passed? then Effect(ctrl.(decoders := ds), Literals(decoded.text)) else Effect(BROKEN, [])
  {
    hide CharStep, Decode, Run, REQUOTED, ESCAPED_QUOTE, Idle;
    var (ds, decoded) := Decode(ctrl.decoders, c);
    if c == '\'' {
      EscapeQuotesCons("'");
      SingleEnds(ctrl);
      var slashes := decoded.text[..|decoded.text| - 1];
      var word := CharStep(ctrl, c).after;
      RunCons(ctrl, ['\'']);
      assert ['\''][1..] == "";
      RunNothing(word);
      assert Literals(slashes) + [] == Literals(slashes);
      RunText(ctrl, ['\''], REQUOTED);
      RequotedRuns(word);
      assert Literals(decoded.text) == Literals(slashes) + [Literal('\'')] by {
        LiteralsAppend(slashes, ['\'']);
        assert decoded.text == slashes + ['\''];
      }
    } else {
      SingleStep(ctrl, c);
      RunCons(ctrl, [c]);
      assert [c][1..] == "";
      RunNothing(CharStep(ctrl, c).after);
      assert CharStep(ctrl, c).marks + [] == CharStep(ctrl, c).marks;
    }
  }

  lemma NothingToEscape()
    ensures EscapeQuotes("") == ""
  {
  }

  /** Inside single quotes, the escaped text stands for what the decoders leave of the text. */
  lemma {:induction false} EscapedTextRuns(ctrl: Control, s: string)
    requires ctrl.core.mode.Single? && IsWordMode(ctrl.core.mode.back)
    ensures var (ds, decoded) := DecodeAll(ctrl.decoders, s);
            var e := Run(ctrl, Chars(EscapeQuotes(s)));
            if decoded.Some? then e == Effect(ctrl.(decoders := ds), Literals(decoded.value)) else e.after == BROKEN
    decreases s
  {
    hide CharStep, Decode, ESCAPED_QUOTE, EscapeQuotes, Run;
    if s == "" {
      assert EscapeQuotes("") == "" by { NothingToEscape(); }
      RunNothing(ctrl);
      assert Literals("") == [];
    } else {
      EscapeQuotesCons(s);
      EscapedCharRuns(ctrl, s[0]);
      var (next, first) := Decode(ctrl.decoders, s[0]);
      var head := if s[0] == '\'' then ESCAPED_QUOTE else [s[0]];
      RunText(ctrl, head, EscapeQuotes(s[1..]));
      if first.Passed? {
        EscapedTextRuns(ctrl.(decoders := next), s[1..]);
        var rest := DecodeAll(next, s[1..]).1;
        if rest.Some? {
          LiteralsAppend(first.text, rest.value);
        }
      } else {
        BrokenStaysBroken(BROKEN, Chars(EscapeQuotes(s[1..])));
      }
    }
  }

  lemma IdleOnesAgree(a: seq<Decoder>, b: seq<Decoder>)
    requires Idle(a) && Idle(b) && SameKinds(a, b)
    ensures a == b
  {
  }

  lemma RunOneChar(ctrl: Control, c: char)
    requires !ctrl.core.mode.Broken?
    ensures Run(ctrl, Chars([c])) == CharStep(ctrl, c)
  {
    hide CharStep, Run;
    RunCons(ctrl, [c]);
    assert [c][1..] == "";
    RunNothing(CharStep(ctrl, c).after);
    assert CharStep(ctrl, c).marks + [] == CharStep(ctrl, c).marks;
  }

  lemma QuotedRestRuns(ctrl: Control, s: string)
    requires ctrl.core.mode.Single? && IsWordMode(ctrl.core.mode.back) && Idle(ctrl.decoders)
    ensures var e := Run(ctrl, Chars(EscapeQuotes(s) + "'"));
            var u := Unescaped(ctrl.decoders, s);
            if u.Some? then e == Effect(WithMode(ctrl, ctrl.core.mode.back), Literals(u.value)) else e.after == BROKEN
  {
    hide CharStep, Run, EscapeQuotes, Decode, DecodeAll, Literals, Idle, AllSlashes, IsWordMode;
    EscapedTextRuns(ctrl, s);
    RunText(ctrl, EscapeQuotes(s), "'");
    var (ds, decoded) := DecodeAll(ctrl.decoders, s);
    if decoded.Some? {
      var there := ctrl.(decoders := ds);
      SingleEnds(there);
      IdleOnesAgree(Decode(ds, '\'').0, ctrl.decoders);
      RunOneChar(there, '\'');
      var released := Decode(ds, '\'').1.text;
      LiteralsAppend(decoded.value, released[..|released| - 1]);
    } else {
      BrokenStaysBroken(BROKEN, Chars("'"));
    }
  }

  lemma LiteralEnters(ctrl: Control, s: string)
    requires IsBare(ctrl)
    ensures var (marks, word) := Entry(ctrl.core.mode);
            IsWordMode(word) && LiteralStep(ctrl, s) == Effect(WithMode(ctrl, word), marks + Literals(s))
  {
  }

  lemma QuoteEnters(ctrl: Control)
    requires IsBare(ctrl)
    ensures var (marks, word) := Entry(ctrl.core.mode);
            CharStep(ctrl, '\'') == Effect(WithMode(ctrl, Single(word)), marks) && !ctrl.core.mode.Broken?
  {
    OpenQuote(ctrl.core.mode, ctrl.core.stack);
    hide Parse, CharStep, Entry;
    PlainStep(ctrl, '\'');
  }

  /** A quoted text in bare position stands for what the decoders leave of it, or breaks on a backquote. */
  lemma QuotedTextRuns(ctrl: Control, s: string)
    requires IsBare(ctrl)
    ensures var e := Run(ctrl, Chars("'" + EscapeQuotes(s) + "'"));
            var u := Unescaped(ctrl.decoders, s);
            if u.Some? then e == LiteralStep(ctrl, u.value) else e.after == BROKEN
  {
    LiteralEnters(ctrl, if Unescaped(ctrl.decoders, s).Some? then Unescaped(ctrl.decoders, s).value else "");
    QuoteEnters(ctrl);
    hide CharStep, Run, EscapeQuotes, Literals, LiteralStep, IsBareMode, Idle, Entry, IsWordMode, Unescaped;
    var word := Entry(ctrl.core.mode).1;
    RunOneChar(ctrl, '\'');
    assert "'" + EscapeQuotes(s) + "'" == "'" + (EscapeQuotes(s) + "'");
    RunText(ctrl, "'", EscapeQuotes(s) + "'");
    QuotedRestRuns(WithMode(ctrl, Single(word)), s);
  }

  /** Modes in which safe characters, and opaque literals, just continue a word. */
  predicate ContinuesWord(mode: Mode) {
    IsWordMode(mode) || mode.Single? || mode.Double? || mode.QuotedBraces? || mode.NestedDouble?
  }

  lemma SafeCharContinues(mode: Mode, stack: Stack, c: char)
    requires ContinuesWord(mode) && IsSafe(c)
    ensures Parse(Core(mode, stack), c) == Out(mode, stack, [Literal(c)])
  {
  }

  lemma SafeCharStays(ctrl: Control, c: char)
    requires Idle(ctrl.decoders) && ContinuesWord(ctrl.core.mode) && IsSafe(c)
    ensures CharStep(ctrl, c) == Effect(ctrl, [Literal(c)]) && !ctrl.core.mode.Broken?
  {
    SafeCharContinues(ctrl.core.mode, ctrl.core.stack, c);
    assert c != '\\' && c != '`';
    hide Parse, CharStep, IsSafe;
    PlainStep(ctrl, c);
  }

  lemma {:induction false} SafeTextContinues(ctrl: Control, s: string)
    requires Idle(ctrl.decoders) && ContinuesWord(ctrl.core.mode) && AllSafe(s)
    ensures Run(ctrl, Chars(s)) == Effect(ctrl, Literals(s))
    decreases s
  {
    hide CharStep, Run, IsSafe, Idle, ContinuesWord, Literals;
    if s == "" {
      RunNothing(ctrl);
      LiteralsOfNothing();
    } else {
      SafeCharStays(ctrl, s[0]);
      RunCons(ctrl, s);
      SafeTextContinues(ctrl, s[1..]);
      LiteralsAppend([s[0]], s[1..]);
      LiteralsOfOne(s[0]);
      assert s == [s[0]] + s[1..];
    }
  }

  lemma SafeCharSteps(ctrl: Control, c: char)
    requires IsBare(ctrl) && IsSafe(c) && !Absorbs(ctrl.core.mode, c)
    ensures var (marks, word) := Entry(ctrl.core.mode);
            CharStep(ctrl, c) == Effect(WithMode(ctrl, word), marks + [Literal(c)]) && !ctrl.core.mode.Broken?
  {
    SafeCharEnters(ctrl.core.mode, ctrl.core.stack, c);
    assert c != '\\' && c != '`';
    hide Parse, CharStep, Entry, Absorbs, IsSafe;
    PlainStep(ctrl, c);
  }

  lemma SafeValueRuns(ctrl: Control, s: string)
    requires IsBare(ctrl) && s != "" && AllSafe(s) && !Absorbs(ctrl.core.mode, s[0])
    ensures Run(ctrl, Chars(s)) == LiteralStep(ctrl, s)
  {
    hide CharStep, Run, IsSafe, Idle, LiteralStep, Entry, Absorbs, IsBareMode, IsWordMode;
    var (marks, word) := Entry(ctrl.core.mode);
    LiteralEnters(ctrl, s);
    SafeCharSteps(ctrl, s[0]);
    RunCons(ctrl, s);
    SafeTextContinues(WithMode(ctrl, word), s[1..]);
    LiteralsAppend([s[0]], s[1..]);
    LiteralsOfOne(s[0]);
    assert s == [s[0]] + s[1..];
    assert marks + [Literal(s[0])] + Literals(s[1..]) == marks + Literals(s);
  }

  /** A bare safe value continues what is before it. */
  predicate IsAbsorbed(ctrl: Control, value: string) {
    value != "" && AllSafe(value) && Absorbs(ctrl.core.mode, value[0])
  }

  /**
   The values that are not opaque in bare position: a safe one that continues an operator or name, and, inside
   backquotes, one with a backquote, or with a backslash before a character that it escapes there.
   */
  predicate Hazard(ctrl: Control, value: string) {
    IsAbsorbed(ctrl, value) || !Kept(ctrl.decoders, value)
  }

  lemma {:induction false} SafeTextIsKept(ds: seq<Decoder>, s: string)
    requires AllSafe(s)
    ensures KeptAfter(ds, false, s)
    decreases s
  {
    if s != "" {
      SafeTextIsKept(ds, s[1..]);
    }
  }

  lemma QuoteCases(s: string)
    ensures Quote(s) == if s != "" && AllSafe(s) then s else "'" + EscapeQuotes(s) + "'"
  {
    if s == "" {
      NothingToEscape();
      assert "'" + "" + "'" == "''";
    }
  }

  /** In bare position at any depth of expansions a quoted value is opaque, unless it is hazardous there. */
  lemma QuotedIsOpaqueWhenBare(ctrl: Control, value: string)
    requires IsBare(ctrl) && !Hazard(ctrl, value)
    ensures Run(ctrl, Chars(Quote(value))) == LiteralStep(ctrl, value)
  {
    QuoteCases(value);
    hide Run, LiteralStep, AllSafe, Quote, EscapeQuotes, Unescaped, Kept;
    if value != "" && AllSafe(value) {
      SafeValueRuns(ctrl, value);
    } else {
      QuotedTextRuns(ctrl, value);
      UnescapedIff(ctrl.decoders, value);
    }
  }

  // ----------------------------------------------------- quoted positions

  predicate SwallowedBy(ds: seq<Decoder>, s: string) {
    '\n' !in s && (ds == [] || ('\\' !in s && '`' !in s))
  }

  /** Inside quotes a safe value is opaque, the empty one in single quotes; in a comment any that does not end it. */
  predicate OpaqueWhenQuoted(ctrl: Control, value: string) {
    var mode := ctrl.core.mode;
    && Idle(ctrl.decoders)
    && (if mode.InComment? then SwallowedBy(ctrl.decoders, value)
        else
          ContinuesWord(mode) && !IsWordMode(mode) && AllSafe(value)
          && (value != "" || (mode.Single? && IsWordMode(mode.back))))
  }

  lemma {:induction false} CommentSwallows(ctrl: Control, s: string)
    requires ctrl.core.mode.InComment? && Idle(ctrl.decoders) && SwallowedBy(ctrl.decoders, s)
    ensures Run(ctrl, Chars(s)) == Effect(ctrl, [])
    decreases s
  {
    if s == "" {
      RunNothing(ctrl);
    } else {
      if ctrl.decoders != [] {
        IdlePasses(ctrl.decoders, s[0]);
      }
      assert Decode(ctrl.decoders, s[0]) == (ctrl.decoders, Passed([s[0]]));
      ParseOne(ctrl.core, s[0]);
      assert Parse(ctrl.core, s[0]) == Outcome(ctrl.core, [], []);
      assert ctrl.decoders + [] == ctrl.decoders;
      assert CharStep(ctrl, s[0]) == Effect(ctrl, []);
      hide CharStep, Parse, Run;
      RunCons(ctrl, s);
      CommentSwallows(ctrl, s[1..]);
    }
  }

  lemma {:induction false} EscapingIsSwallowed(ds: seq<Decoder>, s: string)
    requires SwallowedBy(ds, s)
    ensures SwallowedBy(ds, EscapeQuotes(s))
    decreases s
  {
    if s != "" {
      EscapingIsSwallowed(ds, s[1..]);
    }
  }

  /** Two single quotes leave single quotes and enter them again. */
  lemma EmptyInSingle(ctrl: Control)
    requires Idle(ctrl.decoders) && ctrl.core.mode.Single? && IsWordMode(ctrl.core.mode.back)
    ensures Run(ctrl, Chars("''")) == Effect(ctrl, [])
  {
    var outside := WithMode(ctrl, ctrl.core.mode.back);
    SingleQuoteParses(ctrl.core.mode, ctrl.core.stack);
    WordQuotes(ctrl.core.mode.back, ctrl.core.stack);
    assert !outside.core.mode.Broken?;
    hide Parse, CharStep, Run, Idle;
    PlainStep(ctrl, '\'');
    PlainStep(outside, '\'');
    RunCons(ctrl, "''");
    assert "''"[1..] == "'";
    RunOneChar(outside, '\'');
  }

  lemma SafeValueIsOpaqueInQuotes(ctrl: Control, value: string)
    requires OpaqueWhenQuoted(ctrl, value)
    ensures Run(ctrl, Chars(Quote(value))) == LiteralStep(ctrl, value)
  {
    hide CharStep, Run;
    if ctrl.core.mode.InComment? {
      EscapingIsSwallowed(ctrl.decoders, value);
      CommentSwallows(ctrl, Quote(value));
    } else if value == "" {
      EmptyInSingle(ctrl);
      var nothing: seq<Mark> := [];
      assert Literals("") == nothing && nothing + nothing + nothing == nothing;
    } else {
      hide EscapeQuotes;
      SafeTextContinues(ctrl, value);
      assert [] + Literals(value) == Literals(value);
    }
  }

  // ----------------------------------------- unsafe values inside quotes

  lemma NoDecoders(ctrl: Control, c: char)
    requires ctrl.decoders == []
    ensures CharStep(ctrl, c) == Advance(ctrl, [], Parse(ctrl.core, c))
  {
    ParseOne(ctrl.core, c);
    hide Parse, ParseText, Advance;
  }

  /** What is read as bare text after all: bare, in double quotes, or after a backslash in either. */
  datatype Site = InBare | InDouble | AfterSlash | AfterDoubleSlash | InSingle

  function ModeAt(site: Site, word: Mode): Mode {
    match site
    case InBare => word
    case InDouble => Double(word)
    case AfterSlash => Escaped(word)
    case AfterDoubleSlash => DoubleEscaped(Double(word))
    case InSingle => Single(word)
  }

  predicate KeepsSlash(c: char) { c != '$' && c != '`' && c != '"' && c != '\\' }

  /** What a character that is no single quote writes and where it leads, if it only writes literals. */
  function Emits(site: Site, c: char): Option<(string, Site)> {
    match site
    case InBare =>
      if c == '\\' then Some(("", AfterSlash)) else if c == '"' then Some(("", InDouble))
      else if IsSafe(c) then Some(([c], InBare)) else None
    case InDouble =>
      if c == '\\' then Some(("", AfterDoubleSlash)) else if c == '"' then Some(("", InBare))
      else if c == '$' || c == '`' then None else Some(([c], InDouble))
    case AfterSlash => Some((if c == '\n' then "" else [c], InBare))
    case AfterDoubleSlash =>
      Some((if c == '\n' then "" else if KeepsSlash(c) then ['\\', c] else [c], InDouble))
    case InSingle => Some(([c], InSingle))
  }

  /** The same for a single quote. */
  function EmitsQuote(site: Site): (string, Site) {
    match site
    case InBare => ("", InSingle)
    case InDouble => ("'", InDouble)
    case AfterSlash => ("'", InBare)
    case AfterDoubleSlash => ("\\'", InDouble)
    case InSingle => ("", InBare)
  }

  /** After a `$` or `$(` whose expansion has not been written yet. */
  predicate Undecided(mode: Mode) {
    match mode
    case AfterDollar(back) => IsWordMode(back) || (back.Double? && IsWordMode(back.back))
    case AfterParen(_) => true
    case Escaped(back) => back.AfterParen? || (back.AfterDollar? && IsWordMode(back.back))
    case DoubleEscaped(back) => back.AfterDollar? && back.back.Double? && IsWordMode(back.back.back)
    case _ => false
  }

  /** Something else than a literal is written first, or nothing is right any more. */
  predicate Shows(e: Effect) { e.after == BROKEN || (e.marks != [] && !e.marks[0].Literal?) }

  predicate ShowsSoon(e: Effect) {
    Shows(e) || (e.marks == [] && Undecided(e.after.core.mode) && e.after.decoders == [])
  }

  lemma LiteralsHaveNoNewLine(s: string)
    ensures NewLine !in Literals(s)
  {
  }

  lemma WordSiteParses(word: Mode, stack: Stack, c: char)
    requires IsWordMode(word) && c != '\'' && Emits(InBare, c).Some?
    ensures var (text, next) := Emits(InBare, c).value;
            Parse(Core(word, stack), c) == Out(ModeAt(next, word), stack, Literals(text))
  {
    var (text, next) := Emits(InBare, c).value;
    assert Parse(Core(word, stack), c).marks == Literals(text);
  }

  lemma DoubleSiteParses(word: Mode, stack: Stack, c: char)
    requires IsWordMode(word) && c != '\'' && Emits(InDouble, c).Some?
    ensures var (text, next) := Emits(InDouble, c).value;
            Parse(Core(Double(word), stack), c) == Out(ModeAt(next, word), stack, Literals(text))
  {
    var (text, next) := Emits(InDouble, c).value;
    assert Parse(Core(Double(word), stack), c).marks == Literals(text);
  }

  lemma EscapedSiteParses(site: Site, word: Mode, stack: Stack, c: char)
    requires IsWordMode(word) && c != '\'' && !site.InBare? && !site.InDouble?
    ensures var (text, next) := Emits(site, c).value;
            Parse(Core(ModeAt(site, word), stack), c) == Out(ModeAt(next, word), stack, Literals(text))
  {
    hide CommandStep, QuotedStep, BracesStep, AfterDollarStep, BracesNameStep;
    var (text, next) := Emits(site, c).value;
    assert Parse(Core(ModeAt(site, word), stack), c).marks == Literals(text);
  }

  lemma SiteParses(site: Site, word: Mode, stack: Stack, c: char)
    requires IsWordMode(word) && c != '\'' && Emits(site, c).Some?
    ensures var (text, next) := Emits(site, c).value;
            Parse(Core(ModeAt(site, word), stack), c) == Out(ModeAt(next, word), stack, Literals(text))
  {
    hide Parse, Emits, Literals, IsWordMode;
    if site.InBare? {
      WordSiteParses(word, stack, c);
    } else if site.InDouble? {
      DoubleSiteParses(word, stack, c);
    } else {
      EscapedSiteParses(site, word, stack, c);
    }
  }

  lemma SiteShows(site: Site, word: Mode, stack: Stack, c: char)
    requires IsWordMode(word) && c != '\'' && Emits(site, c).None?
    ensures var o := Parse(Core(ModeAt(site, word), stack), c);
            (o.marks != [] && !o.marks[0].Literal?) || o.core.mode.Broken?
            || (o.marks == [] && Undecided(o.core.mode) && o.added == [])
  {
  }

  lemma SiteIsPlain(site: Site, word: Mode)
    requires IsWordMode(word)
    ensures ModeAt(site, word) != HERE_DOCUMENT && !ModeAt(site, word).Broken?
  {
  }

  lemma SiteStep(ctrl: Control, site: Site, word: Mode, c: char)
    requires ctrl.decoders == [] && IsWordMode(word) && ctrl.core.mode == ModeAt(site, word) && c != '\''
    ensures var x := Emits(site, c);
            if x.Some? then CharStep(ctrl, c) == Effect(WithMode(ctrl, ModeAt(x.value.1, word)), Literals(x.value.0))
            else ShowsSoon(CharStep(ctrl, c))
  {
    NoDecoders(ctrl, c);
    var x := Emits(site, c);
    if x.Some? {
      SiteParses(site, word, ctrl.core.stack, c);
      LiteralsHaveNoNewLine(x.value.0);
      SiteIsPlain(x.value.1, word);
      hide CharStep, Parse, Emits, Advance, ModeAt;
      AdvancesPlainly(ctrl, [], Parse(ctrl.core, c));
    } else {
      SiteShows(site, word, ctrl.core.stack, c);
      hide CharStep, Parse, Emits, ModeAt, Undecided;
    }
  }

  lemma SiteQuote(ctrl: Control, site: Site, word: Mode)
    requires ctrl.decoders == [] && IsWordMode(word) && ctrl.core.mode == ModeAt(site, word)
    ensures var x := EmitsQuote(site);
            CharStep(ctrl, '\'') == Effect(WithMode(ctrl, ModeAt(x.1, word)), Literals(x.0))
  {
    NoDecoders(ctrl, '\'');
    hide CharStep;
    var x, o := EmitsQuote(site), Parse(ctrl.core, '\'');
    assert o.marks == Literals(x.0);
    LiteralsHaveNoNewLine(x.0);
    assert o == Out(ModeAt(x.1, word), ctrl.core.stack, Literals(x.0));
    AdvancesPlainly(ctrl, [], o);
  }

  lemma UndecidedParses(mode: Mode, stack: Stack, c: char)
    requires Undecided(mode)
    ensures var o := Parse(Core(mode, stack), c);
            || o.core.mode.Broken? || (o.marks != [] && !o.marks[0].Literal?)
            || (c != '\'' && o.marks == [] && Undecided(o.core.mode) && o.added == [])
  {
  }

  lemma UndecidedStep(ctrl: Control, c: char)
    requires ctrl.decoders == [] && Undecided(ctrl.core.mode)
    ensures ShowsSoon(CharStep(ctrl, c)) && (c == '\'' ==> Shows(CharStep(ctrl, c)))
  {
    NoDecoders(ctrl, c);
    UndecidedParses(ctrl.core.mode, ctrl.core.stack, c);
    hide CharStep, Parse, Undecided;
  }

  predicate EndsInQuote(s: string) { s != "" && s[|s| - 1] == '\'' }

  function Then(first: Effect, second: Effect): Effect { Effect(second.after, first.marks + second.marks) }

  lemma {:induction false} SoonShows(first: Effect, s: string)
    requires s != "" && ShowsSoon(first) && EndsInQuote(s) && (|s| == 1 ==> Shows(first))
    ensures Shows(Then(first, Run(first.after, Chars(s[1..]))))
    decreases s, 0
  {
    hide CharStep, Run, Undecided;
    if first.after == BROKEN {
      BrokenStaysBroken(first.after, Chars(s[1..]));
    } else if first.marks == [] {
      assert s[1..][|s| - 2] == s[|s| - 1];
      UndecidedShows(first.after, s[1..]);
      assert [] + Run(first.after, Chars(s[1..])).marks == Run(first.after, Chars(s[1..])).marks;
    }
  }

  /** Before the closing quote something else than a literal will be written. */
  lemma {:induction false} UndecidedShows(ctrl: Control, s: string)
    requires ctrl.decoders == [] && Undecided(ctrl.core.mode) && EndsInQuote(s)
    ensures Shows(Run(ctrl, Chars(s)))
    decreases s
  {
    assert !ctrl.core.mode.Broken?;
    hide CharStep, Run, Undecided;
    UndecidedStep(ctrl, s[0]);
    RunCons(ctrl, s);
    SoonShows(CharStep(ctrl, s[0]), s);
  }

  /** What a text writes and where it leads, as long as it only writes literals. */
  function EmitsAll(site: Site, s: string): Option<(string, Site)>
    decreases s
  {
    if s == "" then Some(("", site))
    else
      var first := if s[0] == '\'' then Some(EmitsQuote(site)) else Emits(site, s[0]);
      if first.None? then None
      else
        var rest := EmitsAll(first.value.1, s[1..]);
        if rest.None? then None else Some((first.value.0 + rest.value.0, rest.value.1))
  }

  lemma {:induction false} EmitsAllRuns(ctrl: Control, site: Site, word: Mode, s: string)
    requires ctrl.decoders == [] && IsWordMode(word) && ctrl.core.mode == ModeAt(site, word) && EmitsAll(site, s).Some?
    ensures var (text, next) := EmitsAll(site, s).value;
            Run(ctrl, Chars(s)) == Effect(WithMode(ctrl, ModeAt(next, word)), Literals(text))
    decreases s
  {
    hide CharStep, Run, Emits, EmitsQuote, IsWordMode, Literals;
    SiteIsPlain(site, word);
    if s == "" {
      RunNothing(ctrl);
      LiteralsOfNothing();
    } else {
      var first := if s[0] == '\'' then EmitsQuote(site) else Emits(site, s[0]).value;
      if s[0] == '\'' {
        SiteQuote(ctrl, site, word);
      } else {
        SiteStep(ctrl, site, word, s[0]);
      }
      hide ModeAt;
      RunCons(ctrl, s);
      EmitsAllRuns(CharStep(ctrl, s[0]).after, first.1, word, s[1..]);
      LiteralsAppend(first.0, EmitsAll(first.1, s[1..]).value.0);
    }
  }

  /** What a single quote of the value, as it is written, comes to. */
  function EmitsGroup(site: Site): (string, Site) {
    match site
    case InBare => ("\"'", InDouble)
    case InDouble => ("'\"", InBare)
    case AfterSlash => ("''", InSingle)
    case AfterDoubleSlash => ("\\'\"", InBare)
    case InSingle => ("'", InSingle)
  }

  lemma EmitsTwo(site: Site, c: char, d: char)
    requires c == '\'' || Emits(site, c).Some?
    ensures var first := if c == '\'' then EmitsQuote(site) else Emits(site, c).value;
            var next := if d == '\'' then Some(EmitsQuote(first.1)) else Emits(first.1, d);
            EmitsAll(site, [c, d]) ==
              if next.None? then None else Some((first.0 + next.value.0, next.value.1))
  {
    hide Emits, EmitsQuote;
    assert [c, d][1..] == [d] && [d][1..] == "";
    var first := if c == '\'' then EmitsQuote(site) else Emits(site, c).value;
    var next := if d == '\'' then Some(EmitsQuote(first.1)) else Emits(first.1, d);
    assert EmitsAll(first.1, [d]) == if next.None? then None else Some((next.value.0 + "", next.value.1));
    assert next.Some? ==> next.value.0 + "" == next.value.0;
  }

  lemma {:induction false} EmitsAppend(site: Site, a: string, b: string)
    requires EmitsAll(site, a).Some?
    ensures var first := EmitsAll(site, a).value;
            var rest := EmitsAll(first.1, b);
            EmitsAll(site, a + b) == if rest.None? then None else Some((first.0 + rest.value.0, rest.value.1))
    decreases a
  {
    hide Emits, EmitsQuote;
    if a == "" {
      assert a + b == b;
      var rest := EmitsAll(site, b);
      assert rest.Some? ==> "" + rest.value.0 == rest.value.0;
    } else {
      assert (a + b)[0] == a[0] && (a + b)[1..] == a[1..] + b;
      var first := if a[0] == '\'' then EmitsQuote(site) else Emits(site, a[0]).value;
      EmitsAppend(first.1, a[1..], b);
      var middle := EmitsAll(first.1, a[1..]).value;
      var rest := EmitsAll(middle.1, b);
      assert rest.Some? ==> first.0 + (middle.0 + rest.value.0) == first.0 + middle.0 + rest.value.0;
    }
  }

  /** What a single quote followed by a double quote comes to. */
  function EmitsPair(site: Site): (string, Site) {
    match site
    case InBare => ("\"", InSingle)
    case InDouble => ("'", InBare)
    case AfterSlash => ("'", InDouble)
    case AfterDoubleSlash => ("\\'", InBare)
    case InSingle => ("", InDouble)
  }

  lemma PairEmits(site: Site)
    ensures EmitsAll(site, "'\"") == Some(EmitsPair(site))
  {
    EmitsTwo(site, '\'', '"');
    var (text, _) := EmitsQuote(site);
    assert text + "" == text && "" + "\"" == "\"";
  }

  lemma QuoteEmits(site: Site)
    ensures EmitsAll(site, "'") == Some(EmitsQuote(site))
  {
    var x := EmitsQuote(site);
    assert "'"[1..] == "" && x.0 + "" == x.0;
    assert EmitsAll(x.1, "") == Some(("", x.1));
  }

  lemma GroupEmits(site: Site)
    ensures EmitsAll(site, ESCAPED_QUOTE) == Some(EmitsGroup(site))
  {
    var pair := "'\"";
    assert ESCAPED_QUOTE == pair + (pair + "'");
    var one := EmitsPair(site);
    var two := EmitsPair(one.1);
    PairEmits(site);
    PairEmits(one.1);
    QuoteEmits(two.1);
    EmitsAppend(one.1, pair, "'");
    EmitsAppend(site, pair, pair + "'");
    assert one.0 + (two.0 + EmitsQuote(two.1).0) == EmitsGroup(site).0;
  }

  predicate Differ(a: seq<Mark>, b: seq<Mark>) { exists i :: 0 <= i < |a| && i < |b| && a[i] != b[i] }

  lemma DifferBetween(x: seq<Mark>, a: seq<Mark>, a': seq<Mark>, b: seq<Mark>, b': seq<Mark>)
    requires Differ(a, b)
    ensures Differ(x + a + a', x + b + b')
  {
    var i :| 0 <= i < |a| && i < |b| && a[i] != b[i];
    assert (x + a + a')[|x| + i] == a[i] && (x + b + b')[|x| + i] == b[i];
  }

  // ------------------------------------------- in single quotes

  /** What is written is other than what is due from some place on, or falls short of it where it should be complete. */
  predicate Clash(e: Effect, end: Control, due: string) {
    e.after == BROKEN || Differ(e.marks, Literals(due)) || (e.after == end && |e.marks| < |due|)
  }

  predicate Mismatch(a: string, b: string) { exists i :: 0 <= i < |a| && i < |b| && a[i] != b[i] }

  lemma ClashLater(text: string, e: Effect, end: Control, due: string)
    requires Clash(e, end, due)
    ensures Clash(Effect(e.after, Literals(text) + e.marks), end, text + due)
  {
    LiteralsAppend(text, due);
    if Differ(e.marks, Literals(due)) {
      hide Literals, Differ;
      DifferBetween(Literals(text), e.marks, [], Literals(due), []);
      assert Literals(text) + e.marks + [] == Literals(text) + e.marks;
      assert Literals(text) + Literals(due) + [] == Literals(text) + Literals(due);
    }
  }

  lemma ClashNow(text: string, e: Effect, end: Control, due: string)
    requires Mismatch(text, due)
    ensures Clash(Effect(e.after, Literals(text) + e.marks), end, due)
  {
    var i :| 0 <= i < |text| && i < |due| && text[i] != due[i];
    assert (Literals(text) + e.marks)[i] != Literals(due)[i];
  }

  lemma ShownClashes(e: Effect, end: Control, due: string)
    requires Shows(e) && due != ""
    ensures Clash(e, end, due)
  {
    if e.after != BROKEN {
      assert e.marks[0] != Literals(due)[0];
    }
  }

  /** What has been read, but not written, when unsafe text is read at a site; no single quote has been met. */
  predicate Lags(site: Site, unwritten: string) {
    && unwritten != "" && '\'' !in unwritten
    && match site
       case InBare => |unwritten| >= 2 || unwritten[0] != '"'
       case InDouble => true
       case AfterSlash => unwritten[|unwritten| - 1] == '\\'
       case AfterDoubleSlash => |unwritten| >= 2
       case InSingle => false
  }

  lemma LagStays(site: Site, unwritten: string, c: char)
    requires Lags(site, unwritten) && c != '\'' && Emits(site, c).Some?
    ensures var (text, next) := Emits(site, c).value;
            var all := unwritten + [c];
            |text| <= |all| && (text == all[..|text|] ==> Lags(next, all[|text|..]))
  {
    var (text, next) := Emits(site, c).value;
    var all := unwritten + [c];
    var left := all[|text|..];
    assert '\'' !in all;
    assert left != "" ==> left[|left| - 1] == c;
    assert |text| == 1 ==> all[..1][0] == unwritten[0];
  }

  lemma QuoteMismatch(site: Site, unwritten: string, rest: string)
    requires Lags(site, unwritten)
    ensures Mismatch(EmitsGroup(site).0, unwritten + "'" + rest)
    ensures site.InBare? || Mismatch(EmitsQuote(site).0, unwritten)
  {
    var due, group, quote := unwritten + "'" + rest, EmitsGroup(site).0, EmitsQuote(site).0;
    assert due[0] == unwritten[0];
    assert |unwritten| >= 2 ==> due[1] == unwritten[1];
    if site.InDouble? || site.AfterSlash? {
      assert group[0] != due[0] && quote[0] != unwritten[0];
    } else if site.AfterDoubleSlash? || |unwritten| >= 2 {
      assert group[1] != due[1];
      assert site.AfterDoubleSlash? ==> quote[1] != unwritten[1];
    } else {
      assert group[0] != due[0];
    }
  }

  function Written(s: string): string { EscapeQuotes(s) + "'" }

  lemma WrittenCons(s: string)
    requires s != ""
    ensures Written(s) == (if s[0] == '\'' then ESCAPED_QUOTE else [s[0]]) + Written(s[1..])
    ensures EndsInQuote(Written(s)) && |Written(s)| >= 2
    ensures s[0] != '\'' ==> Written(s)[0] == s[0] && Written(s)[1..] == Written(s[1..])
  {
    EscapeQuotesCons(s);
    hide EscapeQuotes;
    assert Written(s)[|Written(s)| - 1] == '\'';
  }

  lemma WrittenNothing()
    ensures Written("") == "'"
  {
  }

  /** The first step, when it writes literals, and the run after it. */
  lemma SiteThen(ctrl: Control, site: Site, word: Mode, s: string)
    requires ctrl.decoders == [] && IsWordMode(word) && ctrl.core.mode == ModeAt(site, word)
    requires s != "" && s[0] != '\'' && EndsInQuote(Written(s))
    ensures var x := Emits(site, s[0]);
            var e := Run(ctrl, Chars(Written(s)));
            if x.None? then Shows(e)
            else
              var rest := Run(WithMode(ctrl, ModeAt(x.value.1, word)), Chars(Written(s[1..])));
              e == Effect(rest.after, Literals(x.value.0) + rest.marks)
  {
    SiteIsPlain(site, word);
    hide CharStep, Run, Emits, ModeAt, IsWordMode, Written, Undecided, Shows;
    WrittenCons(s);
    SiteStep(ctrl, site, word, s[0]);
    RunCons(ctrl, Written(s));
    if Emits(site, s[0]).None? {
      SoonShows(CharStep(ctrl, s[0]), Written(s));
    }
  }

  lemma GroupThen(ctrl: Control, site: Site, word: Mode, s: string)
    requires ctrl.decoders == [] && IsWordMode(word) && ctrl.core.mode == ModeAt(site, word)
    requires s != "" && s[0] == '\''
    ensures var (text, next) := EmitsGroup(site);
            var rest := Run(WithMode(ctrl, ModeAt(next, word)), Chars(Written(s[1..])));
            Run(ctrl, Chars(Written(s))) == Effect(rest.after, Literals(text) + rest.marks)
  {
    hide Run, Emits, ModeAt, IsWordMode, Written, EmitsAll, EmitsGroup, ESCAPED_QUOTE;
    WrittenCons(s);
    GroupEmits(site);
    EmitsAllRuns(ctrl, site, word, ESCAPED_QUOTE);
    RunText(ctrl, ESCAPED_QUOTE, Written(s[1..]));
  }

  lemma LastThen(ctrl: Control, site: Site, word: Mode)
    requires ctrl.decoders == [] && IsWordMode(word) && ctrl.core.mode == ModeAt(site, word)
    ensures var (text, next) := EmitsQuote(site);
            Run(ctrl, Chars(Written(""))) == Effect(WithMode(ctrl, ModeAt(next, word)), Literals(text))
  {
    SiteIsPlain(site, word);
    hide Run, CharStep, ModeAt, EmitsQuote, IsWordMode;
    WrittenNothing();
    SiteQuote(ctrl, site, word);
    RunOneChar(ctrl, '\'');
  }

  lemma LagIsSome(site: Site, unwritten: string)
    requires Lags(site, unwritten)
    ensures unwritten != ""
  {
  }

  lemma LagEnds(ctrl: Control, site: Site, word: Mode, unwritten: string)
    requires Lags(site, unwritten)
    ensures var (text, next) := EmitsQuote(site);
            Clash(Effect(WithMode(ctrl, ModeAt(next, word)), Literals(text)), WithMode(ctrl, Single(word)), unwritten)
  {
    var (text, next) := EmitsQuote(site);
    if !site.InBare? {
      QuoteMismatch(site, unwritten, "");
      ClashNow(text, Effect(WithMode(ctrl, ModeAt(next, word)), []), WithMode(ctrl, Single(word)), unwritten);
      assert Literals(text) + [] == Literals(text);
    }
  }

  lemma {:induction false} LagStep(ctrl: Control, site: Site, word: Mode, unwritten: string, s: string)
    requires ctrl.decoders == [] && IsWordMode(word) && ctrl.core.mode == ModeAt(site, word) && Lags(site, unwritten)
    requires s != "" && s[0] != '\'' && Emits(site, s[0]).Some?
    requires var (text, next) := Emits(site, s[0]).value;
             var rest := Run(WithMode(ctrl, ModeAt(next, word)), Chars(Written(s[1..])));
             Run(ctrl, Chars(Written(s))) == Effect(rest.after, Literals(text) + rest.marks)
    ensures Clash(Run(ctrl, Chars(Written(s))), WithMode(ctrl, Single(word)), unwritten + s)
    decreases s, 0
  {
    hide Run, Emits, EmitsQuote, EmitsGroup, Written, Clash, Lags, IsWordMode, Literals;
    var (text, next) := Emits(site, s[0]).value;
    var there, end := WithMode(ctrl, ModeAt(next, word)), WithMode(ctrl, Single(word));
    var all := unwritten + [s[0]];
    LagStays(site, unwritten, s[0]);
    assert all + s[1..] == unwritten + s;
    if text == all[..|text|] {
      Lagging(there, next, word, all[|text|..], s[1..]);
      ClashLater(text, Run(there, Chars(Written(s[1..]))), end, all[|text|..] + s[1..]);
      assert text + (all[|text|..] + s[1..]) == unwritten + s;
    } else {
      var i :| 0 <= i < |text| && text[i] != all[i];
      assert text[i] != (unwritten + s)[i];
      ClashNow(text, Run(there, Chars(Written(s[1..]))), end, unwritten + s);
    }
  }

  /** Once behind, the text stays behind, or shows to be other than what is due. */
  lemma {:induction false} Lagging(ctrl: Control, site: Site, word: Mode, unwritten: string, s: string)
    requires ctrl.decoders == [] && IsWordMode(word) && ctrl.core.mode == ModeAt(site, word) && Lags(site, unwritten)
    ensures Clash(Run(ctrl, Chars(Written(s))), WithMode(ctrl, Single(word)), unwritten + s)
    decreases s
  {
    hide Run, Emits, EmitsQuote, EmitsGroup, Written, Clash, Lags, Mismatch, IsWordMode, Literals;
    var end := WithMode(ctrl, Single(word));
    assert unwritten != "" by { LagIsSome(site, unwritten); }
    if s == "" {
      LastThen(ctrl, site, word);
      assert unwritten + s == unwritten;
      LagEnds(ctrl, site, word, unwritten);
    } else if s[0] == '\'' {
      GroupThen(ctrl, site, word, s);
      QuoteMismatch(site, unwritten, s[1..]);
      assert unwritten + "'" + s[1..] == unwritten + s;
      var (text, next) := EmitsGroup(site);
      ClashNow(text, Run(WithMode(ctrl, ModeAt(next, word)), Chars(Written(s[1..]))), end, unwritten + s);
    } else {
      WrittenCons(s);
      SiteThen(ctrl, site, word, s);
      if Emits(site, s[0]).None? {
        ShownClashes(Run(ctrl, Chars(Written(s))), end, unwritten + s);
      } else {
        LagStep(ctrl, site, word, unwritten, s);
      }
    }
  }

  lemma SafeIsSafe(s: string)
    requires s != "" && Emits(InBare, s[0]).Some? && Emits(InBare, s[0]).value.1.InBare? && !AllSafe(s)
    ensures IsSafe(s[0]) && !AllSafe(s[1..])
  {
    assert s == [s[0]] + s[1..];
  }

  /** Read bare, the text of an unsafe value is never what the value is. */
  lemma {:induction false} BareTextClashes(ctrl: Control, word: Mode, s: string)
    requires ctrl.decoders == [] && IsWordMode(word) && ctrl.core.mode == word && !AllSafe(s)
    ensures Clash(Run(ctrl, Chars(Written(s))), WithMode(ctrl, Single(word)), s)
    decreases s
  {
    hide Run, Written, Clash, IsWordMode, Literals, IsSafe;
    var end := WithMode(ctrl, Single(word));
    var c := s[0];
    if c == '\'' {
      GroupThen(ctrl, InBare, word, s);
      var (text, next) := EmitsGroup(InBare);
      assert text[0] != s[0];
      ClashNow(text, Run(WithMode(ctrl, ModeAt(next, word)), Chars(Written(s[1..]))), end, s);
    } else {
      WrittenCons(s);
      SiteThen(ctrl, InBare, word, s);
      if Emits(InBare, c).None? {
        ShownClashes(Run(ctrl, Chars(Written(s))), end, s);
      } else {
        var (text, next) := Emits(InBare, c).value;
        var there := WithMode(ctrl, ModeAt(next, word));
        assert [c] + s[1..] == s;
        if next.InBare? {
          SafeIsSafe(s);
          BareTextClashes(there, word, s[1..]);
          ClashLater(text, Run(there, Chars(Written(s[1..]))), end, s[1..]);
        } else {
          Lagging(there, next, word, [c], s[1..]);
          ClashLater("", Run(there, Chars(Written(s[1..]))), end, s);
          assert "" + s == s;
        }
      }
    }
  }

  lemma ClashIsNoMeaning(e: Effect, end: Control, due: string)
    requires Clash(e, end, due) && end != BROKEN
    ensures e != Effect(end, Literals(due))
  {
  }

  lemma LiteralStays(ctrl: Control, word: Mode, s: string)
    requires ctrl.decoders == [] && IsWordMode(word)
    requires ctrl.core.mode == Single(word) || ctrl.core.mode == Double(word)
    ensures LiteralStep(ctrl, s) == Effect(ctrl, Literals(s)) && ctrl != BROKEN
  {
    assert [] + [] + Literals(s) == Literals(s);
  }

  lemma QuoteIsWritten(s: string)
    ensures Quote(s) == if s != "" && AllSafe(s) then s else "'" + Written(s)
  {
    QuoteCases(s);
    hide Quote, EscapeQuotes;
    assert "'" + EscapeQuotes(s) + "'" == "'" + Written(s);
  }

  /** The quote that begins what `shlex.quote` writes, read inside quotes. */
  lemma OpeningThen(ctrl: Control, site: Site, word: Mode, s: string)
    requires ctrl.decoders == [] && IsWordMode(word) && ctrl.core.mode == ModeAt(site, word)
    ensures var (text, next) := EmitsQuote(site);
            var rest := Run(WithMode(ctrl, ModeAt(next, word)), Chars(Written(s)));
            Run(ctrl, Chars("'" + Written(s))) == Effect(rest.after, Literals(text) + rest.marks)
  {
    SiteIsPlain(site, word);
    hide Run, CharStep, ModeAt, EmitsQuote, IsWordMode, Written;
    SiteQuote(ctrl, site, word);
    RunOneChar(ctrl, '\'');
    RunText(ctrl, "'", Written(s));
  }

  /**
   Outside backquotes, a value put in single quotes is opaque exactly when it is all safe characters; any other leaves
   the quotes, and is not read as what it is.
   */
  lemma SingleTakesIff(ctrl: Control, value: string)
    requires ctrl.decoders == [] && ctrl.core.mode.Single? && IsWordMode(ctrl.core.mode.back)
    ensures Run(ctrl, Chars(Quote(value))) == LiteralStep(ctrl, value) <==> AllSafe(value)
    ensures !AllSafe(value) ==> Clash(Run(ctrl, Chars(Quote(value))), LiteralStep(ctrl, value).after, value)
  {
    var word := ctrl.core.mode.back;
    LiteralStays(ctrl, word, value);
    QuoteIsWritten(value);
    if value != "" && AllSafe(value) {
      hide Run, LiteralStep, Quote, IsSafe;
      SafeTextContinues(ctrl, value);
    } else {
      hide Run, LiteralStep, Quote, Written, IsSafe, Clash;
      OpeningThen(ctrl, InSingle, word, value);
      var there := WithMode(ctrl, word);
      var rest := Run(there, Chars(Written(value)));
      assert Literals("") == [] && [] + rest.marks == rest.marks;
      if value == "" {
        LastThen(there, InBare, word);
      } else {
        BareTextClashes(there, word, value);
        ClashIsNoMeaning(rest, ctrl, value);
      }
    }
  }

  // ------------------------------------------- in double quotes

  predicate OnlyLiterals(marks: seq<Mark>) { forall i :: 0 <= i < |marks| ==> marks[i].Literal? }

  function QuoteMarks(marks: seq<Mark>): nat
    decreases marks
  {
    if marks == [] then 0 else (if marks[0] == Literal('\'') then 1 else 0) + QuoteMarks(marks[1..])
  }

  lemma {:induction false} QuoteMarksAppend(a: seq<Mark>, b: seq<Mark>)
    ensures QuoteMarks(a + b) == QuoteMarks(a) + QuoteMarks(b)
    decreases a
  {
    if a == [] {
      assert a + b == b;
    } else {
      assert (a + b)[0] == a[0] && (a + b)[1..] == a[1..] + b;
      QuoteMarksAppend(a[1..], b);
    }
  }

  /** As many single quotes are written as the value has, unless it shows to be no text. */
  predicate Outnumbers(e: Effect, n: nat) {
    e.after == BROKEN || !OnlyLiterals(e.marks) || QuoteMarks(e.marks) >= n
  }

  lemma OutnumbersLater(text: string, e: Effect, n: nat)
    requires Outnumbers(e, n)
    ensures Outnumbers(Effect(e.after, Literals(text) + e.marks), n + QuoteMarks(Literals(text)))
  {
    QuoteMarksAppend(Literals(text), e.marks);
    hide QuoteMarks, Literals;
    var all := Literals(text) + e.marks;
    if e.after != BROKEN && !OnlyLiterals(e.marks) {
      var i :| 0 <= i < |e.marks| && !e.marks[i].Literal?;
      assert all[|Literals(text)| + i] == e.marks[i];
    }
  }

  lemma {:induction false} QuoteIsCounted(s: string, i: nat)
    requires i < |s| && s[i] == '\''
    ensures QuoteMarks(Literals(s)) >= 1
    decreases i
  {
    assert Literals(s)[1..] == Literals(s[1..]);
    if i > 0 {
      QuoteIsCounted(s[1..], i - 1);
    }
  }

  lemma GroupHasQuote(site: Site)
    ensures QuoteMarks(Literals(EmitsGroup(site).0)) >= 1
  {
    var text := EmitsGroup(site).0;
    var i := if site.InBare? || site.AfterDoubleSlash? then 1 else 0;
    assert text[i] == '\'';
    QuoteIsCounted(text, i);
  }

  lemma QuoteMarksCons(s: string)
    requires s != ""
    ensures QuoteMarks(Literals(s)) == (if s[0] == '\'' then 1 else 0) + QuoteMarks(Literals(s[1..]))
  {
    assert Literals(s)[1..] == Literals(s[1..]);
  }

  lemma NoQuotesInNothing(e: Effect)
    ensures Outnumbers(e, QuoteMarks(Literals("")))
  {
    assert Literals("") == [];
  }

  lemma OutnumbersLess(e: Effect, n: nat, m: nat)
    requires Outnumbers(e, n) && m <= n
    ensures Outnumbers(e, m)
  {
  }

  lemma ShownOutnumbers(e: Effect, n: nat)
    requires Shows(e)
    ensures Outnumbers(e, n)
  {
  }

  lemma {:induction false} QuotesAreWritten(ctrl: Control, site: Site, word: Mode, s: string)
    requires ctrl.decoders == [] && IsWordMode(word) && ctrl.core.mode == ModeAt(site, word)
    ensures Outnumbers(Run(ctrl, Chars(Written(s))), QuoteMarks(Literals(s)))
    decreases s
  {
    hide Run, Emits, EmitsGroup, Written, IsWordMode, QuoteMarks, Outnumbers, Literals;
    if s == "" {
      NoQuotesInNothing(Run(ctrl, Chars(Written(s))));
    } else {
      QuoteMarksCons(s);
      if s[0] == '\'' {
        GroupThen(ctrl, site, word, s);
        var (text, next) := EmitsGroup(site);
        var there := WithMode(ctrl, ModeAt(next, word));
        QuotesAreWritten(there, next, word, s[1..]);
        GroupHasQuote(site);
        OutnumbersLater(text, Run(there, Chars(Written(s[1..]))), QuoteMarks(Literals(s[1..])));
        OutnumbersLess(Run(ctrl, Chars(Written(s))), QuoteMarks(Literals(s[1..])) + QuoteMarks(Literals(text)),
                       QuoteMarks(Literals(s)));
      } else {
        WrittenCons(s);
        SiteThen(ctrl, site, word, s);
        if Emits(site, s[0]).None? {
          ShownOutnumbers(Run(ctrl, Chars(Written(s))), QuoteMarks(Literals(s)));
        } else {
          var (text, next) := Emits(site, s[0]).value;
          var there := WithMode(ctrl, ModeAt(next, word));
          QuotesAreWritten(there, next, word, s[1..]);
          OutnumbersLater(text, Run(there, Chars(Written(s[1..]))), QuoteMarks(Literals(s[1..])));
          OutnumbersLess(Run(ctrl, Chars(Written(s))), QuoteMarks(Literals(s[1..])) + QuoteMarks(Literals(text)),
                         QuoteMarks(Literals(s)));
        }
      }
    }
  }

  lemma MoreQuotesIsNoMeaning(e: Effect, end: Control, due: string)
    requires Outnumbers(e, QuoteMarks(Literals(due)) + 1) && end != BROKEN
    ensures e != Effect(end, Literals(due))
  {
    assert OnlyLiterals(Literals(due));
  }

  lemma OutsideSafeIsMore(ctrl: Control, value: string)
    requires ctrl.decoders == [] && ctrl.core.mode.Double? && IsWordMode(ctrl.core.mode.back)
    ensures Outnumbers(Run(ctrl, Chars("'" + Written(value))), QuoteMarks(Literals(value)) + 1)
  {
    hide Run, Written, Outnumbers, QuoteMarks, Literals;
    var rest, n := Run(ctrl, Chars(Written(value))), QuoteMarks(Literals(value));
    OpeningThen(ctrl, InDouble, ctrl.core.mode.back, value);
    QuotesAreWritten(ctrl, InDouble, ctrl.core.mode.back, value);
    QuoteIsCounted("'", 0);
    OutnumbersLater("'", rest, n);
    OutnumbersLess(Run(ctrl, Chars("'" + Written(value))), n + QuoteMarks(Literals("'")), n + 1);
  }

  /** Outside backquotes, a value put in double quotes is opaque exactly when it is some safe characters. */
  lemma DoubleTakesIff(ctrl: Control, value: string)
    requires ctrl.decoders == [] && ctrl.core.mode.Double? && IsWordMode(ctrl.core.mode.back)
    ensures Run(ctrl, Chars(Quote(value))) == LiteralStep(ctrl, value) <==> value != "" && AllSafe(value)
  {
    LiteralStays(ctrl, ctrl.core.mode.back, value);
    QuoteIsWritten(value);
    assert ContinuesWord(ctrl.core.mode) && Idle(ctrl.decoders);
    hide *;
    if value != "" && AllSafe(value) {
      SafeTextContinues(ctrl, value);
    } else {
      OutsideSafeIsMore(ctrl, value);
      MoreQuotesIsNoMeaning(Run(ctrl, Chars(Quote(value))), ctrl, value);
    }
  }

  // --------------------------------------------------- here-documents

  lemma LiteralsAreNoNewLine(ctrl: Control, s: string)
    ensures NewLine !in LiteralStep(ctrl, s).marks
  {
  }

  lemma StepKeepsAwaiting(ctrl: Control, sym: Symbol)
    requires ctrl.awaiting
    ensures var e := Step(ctrl, sym); e.after == BROKEN || (e.after.awaiting && NewLine !in e.marks)
  {
    hide Decode, ParseText, Idle;
    assert sym.Ch? || NewLine !in LiteralStep(ctrl, sym.s).marks by {
      if sym.Lit? {
        LiteralsAreNoNewLine(ctrl, sym.s);
      }
    }
    assert Ending(ctrl.core.mode).Some? ==> NewLine !in Ending(ctrl.core.mode).value;
  }

  /** Input with a here-document has no tokens, unless it ends before the body begins. */
  lemma {:induction false} BodyIsNeverRead(ctrl: Control, syms: seq<Symbol>)
    requires ctrl.awaiting
    ensures var e := Run(ctrl, syms); e.after == BROKEN || (e.after.awaiting && NewLine !in e.marks)
    decreases syms
  {
    hide Step;
    if syms != [] {
      StepKeepsAwaiting(ctrl, syms[0]);
      if Step(ctrl, syms[0]).after == BROKEN {
        BrokenStaysBroken(BROKEN, syms[1..]);
      } else {
        BodyIsNeverRead(Step(ctrl, syms[0]).after, syms[1..]);
      }
    }
  }

  // ------------------------------------------------- what a hazard does

  /** The visible marks differ at some place, which nothing written later can mend. */
  predicate Diverged(a: seq<Mark>, b: seq<Mark>) { Differ(Visible(a), Visible(b)) }

  lemma DivergenceStays(x: seq<Mark>, y: seq<Mark>, a: seq<Mark>, a': seq<Mark>, b: seq<Mark>, b': seq<Mark>)
    requires Visible(x) == Visible(y) && Diverged(a, b)
    ensures Diverged(x + (a + a'), y + (b + b'))
  {
    hide Visible, Differ;
    VisibleAppend(a, a');
    VisibleAppend(b, b');
    VisibleAppend(x, a + a');
    VisibleAppend(y, b + b');
    assert Visible(x) + (Visible(a) + Visible(a')) == Visible(x) + Visible(a) + Visible(a');
    assert Visible(x) + (Visible(b) + Visible(b')) == Visible(x) + Visible(b) + Visible(b');
    DifferBetween(Visible(x), Visible(a), Visible(a'), Visible(b), Visible(b'));
  }

  lemma AbsorbedCharShows(ctrl: Control, c: char)
    requires IsBare(ctrl) && IsSafe(c) && Absorbs(ctrl.core.mode, c)
    ensures var o := Parse(ctrl.core, c);
            |o.marks| == 1 && o.added == [] && !o.core.mode.Broken? && o.marks[0] != Literal(c) && o.marks[0] != End
            && o.marks[0] != Literal('\\')
  {
  }

  lemma VisibleFirst(marks: seq<Mark>)
    requires marks != [] && marks[0] != Literal('\\')
    ensures Visible(marks) != [] && Visible(marks)[0] == marks[0]
  {
  }

  lemma EntryMarks(mode: Mode, c: char)
    requires IsBareMode(mode) && Absorbs(mode, c)
    ensures Entry(mode).0 == [] || Entry(mode).0 == [End]
  {
  }

  lemma AbsorbedCharDiverges(ctrl: Control, c: char, rest: string)
    requires IsBare(ctrl) && IsSafe(c) && Absorbs(ctrl.core.mode, c)
    ensures Diverged(CharStep(ctrl, c).marks, LiteralStep(ctrl, [c] + rest).marks)
  {
    assert c != '\\' && c != '`';
    hide Parse, CharStep, LiteralStep, Entry, Absorbs, IsBareMode, IsSafe, Visible, Idle, IsWordMode;
    AbsorbedCharShows(ctrl, c);
    PlainStep(ctrl, c);
    LiteralEnters(ctrl, [c] + rest);
    EntryMarks(ctrl.core.mode, c);
    var marks := Entry(ctrl.core.mode).0;
    assert Literals([c] + rest)[0] == Literal(c);
    var meant := marks + Literals([c] + rest);
    assert meant[0] == if marks == [] then Literal(c) else End;
    VisibleFirst(CharStep(ctrl, c).marks);
    VisibleFirst(meant);
  }

  /** The text put in for an absorbed value diverges from the opaque value. */
  lemma AbsorbedDiverges(ctrl: Control, value: string)
    requires IsBare(ctrl) && IsAbsorbed(ctrl, value)
    ensures Diverged(Run(ctrl, Chars(Quote(value))).marks, LiteralStep(ctrl, value).marks)
  {
    QuoteCases(value);
    assert !ctrl.core.mode.Broken?;
    hide CharStep, LiteralStep, Run, Diverged, Quote, IsSafe, Absorbs, IsBareMode;
    RunCons(ctrl, value);
    assert value == [value[0]] + value[1..];
    AbsorbedCharDiverges(ctrl, value[0], value[1..]);
    var meant := LiteralStep(ctrl, value).marks;
    var first, rest := CharStep(ctrl, value[0]).marks, Run(CharStep(ctrl, value[0]).after, Chars(value[1..])).marks;
    DivergenceStays([], [], first, rest, meant, []);
    assert [] + (meant + []) == meant && [] + (first + rest) == first + rest;
  }

  /** One that is not kept breaks the command, or loses backslashes and nothing else. */
  lemma UnkeptLosesSlashes(ctrl: Control, value: string)
    requires IsBare(ctrl) && !Kept(ctrl.decoders, value)
    ensures var e, meant := Run(ctrl, Chars(Quote(value))), LiteralStep(ctrl, value);
            || e.after == BROKEN
            || (e.after == meant.after && |e.marks| < |meant.marks| && Visible(e.marks) == Visible(meant.marks))
  {
    QuoteCases(value);
    if AllSafe(value) {
      SafeTextIsKept(ctrl.decoders, value);
    }
    hide Run, LiteralStep, Quote, EscapeQuotes, Unescaped, Kept, AllSafe;
    QuotedTextRuns(ctrl, value);
    UnescapedIff(ctrl.decoders, value);
    var u := Unescaped(ctrl.decoders, value);
    if u.Some? {
      LiteralEnters(ctrl, value);
      LiteralEnters(ctrl, u.value);
      hide IsBareMode, Visible, Idle;
      var marks := Entry(ctrl.core.mode).0;
      VisibleAppend(marks, Literals(value));
      VisibleAppend(marks, Literals(u.value));
    }
  }
}
