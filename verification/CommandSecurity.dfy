/**
 app/core/command_security.py: the staged command check and the line-buffering guard
 of the interactive terminal, against a model of the remote line editor.
 */
module CommandSecurity {
  import opened PyText

  /** A compiled regular expression (an arbitrary predicate) with its description. */
  datatype Pattern = Pattern(matches: string -> bool, desc: string)

  datatype Rules = Rules(injection: seq<Pattern>, blocked: seq<Pattern>, dangerous: seq<Pattern>)

  datatype Level = Empty | Blocked | Dangerous | Safe {
    function Text(): string {
      match this
      case Empty => "empty"
      case Blocked => "blocked"
      case Dangerous => "dangerous"
      case Safe => "safe"
    }
  }

  const LINE_TOO_LONG := "line too long"

  function InjectionReason(desc: string): (r: string)
    ensures r != "" && r[0] == 'b'
  {
    "blocked injection: " + desc
  }

  function BlockedReason(desc: string): (r: string)
    ensures r != "" && r[0] == 'b'
  {
    "blocked: " + desc
  }

  function DangerousReason(desc: string): (r: string)
    ensures r != "" && r[0] == 'd'
  {
    "dangerous: " + desc
  }

  const EMPTY_REASON := "command is empty"

  datatype Verdict = Verdict(allowed: bool, reason: Option<string>, level: Level)

  predicate AnyMatch(patterns: seq<Pattern>, command: string) {
    exists i :: 0 <= i < |patterns| && patterns[i].matches(command)
  }

  /** The description of the first pattern that matches. */
  function FirstMatch(patterns: seq<Pattern>, command: string): (r: Option<string>)
    ensures r.Some? <==> AnyMatch(patterns, command)
    ensures r.Some? ==> exists i :: 0 <= i < |patterns| && patterns[i].matches(command)
                                    && patterns[i].desc == r.value
                                    && forall j :: 0 <= j < i ==> !patterns[j].matches(command)
  {
    if patterns == [] then None
    else if patterns[0].matches(command) then Some(patterns[0].desc)
    else
      var r := FirstMatch(patterns[1..], command);
      assert r.Some? ==> exists i :: 0 <= i < |patterns[1..]| && patterns[1..][i].matches(command)
                                     && patterns[1..][i].desc == r.value
                                     && forall j :: 0 <= j < i ==> !patterns[1..][j].matches(command);
      assert forall i :: 0 <= i < |patterns[1..]| ==> patterns[1..][i] == patterns[i + 1];
      r
  }

  /** Injection patterns first, then blocked ones, then dangerous ones. */
  function ValidateCommand(rules: Rules, command: string): (v: Verdict)
    ensures v.allowed <==> Strip(command) != "" && !AnyMatch(rules.injection, command)
                           && !AnyMatch(rules.blocked, command)
    ensures v.level.Dangerous? <==> v.allowed && AnyMatch(rules.dangerous, command)
    ensures v.level.Safe? <==> v.reason.None?
    ensures v.reason.None? ==> v.allowed
    ensures v.reason.Some? ==> v.reason.value != "" && v.reason.value != LINE_TOO_LONG
  {
    assert LINE_TOO_LONG[0] == 'l';
    if Strip(command) == "" then Verdict(false, Some(EMPTY_REASON), Empty)
    else
      match FirstMatch(rules.injection, command)
      case Some(desc) => Verdict(false, Some(InjectionReason(desc)), Blocked)
      case None =>
        match FirstMatch(rules.blocked, command)
        case Some(desc) => Verdict(false, Some(BlockedReason(desc)), Blocked)
        case None =>
          match FirstMatch(rules.dangerous, command)
          case Some(desc) => Verdict(true, Some(DangerousReason(desc)), Dangerous)
          case None => Verdict(true, None, Safe)
  }

  lemma AnyMatchAppend(a: seq<Pattern>, b: seq<Pattern>, command: string)
    ensures AnyMatch(a + b, command) <==> AnyMatch(a, command) || AnyMatch(b, command)
  {
    assert forall i :: 0 <= i < |a| ==> a[i] == (a + b)[i];
    assert forall i :: 0 <= i < |b| ==> b[i] == (a + b)[|a| + i];
  }

  lemma {:induction false} FirstMatchAppend(a: seq<Pattern>, b: seq<Pattern>, command: string)
    ensures var first := FirstMatch(a, command);
            FirstMatch(a + b, command) == if first.Some? then first else FirstMatch(b, command)
    decreases a
  {
    if a == [] {
      assert a + b == b;
    } else {
      assert (a + b)[1..] == a[1..] + b;
      FirstMatchAppend(a[1..], b, command);
    }
  }

  /** The patterns with the reasons they give for their descriptions. */
  function Labelled(patterns: seq<Pattern>, reason: string -> string): seq<Pattern> {
    seq(|patterns|, i requires 0 <= i < |patterns| => patterns[i].(desc := reason(patterns[i].desc)))
  }

  lemma {:induction false} FirstMatchLabelled(patterns: seq<Pattern>, reason: string -> string, command: string)
    ensures var r := FirstMatch(patterns, command);
            FirstMatch(Labelled(patterns, reason), command) == if r.Some? then Some(reason(r.value)) else None
    decreases patterns
  {
    if patterns != [] {
      assert Labelled(patterns, reason)[1..] == Labelled(patterns[1..], reason);
      FirstMatchLabelled(patterns[1..], reason, command);
    }
  }

  /** All stages as one table. */
  function Stages(rules: Rules): seq<Pattern> {
    Labelled(rules.injection, InjectionReason) + Labelled(rules.blocked, BlockedReason)
    + Labelled(rules.dangerous, DangerousReason)
  }

  /** The reason is that of the first hit in all stages taken as one table, and the level follows from the verdict. */
  lemma VerdictIsFirstHit(rules: Rules, command: string)
    ensures var v := ValidateCommand(rules, command);
            && (v.level.Empty? <==> Strip(command) == "")
            && (v.level.Blocked? <==> Strip(command) != "" && !v.allowed)
            && (Strip(command) != "" ==> v.reason == FirstMatch(Stages(rules), command))
  {
    hide AnyMatch, Strip, Labelled, InjectionReason, BlockedReason, DangerousReason, FirstMatch;
    var a, b := Labelled(rules.injection, InjectionReason), Labelled(rules.blocked, BlockedReason);
    var c := Labelled(rules.dangerous, DangerousReason);
    FirstMatchAppend(a + b, c, command);
    FirstMatchAppend(a, b, command);
    FirstMatchLabelled(rules.injection, InjectionReason, command);
    FirstMatchLabelled(rules.blocked, BlockedReason, command);
    FirstMatchLabelled(rules.dangerous, DangerousReason, command);
  }

  /** The reason of a verdict in words: the stage, and the description of its first pattern that matches. */
  lemma ReasonIs(rules: Rules, command: string)
    ensures var reason := ValidateCommand(rules, command).reason;
      var i, b := FirstMatch(rules.injection, command), FirstMatch(rules.blocked, command);
      var d := FirstMatch(rules.dangerous, command);
      if Strip(command) == "" then reason == Some("command is empty")
      else if i.Some? then reason == Some("blocked injection: " + i.value)
      else if b.Some? then reason == Some("blocked: " + b.value)
      else if d.Some? then reason == Some("dangerous: " + d.value)
      else reason == None
  {
    hide FirstMatch, Strip;
  }

  /** The first match is the description at the least index whose pattern matches. */
  lemma {:induction false} FirstMatchIsLeast(patterns: seq<Pattern>, command: string, i: nat)
    requires i < |patterns| && patterns[i].matches(command)
    requires forall j :: 0 <= j < i ==> !patterns[j].matches(command)
    ensures FirstMatch(patterns, command) == Some(patterns[i].desc)
    decreases patterns
  {
    if i > 0 {
      assert forall j :: 0 <= j < i - 1 ==> patterns[1..][j] == patterns[j + 1];
      FirstMatchIsLeast(patterns[1..], command, i - 1);
    }
  }

  /** A command counts as dangerous exactly when a stage after the emptiness check hits. */
  function IsDangerousCommand(rules: Rules, command: string): (b: bool)
    ensures b <==> Strip(command) != ""
                   && AnyMatch(rules.injection + rules.blocked + rules.dangerous, command)
  {
    hide AnyMatch, Strip;
    AnyMatchAppend(rules.injection, rules.blocked, command);
    AnyMatchAppend(rules.injection + rules.blocked, rules.dangerous, command);
    var level := ValidateCommand(rules, command).level;
    level.Dangerous? || level.Blocked?
  }

  // ---------------------------------------------------------------- the guard

  const BANNER := "[OPS] blocked terminal command"

  datatype Config = Config(rules: Rules, blockDangerous: bool, maxLineLength: int)

  datatype Event = Event(command: string, reason: string, level: Level)

  datatype Outcome = Outcome(line: string, out: string, events: seq<Event>)

  predicate IsErase(c: char) { c == '\U{7f}' || c == '\U{8}' }

  predicate IsCancel(c: char) { c == '\U{3}' || c == '\U{15}' }

  predicate IsEnter(c: char) { c == '\r' || c == '\n' }

  /** Characters that become part of the line: tab and everything from space on, except DEL. */
  predicate IsText(c: char) { !IsErase(c) && (c == '\t' || c >= ' ') }

  function DropLast(s: string): string { if s == "" then "" else s[..|s| - 1] }

  predicate ShouldBlock(cfg: Config, command: string) {
    var v := ValidateCommand(cfg.rules, command);
    !v.allowed || (v.level.Dangerous? && cfg.blockDangerous)
  }

  function BlockEvent(cfg: Config, command: string): Event {
    var v := ValidateCommand(cfg.rules, command);
    Event(command, if v.reason.Some? && v.reason.value != "" then v.reason.value else v.level.Text(), v.level)
  }

  function LongLineEvent(line: string): Event {
    Event(if |line| <= 120 then line else line[..120], LINE_TOO_LONG, Blocked)
  }

  /** The line the operator sees for an event; an overlong line is announced without a level. */
  function WarningLine(e: Event): string {
    if e.reason == LINE_TOO_LONG then BANNER + ": " + LINE_TOO_LONG
    else BANNER + " (" + e.level.Text() + "): " + e.reason
  }

  /** Ctrl+U, then the warning on a line of its own. */
  function Warning(e: Event): string { "\U{15}\r\n" + WarningLine(e) + "\r\n" }

  /** What `feed` does with one character. */
  function Step(cfg: Config, line: string, c: char): Outcome {
    if IsErase(c) then Outcome(DropLast(line), [c], [])
    else if IsCancel(c) then Outcome("", [c], [])
    else if IsEnter(c) then
      var command := Strip(line);
      if command != "" && ShouldBlock(cfg, command) then
        var e := BlockEvent(cfg, command);
        Outcome("", Warning(e), [e])
      else Outcome("", [c], [])
    else if IsText(c) then
      if |line| < cfg.maxLineLength then Outcome(line + [c], [c], [])
      else Outcome("", Warning(LongLineEvent(line)), [LongLineEvent(line)])
    else Outcome(line, [c], [])
  }

  function Prepend(out: string, events: seq<Event>, o: Outcome): Outcome {
    Outcome(o.line, out + o.out, events + o.events)
  }

  function Feed(cfg: Config, line: string, text: string): Outcome
    decreases text
  {
    if text == "" then Outcome(line, "", [])
    else
      var first := Step(cfg, line, text[0]);
      Prepend(first.out, first.events, Feed(cfg, first.line, text[1..]))
  }

  lemma FeedNothing(cfg: Config, line: string, text: string)
    requires text == ""
    ensures Feed(cfg, line, text) == Outcome(line, "", [])
  {
  }

  lemma FeedUnfolds(cfg: Config, line: string, text: string, i: nat)
    requires i < |text|
    ensures var first := Step(cfg, line, text[i]);
      Feed(cfg, line, text[i..]) == Prepend(first.out, first.events, Feed(cfg, first.line, text[i + 1..]))
  {
    hide Step;
    assert text[i..][0] == text[i] && text[i..][1..] == text[i + 1..];
  }

  lemma PrependTwice(a: string, d: seq<Event>, b: string, e: seq<Event>, o: Outcome)
    ensures Prepend(a, d, Prepend(b, e, o)) == Prepend(a + b, d + e, o)
  {
    assert a + (b + o.out) == a + b + o.out && d + (e + o.events) == d + e + o.events;
  }

  class TerminalInputGuard {
    const cfg: Config
    var line: string

    constructor (cfg: Config)
      ensures this.cfg == cfg && line == ""
    {
      this.cfg := cfg;
      line := "";
    }

    method Reset()
      modifies this
      ensures line == ""
    {
      line := "";
    }

    /** One pass of the loop of `feed`. */
    method FeedChar(ch: char) returns (out: string, events: seq<Event>)
      modifies this
      ensures Outcome(line, out, events) == Step(cfg, old(line), ch)
    {
      hide LINE_TOO_LONG, BANNER, ValidateCommand, Strip;
      out, events := [ch], [];
      if ch == '\U{7f}' || ch == '\U{8}' {
        line := if line == "" then "" else line[..|line| - 1];
      } else if ch == '\U{3}' || ch == '\U{15}' {
        line := "";
      } else if ch == '\U{1b}' {
      } else if ch == '\r' || ch == '\n' {
        var command := Strip(line);
        if command != "" {
          var v := ValidateCommand(cfg.rules, command);
          if !v.allowed || (v.level.Dangerous? && cfg.blockDangerous) {
            var reason := if v.reason.Some? && v.reason.value != "" then v.reason.value else v.level.Text();
            events := [Event(command, reason, v.level)];
            out := "\U{15}\r\n" + (BANNER + " (" + v.level.Text() + "): " + reason) + "\r\n";
          }
        }
        line := "";
      } else if ch == '\t' || ch >= ' ' {
        if |line| < cfg.maxLineLength {
          line := line + [ch];
        } else {
          events := [Event(if |line| <= 120 then line else line[..120], LINE_TOO_LONG, Blocked)];
          out := "\U{15}\r\n" + (BANNER + ": " + LINE_TOO_LONG) + "\r\n";
          line := "";
        }
      }
    }

    method FeedText(text: string) returns (out: string, events: seq<Event>)
      modifies this
      ensures Outcome(line, out, events) == Feed(cfg, old(line), text)
    {
      hide Step, Feed;
      out, events := "", [];
      assert text[0..] == text;
      for i := 0 to |text|
        invariant Feed(cfg, old(line), text) == Prepend(out, events, Feed(cfg, line, text[i..]))
      {
        FeedUnfolds(cfg, line, text, i);
        var o, e := FeedChar(text[i]);
        PrependTwice(out, events, o, e, Feed(cfg, line, text[i + 1..]));
        out, events := out + o, events + e;
      }
      FeedNothing(cfg, line, text[|text|..]);
    }
  }

  // ------------------------------------------------- stream algebra and limits

  function LineLimit(cfg: Config): nat { if cfg.maxLineLength < 0 then 0 else cfg.maxLineLength }

  lemma {:induction false} FeedKeepsLimit(cfg: Config, line: string, text: string)
    requires |line| <= LineLimit(cfg)
    ensures |Feed(cfg, line, text).line| <= LineLimit(cfg)
    decreases text
  {
    hide ShouldBlock, BlockEvent, Warning, LongLineEvent, Strip;
    if text != "" {
      FeedKeepsLimit(cfg, Step(cfg, line, text[0]).line, text[1..]);
    }
  }

  /** Feeding two chunks is feeding their concatenation. */
  lemma {:induction false} FeedAppend(cfg: Config, line: string, s: string, t: string)
    ensures var a := Feed(cfg, line, s);
      Feed(cfg, line, s + t) == Prepend(a.out, a.events, Feed(cfg, a.line, t))
    decreases s
  {
    hide Step;
    if s == "" {
      assert s + t == t;
    } else {
      var first := Step(cfg, line, s[0]);
      assert (s + t)[0] == s[0] && (s + t)[1..] == s[1..] + t;
      FeedAppend(cfg, first.line, s[1..], t);
      var a := Feed(cfg, first.line, s[1..]);
      PrependTwice(first.out, first.events, a.out, a.events, Feed(cfg, a.line, t));
    }
  }

  /** One terminal session: every message is fed to the same guard. */
  function FeedAll(cfg: Config, line: string, chunks: seq<string>): Outcome
    decreases chunks
  {
    if chunks == [] then Outcome(line, "", [])
    else
      var first := Feed(cfg, line, chunks[0]);
      Prepend(first.out, first.events, FeedAll(cfg, first.line, chunks[1..]))
  }

  function Concat(chunks: seq<string>): string {
    if chunks == [] then "" else chunks[0] + Concat(chunks[1..])
  }

  lemma {:induction false} ChunkingIsIrrelevant(cfg: Config, line: string, chunks: seq<string>)
    ensures FeedAll(cfg, line, chunks) == Feed(cfg, line, Concat(chunks))
    decreases chunks
  {
    hide Step;
    if chunks != [] {
      ChunkingIsIrrelevant(cfg, Feed(cfg, line, chunks[0]).line, chunks[1..]);
      FeedAppend(cfg, line, chunks[0], Concat(chunks[1..]));
    }
  }

  /** `out` is `text` with exactly one character per event replaced by that event's warning. */
  predicate OneCharPerEvent(text: string, out: string, events: seq<Event>) {
    if text == "" then out == "" && events == []
    else
      || (out != "" && out[0] == text[0] && OneCharPerEvent(text[1..], out[1..], events))
      || (events != [] && StartsWith(out, Warning(events[0]))
          && OneCharPerEvent(text[1..], out[|Warning(events[0])|..], events[1..]))
  }

  /** A step forwards its character, or reports one event and puts that event's warning in its place. */
  lemma StepForwardsOrWarns(cfg: Config, line: string, c: char)
    ensures var o := Step(cfg, line, c);
            (o.events == [] && o.out == [c]) || (|o.events| == 1 && o.out == Warning(o.events[0]))
  {
    hide ShouldBlock, BlockEvent, LongLineEvent, Strip, Warning;
  }

  lemma {:induction false} OutputIsInputUpToWarnings(cfg: Config, line: string, text: string)
    ensures var r := Feed(cfg, line, text); OneCharPerEvent(text, r.out, r.events)
    decreases text
  {
    hide Step, Warning;
    if text != "" {
      var first := Step(cfg, line, text[0]);
      StepForwardsOrWarns(cfg, line, text[0]);
      var rest := Feed(cfg, first.line, text[1..]);
      OutputIsInputUpToWarnings(cfg, first.line, text[1..]);
      var out := first.out + rest.out;
      if first.events == [] {
        assert first.out == [text[0]];
        assert out[0] == text[0] && out[1..] == rest.out && first.events + rest.events == rest.events;
      } else {
        var e := first.events[0];
        assert first.events == [e] && first.out == Warning(e);
        assert out[..|Warning(e)|] == Warning(e) && out[|Warning(e)|..] == rest.out;
        assert (first.events + rest.events)[1..] == rest.events;
      }
    }
  }

  lemma {:induction false} WarningsLengthen(text: string, out: string, events: seq<Event>)
    requires OneCharPerEvent(text, out, events)
    ensures |out| >= |text| + |events|
    ensures events == [] ==> out == text
    decreases |text|
  {
    hide WarningLine;
    if text != "" {
      if out != "" && out[0] == text[0] && OneCharPerEvent(text[1..], out[1..], events) {
        WarningsLengthen(text[1..], out[1..], events);
      } else {
        WarningsLengthen(text[1..], out[|Warning(events[0])|..], events[1..]);
      }
    }
  }

  /** The stream is forwarded unchanged exactly when nothing was reported. */
  lemma UnchangedIffNoEvents(cfg: Config, line: string, text: string)
    ensures var r := Feed(cfg, line, text); r.out == text <==> r.events == []
  {
    hide Feed, OneCharPerEvent;
    var r := Feed(cfg, line, text);
    OutputIsInputUpToWarnings(cfg, line, text);
    WarningsLengthen(text, r.out, r.events);
  }

  // ------------------------------------------------------- key by key

  predicate NoneMatches(patterns: seq<Pattern>, command: string) {
    forall i :: 0 <= i < |patterns| ==> !patterns[i].matches(command)
  }

  /** It may be run: it matches no injection and no blocked pattern, nor a dangerous one if those are blocked. */
  predicate MayRun(cfg: Config, command: string) {
    && NoneMatches(cfg.rules.injection, command) && NoneMatches(cfg.rules.blocked, command)
    && (cfg.blockDangerous ==> NoneMatches(cfg.rules.dangerous, command))
  }

  lemma NoneMatchesIff(patterns: seq<Pattern>, command: string)
    ensures NoneMatches(patterns, command) <==> !AnyMatch(patterns, command)
  {
  }

  lemma BlockedIff(cfg: Config, command: string)
    requires Strip(command) == command != ""
    ensures ShouldBlock(cfg, command) <==> !MayRun(cfg, command)
  {
    hide Strip, AnyMatch, NoneMatches;
    NoneMatchesIff(cfg.rules.injection, command);
    NoneMatchesIff(cfg.rules.blocked, command);
    NoneMatchesIff(cfg.rules.dangerous, command);
  }

  /** Enter clears the line; it reports and warns exactly when the line is not blank and may not be run. */
  lemma EnterReportsIff(cfg: Config, line: string, c: char)
    requires c == '\r' || c == '\n'
    ensures var o := Step(cfg, line, c);
            && o.line == "" && (o.events != [] <==> Strip(line) != "" && !MayRun(cfg, Strip(line)))
            && (o.events == [] ==> o.out == [c])
  {
    StripTwice(line);
    hide Strip, ShouldBlock, MayRun, BlockEvent, Warning;
    if Strip(line) != "" {
      BlockedIff(cfg, Strip(line));
    }
  }

  lemma EnterSteps(cfg: Config, line: string, c: char)
    requires (c == '\r' || c == '\n') && Step(cfg, line, c).events != []
    ensures var command := Strip(line);
            command != "" && ShouldBlock(cfg, command)
            && Step(cfg, line, c) == Outcome("", Warning(BlockEvent(cfg, command)), [BlockEvent(cfg, command)])
  {
    hide Strip, BlockEvent, Warning, ShouldBlock, LongLineEvent;
  }

  lemma EventTells(cfg: Config, command: string)
    requires Strip(command) == command != "" && ShouldBlock(cfg, command)
    ensures var e := BlockEvent(cfg, command);
            && e.command == command && Some(e.reason) == FirstMatch(Stages(cfg.rules), command)
            && e.level ==
               if NoneMatches(cfg.rules.injection, command) && NoneMatches(cfg.rules.blocked, command)
               then Dangerous else Blocked
  {
    hide Strip, AnyMatch, NoneMatches, FirstMatch, Stages, ValidateCommand, Labelled;
    VerdictIsFirstHit(cfg.rules, command);
    NoneMatchesIff(cfg.rules.injection, command);
    NoneMatchesIff(cfg.rules.blocked, command);
  }

  /** What Enter reports: the stripped line, its verdict's level, and the reason of the first pattern hit. */
  lemma EnterReports(cfg: Config, line: string, c: char)
    requires (c == '\r' || c == '\n') && Step(cfg, line, c).events != []
    ensures var o := Step(cfg, line, c);
            && |o.events| == 1 && o.events[0].command == Strip(line) && o.out == Warning(o.events[0])
            && Some(o.events[0].reason) == FirstMatch(Stages(cfg.rules), Strip(line))
            && o.events[0].level ==
               if NoneMatches(cfg.rules.injection, Strip(line)) && NoneMatches(cfg.rules.blocked, Strip(line))
               then Dangerous else Blocked
  {
    hide Strip, NoneMatches, FirstMatch, Stages, BlockEvent, Warning, ShouldBlock, LongLineEvent, MayRun;
    EnterSteps(cfg, line, c);
    StripTwice(line);
    EventTells(cfg, Strip(line));
  }

  /** The fixed words of warnings and events. */
  lemma WordsAre()
    ensures BANNER == "[OPS] blocked terminal command" && LINE_TOO_LONG == "line too long"
    ensures Blocked.Text() == "blocked" && Dangerous.Text() == "dangerous"
  {
  }

  /** A warning as it goes to the terminal: Ctrl+U, and a line of its own. */
  lemma WarningReads(e: Event)
    requires e.reason != LINE_TOO_LONG && (e.level == Blocked || e.level == Dangerous)
    ensures var level := if e.level == Blocked then "blocked" else "dangerous";
            Warning(e) == "\U{15}\r\n" + (BANNER + " (" + level + "): " + e.reason) + "\r\n"
  {
    hide BANNER, LINE_TOO_LONG;
  }

  lemma LongLineReads(line: string)
    ensures LongLineEvent(line) == Event(if |line| <= 120 then line else line[..120], LINE_TOO_LONG, Blocked)
    ensures Warning(LongLineEvent(line)) == "\U{15}\r\n" + (BANNER + ": " + LINE_TOO_LONG) + "\r\n"
  {
    hide BANNER, LINE_TOO_LONG;
  }

  /**
   Every other key: DEL and backspace erase, Ctrl+C and Ctrl+U clear, tab and printable keys are typed up to the limit,
   and no other matters.
   */
  lemma OtherKeys(cfg: Config, line: string, c: char)
    requires c != '\r' && c != '\n'
    ensures Step(cfg, line, c) ==
      if c == '\U{7f}' || c == '\U{8}' then Outcome(if line == "" then "" else line[..|line| - 1], [c], [])
      else if c == '\U{3}' || c == '\U{15}' then Outcome("", [c], [])
      else if c != '\t' && c < ' ' then Outcome(line, [c], [])
      else if |line| < cfg.maxLineLength then Outcome(line + [c], [c], [])
      else
        Outcome("", "\U{15}\r\n" + (BANNER + ": " + LINE_TOO_LONG) + "\r\n",
                [Event(if |line| <= 120 then line else line[..120], LINE_TOO_LONG, Blocked)])
  {
    LongLineReads(line);
    hide Warning, LongLineEvent, Strip, BANNER, LINE_TOO_LONG;
  }

  // ------------------------------------------------------- the remote line editor

  /** The remote pty: the line being edited and the lines executed so far. */
  datatype Remote = Remote(line: string, log: seq<string>)

  function Press(r: Remote, c: char): Remote {
    if IsErase(c) then r.(line := DropLast(r.line))
    else if IsCancel(c) then r.(line := "")
    else if IsEnter(c) then Remote("", r.log + [r.line])
    else if IsText(c) then r.(line := r.line + [c])
    else r
  }

  function Replay(r: Remote, keys: string): Remote
    decreases keys
  {
    if keys == "" then r else Replay(Press(r, keys[0]), keys[1..])
  }

  lemma {:induction false} ReplayAppend(r: Remote, s: string, t: string)
    ensures Replay(r, s + t) == Replay(Replay(r, s), t)
    decreases s
  {
    if s == "" {
      assert s + t == t;
    } else {
      assert (s + t)[0] == s[0] && (s + t)[1..] == s[1..] + t;
      ReplayAppend(Press(r, s[0]), s[1..], t);
    }
  }

  /** The remote editor reads the same keys in the same way, and Enter runs the line. */
  lemma RemoteKeys(r: Remote, c: char)
    ensures Press(r, c) ==
      if c == '\U{7f}' || c == '\U{8}' then Remote(if r.line == "" then "" else r.line[..|r.line| - 1], r.log)
      else if c == '\U{3}' || c == '\U{15}' then Remote("", r.log)
      else if c == '\r' || c == '\n' then Remote("", r.log + [r.line])
      else if c == '\t' || c >= ' ' then Remote(r.line + [c], r.log)
      else r
  {
  }

  predicate Printable(s: string) { forall i :: 0 <= i < |s| ==> IsText(s[i]) }

  lemma {:induction false} TypeText(r: Remote, s: string)
    requires Printable(s)
    ensures Replay(r, s) == r.(line := r.line + s)
    decreases s
  {
    if s == "" {
      assert r.line + s == r.line;
    } else {
      TypeText(Press(r, s[0]), s[1..]);
      assert r.line + [s[0]] + s[1..] == r.line + s;
    }
  }

  predicate PlainDescriptions(patterns: seq<Pattern>) {
    forall i :: 0 <= i < |patterns| ==> Printable(patterns[i].desc)
  }

  /** The pattern tables' descriptions are plain text, as all of the source's are. */
  predicate WellFormed(rules: Rules) {
    PlainDescriptions(rules.injection) && PlainDescriptions(rules.blocked) && PlainDescriptions(rules.dangerous)
  }

  lemma FirstMatchIsPrintable(patterns: seq<Pattern>, command: string)
    requires PlainDescriptions(patterns)
    ensures FirstMatch(patterns, command).Some? ==> Printable(FirstMatch(patterns, command).value)
  {
    hide Printable;
  }

  lemma ReasonsArePrintable(desc: string)
    requires Printable(desc)
    ensures Printable(InjectionReason(desc)) && Printable(BlockedReason(desc)) && Printable(DangerousReason(desc))
  {
  }

  lemma VerdictIsPrintable(rules: Rules, command: string)
    requires WellFormed(rules)
    ensures var v := ValidateCommand(rules, command); v.reason.Some? ==> Printable(v.reason.value)
  {
    assert Printable(EMPTY_REASON);
    hide Strip, Printable, PlainDescriptions, FirstMatch, InjectionReason, BlockedReason, DangerousReason, EMPTY_REASON;
    FirstMatchIsPrintable(rules.injection, command);
    FirstMatchIsPrintable(rules.blocked, command);
    FirstMatchIsPrintable(rules.dangerous, command);
    forall desc | Printable(desc)
      ensures Printable(InjectionReason(desc)) && Printable(BlockedReason(desc)) && Printable(DangerousReason(desc))
    {
      ReasonsArePrintable(desc);
    }
  }

  lemma PrintableAppend(a: string, b: string)
    requires Printable(a) && Printable(b)
    ensures Printable(a + b)
  {
  }

  lemma BannerIsPrintable()
    ensures Printable(BANNER)
  {
  }

  lemma WarningLineIsPrintable(e: Event)
    requires Printable(e.reason)
    ensures Printable(WarningLine(e))
  {
    BannerIsPrintable();
    hide BANNER;
    PrintableAppend(BANNER, " (");
    PrintableAppend(BANNER + " (", e.level.Text());
    PrintableAppend(BANNER + " (" + e.level.Text(), "): ");
    PrintableAppend(BANNER + " (" + e.level.Text() + "): ", e.reason);
    PrintableAppend(BANNER, ": ");
    PrintableAppend(BANNER + ": ", LINE_TOO_LONG);
  }

  /** The remote executes a warning between empty lines and is left with an empty line. */
  lemma ReplayWarning(r: Remote, e: Event)
    requires Printable(e.reason)
    ensures Replay(r, Warning(e)) == Remote("", r.log + ["", "", WarningLine(e), ""])
  {
    hide WarningLine, IsText;
    WarningLineIsPrintable(e);
    var head, tail := "\U{15}\r\n", "\r\n";
    ReplayAppend(r, head + WarningLine(e), tail);
    ReplayAppend(r, head, WarningLine(e));
    var r1 := Press(Press(Press(r, '\U{15}'), '\r'), '\n');
    assert Replay(r, head) == r1 by {
      assert head[1..] == "\r\n" && head[1..][1..] == "\n" && head[1..][1..][1..] == "";
    }
    TypeText(r1, WarningLine(e));
    var r2 := Remote(WarningLine(e), r1.log);
    assert "" + WarningLine(e) == WarningLine(e);
    assert tail[1..] == "\n" && tail[1..][1..] == "";
    assert Replay(r2, tail) == Press(Press(r2, '\r'), '\n');
  }

  /** An executed line is harmless: blank, let through by the check, or one of the guard's own warnings. */
  predicate Harmless(cfg: Config, line: string, events: seq<Event>) {
    || Strip(line) == ""
    || !ShouldBlock(cfg, Strip(line))
    || exists e :: e in events && line == WarningLine(e)
  }

  /** The lines a step makes the remote execute. */
  function Executed(cfg: Config, line: string, c: char): seq<string> {
    if Step(cfg, line, c).events != [] then ["", "", WarningLine(Step(cfg, line, c).events[0]), ""]
    else if IsEnter(c) then [line]
    else []
  }

  lemma StepSimulates(cfg: Config, r: Remote, c: char)
    requires WellFormed(cfg.rules)
    ensures var step := Step(cfg, r.line, c);
      Replay(r, step.out) == Remote(step.line, r.log + Executed(cfg, r.line, c))
  {
    hide ValidateCommand, Strip, WarningLine, Warning;
    var step := Step(cfg, r.line, c);
    if step.events == [] {
      assert step.out == [c] && step.out[1..] == "";
      assert !IsEnter(c) ==> r.log + [] == r.log;
    } else {
      VerdictIsPrintable(cfg.rules, Strip(r.line));
      ReplayWarning(r, step.events[0]);
    }
  }

  lemma ExecutedIsHarmless(cfg: Config, line: string, c: char)
    ensures forall i :: 0 <= i < |Executed(cfg, line, c)| ==>
      Harmless(cfg, Executed(cfg, line, c)[i], Step(cfg, line, c).events)
  {
    hide ShouldBlock, BlockEvent, WarningLine, Warning, LongLineEvent, Strip;
    StripEmpty();
    var events := Step(cfg, line, c).events;
    if events != [] { assert events[0] in events; }
  }

  lemma HarmlessGrows(cfg: Config, line: string, a: seq<Event>, b: seq<Event>)
    requires Harmless(cfg, line, a) || Harmless(cfg, line, b)
    ensures Harmless(cfg, line, a + b)
  {
    hide Strip, ShouldBlock, WarningLine;
  }

  /**
   Simulation: when the remote starts with the guard's line, replaying what the guard forwards
   leaves it with the guard's line again, and everything it executed on the way is harmless.
   */
  lemma {:induction false} GuardSimulatesRemote(cfg: Config, r: Remote, text: string)
    requires WellFormed(cfg.rules)
    ensures var o := Feed(cfg, r.line, text);
      var r' := Replay(r, o.out);
      && r'.line == o.line
      && r.log <= r'.log
      && forall i :: |r.log| <= i < |r'.log| ==> Harmless(cfg, r'.log[i], o.events)
    decreases |text|
  {
    hide Step, Executed, Harmless;
    if text != "" {
      var step := Step(cfg, r.line, text[0]);
      var rest := Feed(cfg, step.line, text[1..]);
      var r1 := Replay(r, step.out);
      StepSimulates(cfg, r, text[0]);
      ExecutedIsHarmless(cfg, r.line, text[0]);
      ReplayAppend(r, step.out, rest.out);
      GuardSimulatesRemote(cfg, r1, text[1..]);
      var r2 := Replay(r1, rest.out);
      forall i | |r.log| <= i < |r2.log| ensures Harmless(cfg, r2.log[i], step.events + rest.events) {
        if i < |r1.log| {
          assert r2.log[i] == r1.log[i] == Executed(cfg, r.line, text[0])[i - |r.log|];
        }
        HarmlessGrows(cfg, r2.log[i], step.events, rest.events);
      }
    }
  }

  /** The same for a whole session, however the input was cut into messages. */
  lemma SessionIsSafe(cfg: Config, chunks: seq<string>)
    requires WellFormed(cfg.rules)
    ensures var o := FeedAll(cfg, "", chunks);
      var r := Replay(Remote("", []), o.out);
      && r.line == o.line && |o.line| <= LineLimit(cfg)
      && forall line :: line in r.log ==> Harmless(cfg, line, o.events)
  {
    hide Feed, FeedAll, Replay, Harmless;
    ChunkingIsIrrelevant(cfg, "", chunks);
    FeedKeepsLimit(cfg, "", Concat(chunks));
    GuardSimulatesRemote(cfg, Remote("", []), Concat(chunks));
  }

  /** A line of the log that is neither blank nor the warning of a reported event. */
  predicate IsOwnCommand(line: string, events: seq<Event>) {
    Strip(line) != "" && forall e :: e in events ==> line != WarningLine(e)
  }

  /** Over any session the remote runs no command that the tables do not let through. */
  lemma SessionRunsOnlyWhatMayRun(cfg: Config, chunks: seq<string>)
    requires WellFormed(cfg.rules)
    ensures var o := FeedAll(cfg, "", chunks);
      forall line ::
        line in Replay(Remote("", []), o.out).log && IsOwnCommand(line, o.events) ==> MayRun(cfg, Strip(line))
  {
    hide FeedAll, Replay, ShouldBlock, MayRun, WarningLine, Strip, WellFormed;
    SessionIsSafe(cfg, chunks);
    var o := FeedAll(cfg, "", chunks);
    forall line | line in Replay(Remote("", []), o.out).log && IsOwnCommand(line, o.events)
      ensures MayRun(cfg, Strip(line))
    {
      assert Harmless(cfg, line, o.events);
      StripTwice(line);
      BlockedIff(cfg, Strip(line));
    }
  }

  // ------------------------------------------------------------- transparency

  function Select(log: seq<string>, keep: string -> bool): seq<string> {
    if log == [] then []
    else if keep(log[0]) then [log[0]] + Select(log[1..], keep)
    else Select(log[1..], keep)
  }

  lemma {:induction false} SelectAppend(a: seq<string>, b: seq<string>, keep: string -> bool)
    ensures Select(a + b, keep) == Select(a, keep) + Select(b, keep)
    decreases a
  {
    if a == [] {
      assert a + b == b;
    } else {
      assert (a + b)[1..] == a[1..] + b;
      SelectAppend(a[1..], b, keep);
    }
  }

  lemma SelectOne(line: string, keep: string -> bool)
    ensures Select([line], keep) == if keep(line) then [line] else []
  {
    assert [line][1..] == [];
  }

  predicate IsCommand(line: string) { Strip(line) != "" && !StartsWith(line, BANNER) }

  /** The lines of a log that are commands: neither blank nor a warning. */
  function Commands(log: seq<string>): seq<string> { Select(log, IsCommand) }

  function Passes(cfg: Config): string -> bool { line => !ShouldBlock(cfg, Strip(line)) }

  /** What is permitted is what may be run. */
  lemma PermittedMayRun(cfg: Config, line: string)
    requires Strip(line) != ""
    ensures Passes(cfg)(line) <==> MayRun(cfg, Strip(line))
  {
    StripTwice(line);
    hide Strip, ShouldBlock, MayRun;
    BlockedIff(cfg, Strip(line));
  }

  /** The lines of a log that pass the check. */
  function Permitted(cfg: Config, log: seq<string>): seq<string> { Select(log, Passes(cfg)) }

  /** Typed without a guard, the line never exceeds the guard's limit. */
  predicate Fits(cfg: Config, line: string, text: string)
    decreases text
  {
    text == "" ||
    var next := Press(Remote(line, []), text[0]).line;
    |next| <= LineLimit(cfg) && Fits(cfg, next, text[1..])
  }

  /** Ctrl+U. */
  const KILL := '\U{15}'

  /** What the guard leaves of a key: one that would take the line past the limit clears it instead. */
  function Kept(cfg: Config, line: string, c: char): char {
    if IsText(c) && |line| >= cfg.maxLineLength then KILL else c
  }

  /** The keys with Ctrl+U in place of each that would take the line past the limit. */
  function Shortened(cfg: Config, line: string, text: string): string
    decreases text
  {
    if text == "" then ""
    else
      var key := Kept(cfg, line, text[0]);
      [key] + Shortened(cfg, Press(Remote(line, []), key).line, text[1..])
  }

  /** Input is shortened exactly when, typed without a guard, its line passes the limit. */
  lemma {:induction false} ShortenedIff(cfg: Config, line: string, text: string)
    requires |line| <= LineLimit(cfg)
    ensures Shortened(cfg, line, text) == text <==> Fits(cfg, line, text)
    decreases text
  {
    if text != "" {
      var key := Kept(cfg, line, text[0]);
      var next := Press(Remote(line, []), text[0]).line;
      assert |next| <= LineLimit(cfg) <==> key == text[0];
      var rest := Shortened(cfg, Press(Remote(line, []), key).line, text[1..]);
      assert Shortened(cfg, line, text)[0] == key && Shortened(cfg, line, text)[1..] == rest;
      assert text == [text[0]] + text[1..];
      if key == text[0] {
        ShortenedIff(cfg, next, text[1..]);
      }
    }
  }

  lemma GuardTracksRemote(cfg: Config, r: Remote, c: char)
    ensures var key := Kept(cfg, r.line, c);
            && Step(cfg, r.line, c).line == Press(r, key).line == Press(Remote(r.line, []), key).line
            && (IsEnter(c) <==> IsEnter(key)) && (key != c ==> Step(cfg, r.line, c).events == [LongLineEvent(r.line)])
    ensures !IsEnter(c) && Kept(cfg, r.line, c) == c ==> Executed(cfg, r.line, c) == []
  {
    hide Strip, ShouldBlock, BlockEvent, Warning, LongLineEvent;
  }

  lemma {:induction false} SelectNone(log: seq<string>, keep: string -> bool)
    requires forall i :: 0 <= i < |log| ==> !keep(log[i])
    ensures Select(log, keep) == []
    decreases log
  {
    if log != [] {
      SelectNone(log[1..], keep);
    }
  }

  lemma WarningStartsWithBanner(e: Event)
    ensures StartsWith(WarningLine(e), BANNER)
  {
    hide BANNER;
  }

  lemma WarningIsNoCommand(e: Event)
    ensures Commands(["", "", WarningLine(e), ""]) == []
  {
    hide WarningLine, StartsWith, BANNER, Select, Strip;
    WarningStartsWithBanner(e);
    StripEmpty();
    assert !IsCommand(WarningLine(e)) && !IsCommand("");
    hide IsCommand;
    SelectNone(["", "", WarningLine(e), ""], IsCommand);
  }

  lemma EnterFilters(cfg: Config, line: string, c: char)
    requires IsEnter(c)
    ensures Commands(Executed(cfg, line, c)) == Permitted(cfg, Commands([line]))
  {
    hide ShouldBlock, BlockEvent, Strip, WarningLine, StartsWith, BANNER;
    SelectOne(line, IsCommand);
    SelectOne(line, Passes(cfg));
    var step := Step(cfg, line, c);
    if step.events != [] {
      WarningIsNoCommand(step.events[0]);
    } else {
      assert Executed(cfg, line, c) == [line];
    }
  }

  lemma {:induction false} ReplayLog(r: Remote, keys: string)
    ensures Replay(r, keys).line == Replay(Remote(r.line, []), keys).line
    ensures Replay(r, keys).log == r.log + Replay(Remote(r.line, []), keys).log
    decreases keys
  {
    hide IsErase, IsCancel, IsEnter, IsText;
    if keys != "" {
      var here, there := Press(r, keys[0]), Press(Remote(r.line, []), keys[0]);
      ReplayLog(here, keys[1..]);
      ReplayLog(there, keys[1..]);
      assert here.log == r.log + there.log;
    } else {
      assert r.log + [] == r.log;
    }
  }

  lemma OverflowRunsNoCommand(cfg: Config, line: string, c: char)
    requires Kept(cfg, line, c) != c
    ensures Commands(Executed(cfg, line, c)) == []
  {
    hide Strip, ShouldBlock, BlockEvent, WarningLine, LongLineEvent, Commands;
    WarningIsNoCommand(LongLineEvent(line));
  }

  lemma StepFilters(cfg: Config, line: string, c: char)
    requires WellFormed(cfg.rules)
    ensures var guarded := Replay(Remote(line, []), Step(cfg, line, c).out);
      var raw := Press(Remote(line, []), Kept(cfg, line, c));
      guarded.line == raw.line == Step(cfg, line, c).line && Commands(guarded.log) == Permitted(cfg, Commands(raw.log))
  {
    hide Step, Executed, Passes, IsCommand, Replay, WarningLine, LongLineEvent, Kept, WellFormed;
    StepSimulates(cfg, Remote(line, []), c);
    GuardTracksRemote(cfg, Remote(line, []), c);
    if Kept(cfg, line, c) != c {
      OverflowRunsNoCommand(cfg, line, c);
    }
    var executed := Executed(cfg, line, c);
    assert [] + executed == executed && [] + [line] == [line];
    if IsEnter(c) {
      EnterFilters(cfg, line, c);
    }
  }

  lemma {:induction false} FiltersFrom(cfg: Config, line: string, text: string)
    requires WellFormed(cfg.rules)
    ensures Commands(Replay(Remote(line, []), Feed(cfg, line, text).out).log)
         == Permitted(cfg, Commands(Replay(Remote(line, []), Shortened(cfg, line, text)).log))
    decreases text
  {
    hide Step, Passes, IsCommand, Kept;
    if text != "" {
      var step := Step(cfg, line, text[0]);
      var key := Kept(cfg, line, text[0]);
      var out := Feed(cfg, step.line, text[1..]).out;
      var guarded, raw := Replay(Remote(line, []), step.out), Press(Remote(line, []), key);
      StepFilters(cfg, line, text[0]);
      var typed := Shortened(cfg, raw.line, text[1..]);
      assert Shortened(cfg, line, text)[0] == key && Shortened(cfg, line, text)[1..] == typed;
      hide Press, Shortened;
      FiltersFrom(cfg, step.line, text[1..]);
      ReplayAppend(Remote(line, []), step.out, out);
      ReplayLog(guarded, out);
      ReplayLog(raw, typed);
      SelectAppend(guarded.log, Replay(Remote(step.line, []), out).log, IsCommand);
      SelectAppend(raw.log, Replay(Remote(step.line, []), typed).log, IsCommand);
      SelectAppend(Commands(raw.log), Commands(Replay(Remote(step.line, []), typed).log), Passes(cfg));
    }
  }

  /**
   The guard is exactly a filter behind a line limit: for any input, the commands the remote runs behind it are, in
   order, the permitted ones of those it would run if each key past the limit cleared the line instead.
   */
  lemma GuardIsAFilter(cfg: Config, text: string)
    requires WellFormed(cfg.rules)
    ensures Commands(Replay(Remote("", []), Feed(cfg, "", text).out).log)
         == Permitted(cfg, Commands(Replay(Remote("", []), Shortened(cfg, "", text)).log))
  {
    hide *;
    FiltersFrom(cfg, "", text);
  }

  /** Within the line limit it is just a filter. */
  lemma WithinTheLimitOnlyAFilter(cfg: Config, text: string)
    requires WellFormed(cfg.rules) && Fits(cfg, "", text)
    ensures Commands(Replay(Remote("", []), Feed(cfg, "", text).out).log)
         == Permitted(cfg, Commands(Replay(Remote("", []), text).log))
  {
    hide Feed, Replay, Shortened, Fits, Commands, Permitted, WellFormed;
    GuardIsAFilter(cfg, text);
    ShortenedIff(cfg, "", text);
  }

  lemma PrintableParts(a: string, c: char, b: string)
    requires Printable(a + [c] + b)
    ensures Printable(a) && IsText(c) && Printable(b)
  {
    hide IsText;
    var s := a + [c] + b;
    assert forall i :: 0 <= i < |a| ==> s[i] == a[i];
    assert s[|a|] == c;
    assert forall i :: 0 <= i < |b| ==> s[|a| + 1 + i] == b[i];
  }

  lemma LimitIsReached(cfg: Config, line: string, c: char, rest: string)
    requires cfg.maxLineLength == |line| && IsText(c)
    ensures Shortened(cfg, line, [c] + rest) == [KILL] + Shortened(cfg, "", rest)
  {
    assert ([c] + rest)[1..] == rest;
  }

  lemma EnterIsKept(cfg: Config, line: string)
    ensures Shortened(cfg, line, "\r") == "\r"
  {
    assert "\r"[1..] == "";
  }

  lemma LineIsKilled(line: string, rest: string)
    ensures Replay(Remote(line, []), [KILL] + rest) == Replay(Remote("", []), rest)
  {
    assert ([KILL] + rest)[1..] == rest;
  }

  lemma EnterRuns(line: string)
    ensures Replay(Remote(line, []), "\r").log == [line]
  {
    assert "\r"[1..] == "";
  }

  lemma {:induction false} ShortenedTyping(cfg: Config, line: string, more: string, rest: string)
    requires Printable(more) && |line| + |more| <= cfg.maxLineLength
    ensures Shortened(cfg, line, more + rest) == more + Shortened(cfg, line + more, rest)
    decreases more
  {
    if more == "" {
      assert more + rest == rest && line + more == line;
    } else {
      var text := more + rest;
      assert text[0] == more[0] && text[1..] == more[1..] + rest && IsText(more[0]);
      assert line + [more[0]] + more[1..] == line + more;
      assert Press(Remote(line, []), more[0]).line == line + [more[0]];
      ShortenedTyping(cfg, line + [more[0]], more[1..], rest);
    }
  }

  /** Past the limit, the tail of a typed line is run as a command of its own. */
  lemma TailIsRun(cfg: Config, line: string, c: char, tail: string)
    requires cfg.maxLineLength == |line| && Printable(line + [c] + tail) && |tail| <= |line|
    ensures Replay(Remote("", []), Shortened(cfg, "", line + [c] + tail + "\r")).log == [tail]
  {
    hide Shortened, Replay, Printable, IsText;
    var text := tail + "\r";
    PrintableParts(line, c, tail);
    assert line + [c] + tail + "\r" == line + ([c] + text);
    ShortenedTyping(cfg, "", line, [c] + text);
    assert "" + line == line && "" + tail == tail;
    LimitIsReached(cfg, line, c, text);
    ShortenedTyping(cfg, "", tail, "\r");
    EnterIsKept(cfg, tail);
    TypeText(Remote("", []), line);
    TypeText(Remote("", []), tail);
    ReplayAppend(Remote("", []), line, [KILL] + text);
    LineIsKilled(line, text);
    ReplayAppend(Remote("", []), tail, "\r");
    EnterRuns(tail);
  }
}
