/** config_manager.py: rendering `{{name}}` placeholders into workflow commands. */
module Templates {
  import opened PyText
  import opened ShellTokens

  /** A variable's value: a string, or anything else with the text `str()` shows for it. */
  datatype Value = Text(s: string) | Other(shown: string)

  datatype Piece = Plain(c: char) | Placeholder(name: string)

  /** The maximal run of word characters at the start; `word` is `\w`, which holds of no brace. */
  function WordRun(s: string, word: char -> bool): (n: nat)
    ensures n <= |s| && (forall i :: 0 <= i < n ==> word(s[i])) && (n < |s| ==> !word(s[n]))
  {
    if s == "" || !word(s[0]) then 0 else 1 + WordRun(s[1..], word)
  }

  /** The length of the name when `s` starts with `{{name}}`, otherwise zero. */
  function MatchName(s: string, word: char -> bool): (n: nat)
    ensures n > 0 ==> n + 4 <= |s| && s[..2] == "{{" && s[n + 2..n + 4] == "}}"
  {
    if !StartsWith(s, "{{") then 0
    else
      var n := WordRun(s[2..], word);
      if StartsWith(s[2 + n..], "}}") then n else 0
  }

  /** The leftmost matches of the pattern, left to right. */
  function Pieces(s: string, word: char -> bool): seq<Piece>
    decreases |s|
  {
    if s == "" then []
    else
      var n := MatchName(s, word);
      if n > 0 then [Placeholder(s[2..n + 2])] + Pieces(s[n + 4..], word)
      else [Plain(s[0])] + Pieces(s[1..], word)
  }

  function Width(piece: Piece): nat { if piece.Plain? then 1 else |piece.name| + 4 }

  /** A placeholder of that name among the pieces, starting at offset `k` of the text. */
  predicate PlaceholderAt(pieces: seq<Piece>, k: nat, name: string)
    decreases pieces
  {
    pieces != [] &&
    if k == 0 then pieces[0] == Placeholder(name)
    else k >= Width(pieces[0]) && PlaceholderAt(pieces[1..], k - Width(pieces[0]), name)
  }

  /** The text reads `{{name}}` at offset `k`. */
  predicate MatchAt(s: string, k: nat, name: string, word: char -> bool) {
    k < |s| && name != "" && MatchName(s[k..], word) == |name| && s[k + 2..k + 2 + |name|] == name
  }

  lemma NoBracesNoMatch(s: string, k: nat, i: nat, name: string, word: char -> bool)
    requires i < 2 && k + i < |s| && s[k + i] != '{'
    ensures !MatchAt(s, k, name, word)
  {
    assert s[k..][i] == s[k + i];
    assert !StartsWith(s[k..], "{{") by {
      if |s[k..]| >= 2 {
        assert s[k..][..2][i] == s[k + i];
      }
    }
  }

  /** No match starts inside another. */
  lemma MatchesDoNotOverlap(s: string, k: nat, name: string, word: char -> bool)
    requires !word('{') && !word('}') && 0 < k < MatchName(s, word) + 4 && MatchName(s, word) > 0
    ensures !MatchAt(s, k, name, word)
  {
    var n := MatchName(s, word);
    assert forall i :: 0 <= i < n ==> word(s[2..][i]);
    assert forall i :: 2 <= i < n + 2 ==> s[i] == s[2..][i - 2];
    assert s[n + 2] == s[n + 2..n + 4][0] == '}' && s[n + 3] == s[n + 2..n + 4][1] == '}';
    var j := if k == 1 then 2 else k;
    assert s[j] != '{' by {
      if j < n + 2 {
        assert word(s[2..][j - 2]);
      }
    }
    hide MatchName, WordRun;
    assert s[j] == s[k..][j - k];
    NoBracesNoMatch(s, k, j - k, name, word);
  }

  lemma MatchShifts(s: string, width: nat, k: nat, name: string, word: char -> bool)
    requires width <= k && width <= |s|
    ensures MatchAt(s, k, name, word) <==> MatchAt(s[width..], k - width, name, word)
  {
    hide MatchName;
    if k < |s| {
      assert s[k..] == s[width..][k - width..];
    }
  }

  lemma NoMatchInNothing(k: nat, name: string, word: char -> bool)
    ensures !MatchAt("", k, name, word)
  {
  }

  lemma FirstMatch(s: string, name: string, word: char -> bool)
    requires s != ""
    ensures MatchAt(s, 0, name, word) <==> Pieces(s, word)[0] == Placeholder(name)
  {
    hide MatchName;
    assert s[0..] == s;
  }

  /** The placeholders cut out are exactly the matches in the text, each where it is. */
  lemma {:induction false} PlaceholdersAreMatches(s: string, k: nat, name: string, word: char -> bool)
    requires !word('{') && !word('}')
    ensures PlaceholderAt(Pieces(s, word), k, name) <==> MatchAt(s, k, name, word)
    decreases |s|
  {
    hide MatchName, MatchAt;
    if s == "" {
      assert !MatchAt(s, k, name, word) by { NoMatchInNothing(k, name, word); }
    } else {
      var n := MatchName(s, word);
      var width := if n > 0 then n + 4 else 1;
      assert Pieces(s, word) == [Pieces(s, word)[0]] + Pieces(s[width..], word);
      if k == 0 {
        FirstMatch(s, name, word);
      } else if k < width {
        MatchesDoNotOverlap(s, k, name, word);
      } else {
        MatchShifts(s, width, k, name, word);
        PlaceholdersAreMatches(s[width..], k - width, name, word);
      }
    }
  }

  function Braced(name: string): string { "{{" + name + "}}" }

  /** What a piece is replaced by; an unbound placeholder is a string like any other. */
  function Replacement(piece: Piece, variables: map<string, Value>, shellSafe: bool): string {
    match piece
    case Plain(c) => [c]
    case Placeholder(name) =>
      match if name in variables then variables[name] else Text(Braced(name))
      case Text(s) => if shellSafe then Quote(s) else s
      case Other(shown) => shown
  }

  /** A bound string is quoted for the shell, and so is the text of an unbound placeholder; other values are shown. */
  lemma ReplacementIs(name: string, variables: map<string, Value>)
    ensures name !in variables ==>
      && Replacement(Placeholder(name), variables, true) == Quote("{{" + name + "}}")
      && Replacement(Placeholder(name), variables, false) == "{{" + name + "}}"
    ensures name in variables && variables[name].Text? ==>
      && Replacement(Placeholder(name), variables, true) == Quote(variables[name].s)
      && Replacement(Placeholder(name), variables, false) == variables[name].s
    ensures name in variables && variables[name].Other? ==>
      forall shellSafe :: Replacement(Placeholder(name), variables, shellSafe) == variables[name].shown
  {
  }

  function Fill(pieces: seq<Piece>, variables: map<string, Value>, shellSafe: bool): string
    decreases pieces
  {
    if pieces == [] then ""
    else Replacement(pieces[0], variables, shellSafe) + Fill(pieces[1..], variables, shellSafe)
  }

  function Render(s: string, variables: map<string, Value>, shellSafe: bool, word: char -> bool): string {
    Fill(Pieces(s, word), variables, shellSafe)
  }

  lemma NoPieces(word: char -> bool)
    ensures Render("", map[], false, word) == ""
  {
  }

  lemma FirstPiece(s: string, variables: map<string, Value>, shellSafe: bool, word: char -> bool)
    requires s != ""
    ensures var n := MatchName(s, word);
      Render(s, variables, shellSafe, word) ==
        if n > 0 then
          Replacement(Placeholder(s[2..n + 2]), variables, shellSafe) + Render(s[n + 4..], variables, shellSafe, word)
        else Replacement(Plain(s[0]), variables, shellSafe) + Render(s[1..], variables, shellSafe, word)
  {
    hide Replacement, MatchName;
    var n := MatchName(s, word);
    var width := if n > 0 then n + 4 else 1;
    assert Pieces(s, word)[1..] == Pieces(s[width..], word);
  }

  lemma UnboundPiece(s: string, word: char -> bool)
    requires s != ""
    ensures var n := MatchName(s, word);
      if n > 0 then Replacement(Placeholder(s[2..n + 2]), map[], false) == s[..n + 4]
      else Replacement(Plain(s[0]), map[], false) == s[..1]
  {
    var n := MatchName(s, word);
    if n > 0 {
      assert s[..n + 4] == s[..2] + s[2..n + 2] + s[n + 2..n + 4];
    }
  }

  /** Cutting into pieces loses nothing: without variables and quoting the text comes back. */
  lemma {:induction false} UnboundTextIsKept(s: string, word: char -> bool)
    ensures Render(s, map[], false, word) == s
    decreases |s|
  {
    hide Replacement, MatchName, Braced, Pieces, Fill;
    if s == "" {
      NoPieces(word);
    } else {
      var n := MatchName(s, word);
      var width := if n > 0 then n + 4 else 1;
      FirstPiece(s, map[], false, word);
      UnboundPiece(s, word);
      UnboundTextIsKept(s[width..], word);
      assert s == s[..width] + s[width..];
    }
  }

  /** Rendering is single-pass: what is filled in for one piece does not depend on the others. */
  lemma {:induction false} FillAppend(a: seq<Piece>, b: seq<Piece>, variables: map<string, Value>, shellSafe: bool)
    ensures Fill(a + b, variables, shellSafe) == Fill(a, variables, shellSafe) + Fill(b, variables, shellSafe)
    decreases a
  {
    hide Replacement;
    if a == [] {
      assert a + b == b;
    } else {
      assert (a + b)[0] == a[0] && (a + b)[1..] == a[1..] + b;
      FillAppend(a[1..], b, variables, shellSafe);
    }
  }

  // ------------------------------------------------- what the shell makes of it

  /** The symbols the template means: a string value is one opaque literal. */
  function Meaning(piece: Piece, variables: map<string, Value>): seq<Symbol> {
    match piece
    case Plain(c) => [Ch(c)]
    case Placeholder(name) =>
      match if name in variables then variables[name] else Text(Braced(name))
      case Text(s) => [Lit(s)]
      case Other(shown) => Chars(shown)
  }

  function Meant(pieces: seq<Piece>, variables: map<string, Value>): seq<Symbol>
    decreases pieces
  {
    if pieces == [] then [] else Meaning(pieces[0], variables) + Meant(pieces[1..], variables)
  }

  /** The string put in at a placeholder, if it is a string. */
  function Hole(piece: Piece, variables: map<string, Value>): Option<string> {
    match piece
    case Plain(_) => None
    case Placeholder(name) =>
      match if name in variables then variables[name] else Text(Braced(name))
      case Text(s) => Some(s)
      case Other(_) => None
  }

  /** The quoted value does to the tokenizer what an opaque literal does. */
  predicate IsOpaque(ctrl: Control, value: string) {
    (IsBare(ctrl) && !Hazard(ctrl, value)) || OpaqueWhenQuoted(ctrl, value)
  }

  /** Every string placeholder stands where its quoted value is opaque. */
  predicate WellPlaced(ctrl: Control, pieces: seq<Piece>, variables: map<string, Value>)
    decreases pieces
  {
    pieces == [] ||
    var hole := Hole(pieces[0], variables);
    && (hole.Some? ==> IsOpaque(ctrl, hole.value))
    && WellPlaced(Run(ctrl, Meaning(pieces[0], variables)).after, pieces[1..], variables)
  }

  lemma LiteralRuns(ctrl: Control, s: string)
    requires IsBare(ctrl) || OpaqueWhenQuoted(ctrl, s)
    ensures Run(ctrl, [Lit(s)]) == LiteralStep(ctrl, s)
  {
    RunOne(ctrl, Lit(s));
  }

  /** At an opaque position the rendered text does to the tokenizer what the literal does. */
  lemma ReplacementMeans(ctrl: Control, piece: Piece, variables: map<string, Value>)
    requires Hole(piece, variables).Some? ==> IsOpaque(ctrl, Hole(piece, variables).value)
    ensures Run(ctrl, Chars(Replacement(piece, variables, true))) == Run(ctrl, Meaning(piece, variables))
  {
    hide CharStep, Run, LiteralStep, Quote, OpaqueWhenQuoted, Hazard, IsBare;
    var hole := Hole(piece, variables);
    if hole.Some? {
      LiteralRuns(ctrl, hole.value);
      if OpaqueWhenQuoted(ctrl, hole.value) {
        SafeValueIsOpaqueInQuotes(ctrl, hole.value);
      } else {
        QuotedIsOpaqueWhenBare(ctrl, hole.value);
      }
    } else if piece.Plain? {
      assert Chars([piece.c]) == [Ch(piece.c)];
    }
  }

  lemma {:induction false} RenderingRuns(ctrl: Control, pieces: seq<Piece>, variables: map<string, Value>)
    requires WellPlaced(ctrl, pieces, variables)
    ensures Run(ctrl, Chars(Fill(pieces, variables, true))) == Run(ctrl, Meant(pieces, variables))
    decreases pieces
  {
    hide Run, Replacement, Meaning, Hole, IsOpaque;
    if pieces == [] {
      assert Chars("") == [];
    } else {
      var text, rest := Replacement(pieces[0], variables, true), Fill(pieces[1..], variables, true);
      ReplacementMeans(ctrl, pieces[0], variables);
      RunText(ctrl, text, rest);
      RunAppend(ctrl, Meaning(pieces[0], variables), Meant(pieces[1..], variables));
      RenderingRuns(Run(ctrl, Meaning(pieces[0], variables)).after, pieces[1..], variables);
    }
  }

  /** The tokens of the rendered text are those of the template with an opaque literal for each string value. */
  predicate Commutes(template: string, variables: map<string, Value>, word: char -> bool) {
    Tokenize(Chars(Render(template, variables, true, word))) == Tokenize(Meant(Pieces(template, word), variables))
  }

  /** Rendering commutes with tokenizing: the command's tokens are those of the template with opaque values. */
  lemma RenderingCommutes(template: string, variables: map<string, Value>, word: char -> bool)
    requires WellPlaced(START, Pieces(template, word), variables)
    ensures Commutes(template, variables, word)
  {
    hide Pieces, Meant, Fill, WellPlaced, Run;
    RenderingRuns(START, Pieces(template, word), variables);
  }

  /** All string placeholders stand outside quotes, comments and escapes, at any depth of expansions. */
  predicate AllBare(ctrl: Control, pieces: seq<Piece>, variables: map<string, Value>)
    decreases pieces
  {
    pieces == [] ||
    ((Hole(pieces[0], variables).Some? ==> IsBare(ctrl))
     && AllBare(Run(ctrl, Meaning(pieces[0], variables)).after, pieces[1..], variables))
  }

  /** Some string placeholder has a value that is hazardous where it stands. */
  predicate SomeHazard(ctrl: Control, pieces: seq<Piece>, variables: map<string, Value>)
    decreases pieces
  {
    pieces != [] &&
    var hole := Hole(pieces[0], variables);
    ((hole.Some? && Hazard(ctrl, hole.value))
     || SomeHazard(Run(ctrl, Meaning(pieces[0], variables)).after, pieces[1..], variables))
  }

  /** How a rendered text with a hazardous value ends up apart from what was meant. */
  predicate Apart(e: Effect, meant: Effect) {
    || e.after == BROKEN
    || Diverged(e.marks, meant.marks)
    || (e.after == meant.after && |e.marks| < |meant.marks| && Visible(e.marks) == Visible(meant.marks))
  }

  lemma PieceApart(ctrl: Control, piece: Piece, variables: map<string, Value>)
    requires Hole(piece, variables).Some? && IsBare(ctrl) && Hazard(ctrl, Hole(piece, variables).value)
    ensures Apart(Run(ctrl, Chars(Replacement(piece, variables, true))), Run(ctrl, Meaning(piece, variables)))
  {
    hide Run, LiteralStep, Quote, IsAbsorbed, Kept, Visible, IsBare, Diverged;
    var value := Hole(piece, variables).value;
    LiteralRuns(ctrl, value);
    if IsAbsorbed(ctrl, value) {
      AbsorbedDiverges(ctrl, value);
    } else {
      UnkeptLosesSlashes(ctrl, value);
    }
  }

  lemma ApartFirst(e: Effect, meant: Effect, e': Effect, meant': Effect)
    requires Apart(e, meant) && (e.after == BROKEN ==> e'.after == BROKEN)
    requires e.after == meant.after ==> e' == meant' || Apart(e', meant')
    ensures Apart(Then(e, e'), Then(meant, meant'))
  {
    hide Visible, Diverged;
    if e'.after != BROKEN {
      assert [] + (e.marks + e'.marks) == e.marks + e'.marks;
      assert [] + (meant.marks + meant'.marks) == meant.marks + meant'.marks;
      if Diverged(e.marks, meant.marks) {
        DivergenceStays([], [], e.marks, e'.marks, meant.marks, meant'.marks);
      } else if e' != meant' && Diverged(e'.marks, meant'.marks) {
        DivergenceStays(e.marks, meant.marks, e'.marks, [], meant'.marks, []);
        assert e'.marks + [] == e'.marks && meant'.marks + [] == meant'.marks;
      } else {
        VisibleAppend(e.marks, e'.marks);
        VisibleAppend(meant.marks, meant'.marks);
      }
    }
  }

  lemma ApartLater(e: Effect, e': Effect, meant': Effect)
    requires Apart(e', meant')
    ensures Apart(Then(e, e'), Then(e, meant'))
  {
    hide Visible, Diverged;
    if Diverged(e'.marks, meant'.marks) {
      DivergenceStays(e.marks, e.marks, e'.marks, [], meant'.marks, []);
      assert e'.marks + [] == e'.marks && meant'.marks + [] == meant'.marks;
    } else {
      VisibleAppend(e.marks, e'.marks);
      VisibleAppend(e.marks, meant'.marks);
    }
  }

  /** A hazardous value breaks the command, or sets the marks apart for good. */
  lemma {:induction false} HazardBreaks(ctrl: Control, pieces: seq<Piece>, variables: map<string, Value>)
    requires AllBare(ctrl, pieces, variables)
    ensures var e, meant := Run(ctrl, Chars(Fill(pieces, variables, true))), Run(ctrl, Meant(pieces, variables));
            if SomeHazard(ctrl, pieces, variables) then Apart(e, meant) else e == meant
    decreases pieces
  {
    hide Run, Replacement, Meaning, Hole, Hazard, IsBare, Apart, OpaqueWhenQuoted;
    if pieces == [] {
      assert Chars("") == [];
    } else {
      var text, rest := Replacement(pieces[0], variables, true), Fill(pieces[1..], variables, true);
      var e, meant := Run(ctrl, Chars(text)), Run(ctrl, Meaning(pieces[0], variables));
      RunText(ctrl, text, rest);
      RunAppend(ctrl, Meaning(pieces[0], variables), Meant(pieces[1..], variables));
      HazardBreaks(meant.after, pieces[1..], variables);
      var e', meant' := Run(e.after, Chars(rest)), Run(meant.after, Meant(pieces[1..], variables));
      if Hole(pieces[0], variables).Some? && Hazard(ctrl, Hole(pieces[0], variables).value) {
        PieceApart(ctrl, pieces[0], variables);
        if e.after == BROKEN {
          BrokenStaysBroken(e.after, Chars(rest));
        }
        ApartFirst(e, meant, e', meant');
      } else {
        ReplacementMeans(ctrl, pieces[0], variables);
        if SomeHazard(meant.after, pieces[1..], variables) {
          ApartLater(e, e', meant');
        }
      }
    }
  }

  lemma ApartIsNoToken(e: Effect, meant: Effect)
    requires Apart(e, meant) && Finish(meant).Some?
    ensures Finish(e) != Finish(meant)
  {
    if e.after != BROKEN && Finish(e).Some? && Diverged(e.marks, meant.marks) {
      var a, b := Finish(e).value[|e.marks|..], Finish(meant).value[|meant.marks|..];
      DivergenceStays([], [], e.marks, a, meant.marks, b);
      hide Visible;
      assert Finish(e).value == [] + (e.marks + a) && Finish(meant).value == [] + (meant.marks + b);
    }
  }

  /**
   For a template that is a complete command with every string placeholder in bare position, at any depth of
   expansions, rendering commutes with tokenizing exactly when no value is hazardous where it stands.
   */
  lemma BareRenderingCommutesIff(template: string, variables: map<string, Value>, word: char -> bool)
    requires AllBare(START, Pieces(template, word), variables)
    requires Tokenize(Meant(Pieces(template, word), variables)).Some?
    ensures Commutes(template, variables, word) <==> !SomeHazard(START, Pieces(template, word), variables)
  {
    hide Pieces, Meant, Fill, AllBare, SomeHazard, Apart, Finish, Run;
    var pieces := Pieces(template, word);
    HazardBreaks(START, pieces, variables);
    if SomeHazard(START, pieces, variables) {
      ApartIsNoToken(Run(START, Chars(Fill(pieces, variables, true))), Run(START, Meant(pieces, variables)));
    }
  }

  // ------------------------------------------------------------------ examples

  function Bound(value: string): map<string, Value> { map["d" := Text(value)] }

  function Plains(s: string): seq<Piece> { seq(|s|, i requires 0 <= i < |s| => Plain(s[i])) }

  /** `before{{d}}after`, as pieces. */
  function Around(before: string, after: string): seq<Piece> { Plains(before) + [Placeholder("d")] + Plains(after) }

  lemma PlainPiece(s: string, word: char -> bool)
    requires s != "" && s[0] != '{'
    ensures Pieces(s, word) == [Plain(s[0])] + Pieces(s[1..], word)
  {
    assert |s| >= 2 ==> s[..2][0] == s[0];
    assert MatchName(s, word) == 0;
  }

  lemma PlainsCons(s: string)
    ensures Plains(s) == if s == "" then [] else [Plain(s[0])] + Plains(s[1..])
  {
  }

  lemma {:induction false} PlainPieces(before: string, s: string, word: char -> bool)
    requires '{' !in before
    ensures Pieces(before + s, word) == Plains(before) + Pieces(s, word)
    decreases before
  {
    hide Pieces, Plains;
    PlainsCons(before);
    if before == "" {
      assert before + s == s && [] + Pieces(s, word) == Pieces(s, word);
    } else {
      var t := before + s;
      assert t[0] == before[0] && t[1..] == before[1..] + s;
      PlainPiece(t, word);
      PlainPieces(before[1..], s, word);
      var first, rest := [Plain(t[0])], Plains(before[1..]);
      assert first + (rest + Pieces(s, word)) == first + rest + Pieces(s, word);
    }
  }

  lemma NameMatches(after: string, word: char -> bool)
    requires word('d') && !word('}')
    ensures var t := "{{d}}" + after; MatchName(t, word) == 1 && t[2..3] == "d" && t[5..] == after
  {
    var t := "{{d}}" + after;
    assert t[..2] == "{{" && t[2..][0] == 'd' && t[2..][1..][0] == '}' && t[3..][..2] == "}}";
    assert WordRun(t[2..][1..], word) == 0;
    assert WordRun(t[2..], word) == 1;
  }

  lemma NamePiece(after: string, word: char -> bool)
    requires word('d') && !word('}')
    ensures Pieces("{{d}}" + after, word) == [Placeholder("d")] + Pieces(after, word)
  {
    hide MatchName, WordRun;
    NameMatches(after, word);
  }

  lemma NoPiecesInNothing(word: char -> bool)
    ensures Pieces("", word) == []
  {
  }

  lemma Regrouped(a: seq<Piece>, b: seq<Piece>, c: seq<Piece>)
    ensures a + (b + c) == a + b + c
  {
  }

  lemma PiecesAround(before: string, after: string, word: char -> bool)
    requires '{' !in before && '{' !in after && word('d') && !word('}')
    ensures Pieces(before + ("{{d}}" + after), word) == Around(before, after)
  {
    hide Plains, Pieces;
    PlainPieces(before, "{{d}}" + after, word);
    NamePiece(after, word);
    PlainPieces(after, "", word);
    NoPiecesInNothing(word);
    var rest := Plains(after);
    assert after + "" == after && rest + [] == rest;
    Regrouped(Plains(before), [Placeholder("d")], rest);
  }

  lemma MeantCons(c: char, rest: seq<Piece>, variables: map<string, Value>)
    ensures Meant([Plain(c)] + rest, variables) == [Ch(c)] + Meant(rest, variables)
  {
    assert ([Plain(c)] + rest)[1..] == rest;
  }

  lemma CharsCons(s: string)
    ensures Chars(s) == if s == "" then [] else [Ch(s[0])] + Chars(s[1..])
  {
  }

  lemma {:induction false} PlainsMean(s: string, rest: seq<Piece>, variables: map<string, Value>)
    ensures Meant(Plains(s) + rest, variables) == Chars(s) + Meant(rest, variables)
    decreases s
  {
    hide Meant, Plains, Chars;
    PlainsCons(s);
    CharsCons(s);
    var tail := Meant(rest, variables);
    if s == "" {
      assert [] + rest == rest && [] + tail == tail;
    } else {
      assert [Plain(s[0])] + Plains(s[1..]) + rest == [Plain(s[0])] + (Plains(s[1..]) + rest);
      MeantCons(s[0], Plains(s[1..]) + rest, variables);
      PlainsMean(s[1..], rest, variables);
      assert [Ch(s[0])] + (Chars(s[1..]) + tail) == [Ch(s[0])] + Chars(s[1..]) + tail;
    }
  }

  /** Nothing is asked of plain text; the placeholder is placed where the text before it leads. */
  lemma {:induction false} PlainsAsk(ctrl: Control, s: string, rest: seq<Piece>, variables: map<string, Value>)
    ensures var there := Run(ctrl, Chars(s)).after;
            && (AllBare(ctrl, Plains(s) + rest, variables) <==> AllBare(there, rest, variables))
            && (SomeHazard(ctrl, Plains(s) + rest, variables) <==> SomeHazard(there, rest, variables))
    decreases s
  {
    hide Step;
    if s == "" {
      assert Plains(s) + rest == rest && Chars(s) == [];
    } else {
      assert (Plains(s) + rest)[0] == Plain(s[0]) && (Plains(s) + rest)[1..] == Plains(s[1..]) + rest;
      assert Chars(s)[0] == Ch(s[0]) && Chars(s)[1..] == Chars(s[1..]);
      RunOne(ctrl, Ch(s[0]));
      PlainsAsk(Step(ctrl, Ch(s[0])).after, s[1..], rest, variables);
    }
  }

  /** `before{{d}}after` is rendered, with the value for `d`, to the tokens of the text around an opaque literal. */
  predicate TakesAt(before: string, after: string, value: string, word: char -> bool) {
    Tokenize(Chars(Render(before + ("{{d}}" + after), Bound(value), true, word)))
      == Tokenize(Chars(before) + [Lit(value)] + Chars(after))
  }

  /** For one placeholder, the question is put where the text before it leads. */
  lemma OnePlaceholderCommutesIff(before: string, after: string, value: string, word: char -> bool)
    requires '{' !in before && '{' !in after && word('d') && !word('}')
    requires IsBare(Run(START, Chars(before)).after)
    requires Tokenize(Chars(before) + [Lit(value)] + Chars(after)).Some?
    ensures TakesAt(before, after, value, word) <==> !Hazard(Run(START, Chars(before)).after, value)
  {
    hide Pieces, Run, Hazard, IsBare, Finish;
    var pieces, variables := Around(before, after), Bound(value);
    var there := Run(START, Chars(before)).after;
    var rest := [Placeholder("d")] + Plains(after);
    assert pieces == Plains(before) + rest && rest[1..] == Plains(after) + [];
    PiecesAround(before, after, word);
    PlainsAsk(START, before, rest, variables);
    PlainsAsk(Run(there, [Lit(value)]).after, after, [], variables);
    assert Hole(rest[0], variables) == Some(value) && Meaning(rest[0], variables) == [Lit(value)];
    PlainsMean(before, rest, variables);
    PlainsMean(after, [], variables);
    assert Meant(pieces, variables) == Chars(before) + [Lit(value)] + Chars(after);
    BareRenderingCommutesIff(before + ("{{d}}" + after), variables, word);
  }

  function Place(mode: Mode, stack: Stack, decoders: seq<Decoder>): Control {
    Control(Core(mode, stack), decoders, mode == HERE_DOCUMENT)
  }

  lemma HereDocumentStart()
    ensures Run(START, Chars("<<")).after == Place(HERE_DOCUMENT, Empty, [])
  {
    assert Decode([], '<') == ([], Passed("<")) && "<<" == "<" + ['<'];
    ParseOne(START.core, '<');
    var next := Place(InOperator("<"), Empty, []);
    assert CharStep(START, '<') == Effect(next, [OpChar('<')]) by { assert |"<"| != |"<<"|; }
    ParseOne(next.core, '<');
    assert CharStep(next, '<') == Effect(Place(HERE_DOCUMENT, Empty, []), [OpChar('<')]);
    hide CharStep;
    RunCons(START, "<<");
    assert "<<"[1..] == "<";
    RunOneChar(next, '<');
  }

  lemma DelimiterLine()
    ensures CharStep(Place(HERE_DOCUMENT, Empty, []), 'E').after == Control(Core(InWord, Empty), [], true)
    ensures CharStep(Control(Core(InWord, Empty), [], true), '\n').after == BROKEN
  {
    ParseOne(Core(HERE_DOCUMENT, Empty), 'E');
    ParseOne(Core(InWord, Empty), '\n');
    hide ParseText;
    assert Decode([], 'E') == ([], Passed("E")) && Decode([], '\n') == ([], Passed("\n"));
  }

  /** Right after the line `<<E`, in the body, no placeholder has a place. */
  lemma BodyHasNoPlace()
    ensures Run(START, Chars("<<" + "E\n")).after == BROKEN
  {
    HereDocumentStart();
    DelimiterLine();
    hide CharStep, Run;
    var there, inside := Place(HERE_DOCUMENT, Empty, []), Control(Core(InWord, Empty), [], true);
    RunText(START, "<<", "E\n");
    RunCons(there, "E\n");
    assert "E\n"[1..] == "\n";
    RunOneChar(inside, '\n');
  }

  lemma HereDocumentTakes()
    ensures var there := Place(HERE_DOCUMENT, Empty, []);
            IsBare(there) && Hazard(there, "-x") && LiteralStep(there, "-x").after.core == Core(InWord, Empty)
            && LiteralStep(there, "-x").after.decoders == []
  {
    assert "-x"[0] == '-' && "-x"[1] == 'x';
  }

  lemma MeantAround(before: string, value: string, after: string, there: Control)
    requires Run(START, Chars(before)).after == there && IsBare(there)
    ensures Run(START, Chars(before) + [Lit(value)] + Chars(after)).after
         == Run(LiteralStep(there, value).after, Chars(after)).after
  {
    hide Run, LiteralStep;
    RunAppend(START, Chars(before) + [Lit(value)], Chars(after));
    RunAppend(START, Chars(before), [Lit(value)]);
    LiteralRuns(there, value);
  }

  lemma WordIsComplete()
    ensures forall e: Effect | e.after.core == Core(InWord, Empty) && e.after.decoders == [] :: Finish(e).Some?
    ensures forall e: Effect | e.after == Place(InWord, Empty, []) :: Finish(e).Some?
  {
  }

  /** `<<{{d}}` with `-x` becomes the operator `<<-`. */
  lemma DashIsAbsorbed(word: char -> bool)
    requires word('d') && !word('{') && !word('}')
    ensures !TakesAt("<<", "", "-x", word)
  {
    hide Run, Hazard, LiteralStep, IsBare, Render, Place;
    HereDocumentStart();
    HereDocumentTakes();
    var there := Place(HERE_DOCUMENT, Empty, []);
    MeantAround("<<", "-x", "", there);
    RunNothing(LiteralStep(there, "-x").after);
    assert Finish(Run(START, Chars("<<") + [Lit("-x")] + Chars(""))).Some? by { WordIsComplete(); }
    OnePlaceholderCommutesIff("<<", "", "-x", word);
  }

  const TICKED := Place(Between, Push(Backquotes, 0, InWord, Empty), [Decoder(false, false)])

  lemma BackquotesOpen()
    ensures Run(START, Chars("`")).after == TICKED
  {
    ParseOne(START.core, '`');
    assert Decode([], '`') == ([], Passed("`"));
    assert CharStep(START, '`').after == TICKED;
    RunOneChar(START, '`');
  }

  lemma BackquotesEnd()
    ensures Run(Place(InWord, TICKED.core.stack, TICKED.decoders), Chars("`")).after == Place(InWord, Empty, [])
  {
    var inside := Place(InWord, TICKED.core.stack, TICKED.decoders);
    assert Decode(inside.decoders, '`') == (inside.decoders, Closing);
    assert CharStep(inside, '`').after == Place(InWord, Empty, []);
    RunOneChar(inside, '`');
  }

  lemma TickedTakes(value: string)
    ensures IsBare(TICKED) && (Hazard(TICKED, value) <==> '`' in value || !LosesNowhere(TICKED.decoders, value))
    ensures LiteralStep(TICKED, value).after == Place(InWord, TICKED.core.stack, TICKED.decoders)
  {
    KeptIff(TICKED.decoders, value);
    hide Kept, LosesNowhere;
  }

  /** A command substitution in backquotes takes a value exactly when backquotes leave it as it is. */
  lemma BackquotesTakeIff(value: string, word: char -> bool)
    requires word('d') && !word('{') && !word('}')
    ensures TakesAt("`", "`", value, word) <==> '`' !in value && LosesNowhere(TICKED.decoders, value)
  {
    hide Run, Hazard, LosesNowhere, LiteralStep, IsBare, Render, Place;
    BackquotesOpen();
    BackquotesEnd();
    TickedTakes(value);
    MeantAround("`", value, "`", TICKED);
    assert Finish(Run(START, Chars("`") + [Lit(value)] + Chars("`"))).Some? by { WordIsComplete(); }
    OnePlaceholderCommutesIff("`", "`", value, word);
  }

  const SUBSTITUTED := Place(AfterParen(false), Push(Command, 0, InWord, Empty), [])

  lemma ParenOpens()
    ensures Run(START, Chars("$(")).after == SUBSTITUTED
  {
    ParseOne(START.core, '$');
    var next := Place(AfterDollar(InWord), Empty, []);
    assert Decode([], '$') == ([], Passed("$")) && Decode([], '(') == ([], Passed("("));
    assert CharStep(START, '$').after == next;
    ParseOne(next.core, '(');
    assert CharStep(next, '(').after == SUBSTITUTED;
    hide CharStep;
    RunCons(START, "$(");
    assert "$("[1..] == "(";
    RunOneChar(next, '(');
  }

  lemma ParenCloses()
    ensures Run(Place(InWord, SUBSTITUTED.core.stack, []), Chars(")")).after == Place(InWord, Empty, [])
  {
    var inside := Place(InWord, SUBSTITUTED.core.stack, []);
    ParseOne(inside.core, ')');
    assert Decode([], ')') == ([], Passed(")"));
    assert CharStep(inside, ')').after == Place(InWord, Empty, []);
    RunOneChar(inside, ')');
  }

  lemma SubstitutedTakes(value: string)
    ensures IsBare(SUBSTITUTED) && !Hazard(SUBSTITUTED, value)
    ensures LiteralStep(SUBSTITUTED, value).after == Place(InWord, SUBSTITUTED.core.stack, [])
  {
  }

  /** One in `$(..)` takes every value. */
  lemma SubstitutionTakesAll(value: string, word: char -> bool)
    requires word('d') && !word('{') && !word('}')
    ensures TakesAt("$(", ")", value, word)
  {
    hide Run, Hazard, LiteralStep, IsBare, Render, Place;
    ParenOpens();
    ParenCloses();
    SubstitutedTakes(value);
    MeantAround("$(", value, ")", SUBSTITUTED);
    assert Finish(Run(START, Chars("$(") + [Lit(value)] + Chars(")"))).Some? by { WordIsComplete(); }
    OnePlaceholderCommutesIff("$(", ")", value, word);
  }

  lemma FillCons(c: char, rest: seq<Piece>, variables: map<string, Value>)
    ensures Fill([Plain(c)] + rest, variables, true) == [c] + Fill(rest, variables, true)
  {
    assert ([Plain(c)] + rest)[1..] == rest;
  }

  lemma {:induction false} FillPlains(s: string, rest: seq<Piece>, variables: map<string, Value>)
    ensures Fill(Plains(s) + rest, variables, true) == s + Fill(rest, variables, true)
    decreases s
  {
    hide Fill, Plains;
    PlainsCons(s);
    if s == "" {
      assert [] + rest == rest && "" + Fill(rest, variables, true) == Fill(rest, variables, true);
    } else {
      assert [Plain(s[0])] + Plains(s[1..]) + rest == [Plain(s[0])] + (Plains(s[1..]) + rest);
      FillCons(s[0], Plains(s[1..]) + rest, variables);
      FillPlains(s[1..], rest, variables);
      assert [s[0]] + (s[1..] + Fill(rest, variables, true)) == s + Fill(rest, variables, true);
    }
  }

  lemma RenderAround(before: string, after: string, value: string, word: char -> bool)
    requires '{' !in before && '{' !in after && word('d') && !word('}')
    ensures Render(before + ("{{d}}" + after), Bound(value), true, word) == before + (Quote(value) + after)
  {
    hide Pieces, Quote;
    PiecesAround(before, after, word);
    var rest := [Placeholder("d")] + Plains(after);
    assert Around(before, after) == Plains(before) + rest && rest[1..] == Plains(after) + [];
    FillPlains(before, rest, Bound(value));
    FillPlains(after, [], Bound(value));
    assert after + "" == after;
  }

  lemma ClashIsNoToken(first: Effect, e: Effect, e': Effect, meant: Effect, meant': Effect, due: string)
    requires Clash(e, meant.after, due) && meant.marks == Literals(due)
    requires (e.after == BROKEN ==> e'.after == BROKEN) && (e.after == meant.after ==> e' == meant')
    requires Finish(Then(Then(first, meant), meant')).Some?
    ensures Finish(Then(Then(first, e), e')) != Finish(Then(Then(first, meant), meant'))
  {
    var a, b := Then(Then(first, e), e'), Then(Then(first, meant), meant');
    if Finish(a).Some? && Differ(e.marks, meant.marks) {
      var x, y := Finish(a).value[|first.marks + e.marks|..], Finish(b).value[|first.marks + meant.marks|..];
      DifferBetween(first.marks, e.marks, x, meant.marks, y);
      assert Finish(a).value == first.marks + e.marks + x && Finish(b).value == first.marks + meant.marks + y;
    }
  }

  lemma RunAround(before: string, middle: seq<Symbol>, after: string)
    ensures var first := Run(START, Chars(before));
            var e := Run(first.after, middle);
            Run(START, Chars(before) + middle + Chars(after)) == Then(Then(first, e), Run(e.after, Chars(after)))
  {
    hide Run;
    RunAppend(START, Chars(before) + middle, Chars(after));
    RunAppend(START, Chars(before), middle);
  }

  lemma CharsAround(a: string, b: string, c: string)
    ensures Chars(a + (b + c)) == Chars(a) + Chars(b) + Chars(c)
  {
  }

  lemma RunOneLiteral(ctrl: Control, s: string)
    requires ctrl.core.mode.Single?
    ensures Run(ctrl, [Lit(s)]) == LiteralStep(ctrl, s)
  {
    RunOne(ctrl, Lit(s));
  }

  /**
   A placeholder in single quotes, outside backquotes, takes exactly the values of safe characters: any other leaves
   the quotes, and the command's tokens are others.
   */
  lemma SingleQuotesTakeIff(before: string, after: string, value: string, word: char -> bool)
    requires '{' !in before && '{' !in after && word('d') && !word('}')
    requires var there := Run(START, Chars(before)).after;
             there.decoders == [] && there.core.mode.Single? && IsWordMode(there.core.mode.back)
    requires Tokenize(Chars(before) + [Lit(value)] + Chars(after)).Some?
    ensures TakesAt(before, after, value, word) <==> AllSafe(value)
  {
    hide Run, Quote, LiteralStep, Finish, Clash, IsSafe, Render, IsWordMode, Literals, Chars;
    RenderAround(before, after, value, word);
    CharsAround(before, Quote(value), after);
    var first := Run(START, Chars(before));
    var there := first.after;
    SingleTakesIff(there, value);
    LiteralStays(there, there.core.mode.back, value);
    RunOneLiteral(there, value);
    RunAround(before, Chars(Quote(value)), after);
    RunAround(before, [Lit(value)], after);
    if !AllSafe(value) {
      var e, meant := Run(there, Chars(Quote(value))), Run(there, [Lit(value)]);
      var e', meant' := Run(e.after, Chars(after)), Run(meant.after, Chars(after));
      if e.after == BROKEN {
        BrokenStaysBroken(e.after, Chars(after));
      }
      ClashIsNoToken(first, e, e', meant, meant', value);
    }
  }

  lemma QuotedIsNotBroken()
    ensures !Place(Single(InWord), Empty, []).core.mode.Broken?
  {
  }

  lemma SingleQuoteOpens()
    ensures Run(START, Chars("'")).after == Place(Single(InWord), Empty, [])
    ensures Run(Place(Single(InWord), Empty, []), Chars("'")).after == Place(InWord, Empty, [])
  {
    var inside := Place(Single(InWord), Empty, []);
    NoDecoders(START, '\'');
    NoDecoders(inside, '\'');
    assert CharStep(START, '\'').after == inside && CharStep(inside, '\'').after == Place(InWord, Empty, []);
    hide CharStep, Run, Place;
    RunOneChar(START, '\'');
    assert !inside.core.mode.Broken? by { QuotedIsNotBroken(); }
    RunOneChar(inside, '\'');
  }

  lemma PlaceOfExample()
    ensures var there := Place(Single(InWord), Empty, []);
            && there.decoders == [] && there.core.mode == Single(InWord) && IsWordMode(InWord)
            && LiteralStep(there, "a b").after == there && !AllSafe("a b")
  {
    LiteralStays(Place(Single(InWord), Empty, []), InWord, "a b");
    hide LiteralStep;
    assert !IsSafe("a b"[1]);
  }

  /** `'{{d}}'` with `a b` becomes two words. */
  lemma SpaceLeavesQuotes(word: char -> bool)
    requires word('d') && !word('{') && !word('}')
    ensures !TakesAt("'", "'", "a b", word)
  {
    var there := Place(Single(InWord), Empty, []);
    PlaceOfExample();
    hide Run, LiteralStep, AllSafe, Chars, Finish, Place, TakesAt;
    SingleQuoteOpens();
    RunAround("'", [Lit("a b")], "'");
    RunOneLiteral(there, "a b");
    assert Finish(Run(START, Chars("'") + [Lit("a b")] + Chars("'"))).Some? by { WordIsComplete(); }
    SingleQuotesTakeIff("'", "'", "a b", word);
  }

  // ------------------------------------------------------- the step structure

  /** `replace_vars` on the nested steps. */
  function ReplaceVars(v: Json, variables: map<string, Value>, shellSafe: bool, word: char -> bool): Json
    decreases v
  {
    match v
    case Str(s) => Str(Render(s, variables, shellSafe, word))
    case Dict(entries) => Dict(map k | k in entries :: ReplaceVars(entries[k], variables, shellSafe, word))
    case List(items) =>
      List(seq(|items|, i requires 0 <= i < |items| => ReplaceVars(items[i], variables, shellSafe, word)))
    case _ => v
  }

  datatype Link = Field(name: string) | Index(i: nat)

  /** The value at a path of dictionary keys and list positions. */
  function At(v: Json, path: seq<Link>): Option<Json>
    decreases path
  {
    if path == [] then Some(v)
    else
      match path[0]
      case Field(name) => if v.Dict? && name in v.entries then At(v.entries[name], path[1..]) else None
      case Index(i) => if v.List? && i < |v.items| then At(v.items[i], path[1..]) else None
  }

  /** Rendering keeps the structure: the same paths exist, and each leads to the rendered value. */
  lemma {:induction false} StructureIsKept(v: Json, path: seq<Link>, variables: map<string, Value>, shellSafe: bool,
                                           word: char -> bool)
    ensures At(ReplaceVars(v, variables, shellSafe, word), path) ==
      match At(v, path)
      case None => None
      case Some(x) => Some(ReplaceVars(x, variables, shellSafe, word))
    decreases path
  {
    hide Render;
    if path != [] {
      match path[0]
      case Field(name) =>
        if v.Dict? && name in v.entries {
          StructureIsKept(v.entries[name], path[1..], variables, shellSafe, word);
        }
      case Index(i) =>
        if v.List? && i < |v.items| {
          StructureIsKept(v.items[i], path[1..], variables, shellSafe, word);
        }
    }
  }

  /** What a rendered value is: strings are rendered, everything else keeps its kind, keys and length. */
  predicate IsRendered(v: Option<Json>, r: Option<Json>, variables: map<string, Value>, shellSafe: bool,
                       word: char -> bool) {
    match v
    case None => r == None
    case Some(Str(s)) => r == Some(Str(Render(s, variables, shellSafe, word)))
    case Some(Dict(entries)) => r.Some? && r.value.Dict? && r.value.entries.Keys == entries.Keys
    case Some(List(items)) => r.Some? && r.value.List? && |r.value.items| == |items|
    case Some(_) => r == v
  }

  /** The same at every path. */
  ghost predicate RenderedAtAllPaths(v: Json, r: Json, variables: map<string, Value>, shellSafe: bool,
                                     word: char -> bool) {
    forall path :: IsRendered(At(v, path), At(r, path), variables, shellSafe, word)
  }

  lemma ReplacedIsRendered(v: Json, variables: map<string, Value>, shellSafe: bool, word: char -> bool)
    ensures RenderedAtAllPaths(v, ReplaceVars(v, variables, shellSafe, word), variables, shellSafe, word)
  {
    forall path
      ensures IsRendered(At(v, path), At(ReplaceVars(v, variables, shellSafe, word), path), variables, shellSafe, word)
    {
      StructureIsKept(v, path, variables, shellSafe, word);
      hide Render, At;
    }
  }

  /** `command` has the tokens the template means, unless one of its values is hazardous, exactly. */
  predicate MeansTemplate(template: string, command: string, variables: map<string, Value>, word: char -> bool) {
    var pieces := Pieces(template, word);
    Tokenize(Chars(command)) == Tokenize(Meant(pieces, variables)) <==> !SomeHazard(START, pieces, variables)
  }

  /** Each string rendered for the shell obeys the shell, where its placeholders are bare in a complete command. */
  lemma RenderedStepsMeanTheirTemplates(steps: Json, rendered: Json, path: seq<Link>, template: string,
                                        variables: map<string, Value>, word: char -> bool)
    requires RenderedAtAllPaths(steps, rendered, variables, true, word)
    requires At(steps, path) == Some(Str(template))
    requires AllBare(START, Pieces(template, word), variables)
    requires Tokenize(Meant(Pieces(template, word), variables)).Some?
    ensures At(rendered, path).Some? && At(rendered, path).value.Str?
            && MeansTemplate(template, At(rendered, path).value.s, variables, word)
  {
    hide AllBare, Tokenize, Pieces, Meant, SomeHazard, Render, At;
    assert IsRendered(At(steps, path), At(rendered, path), variables, true, word);
    BareRenderingCommutesIff(template, variables, word);
  }

  /** `resolve_template_variables`: a copy with rendered steps. */
  method ResolveTemplate(template: map<string, Json>, variables: map<string, Value>, shellSafe: bool,
                         word: char -> bool)
    returns (resolved: map<string, Json>)
    ensures resolved.Keys == template.Keys + {"steps", "is_generic", "resolved_from"}
    ensures var steps := if "steps" in template then template["steps"] else List([]);
      RenderedAtAllPaths(steps, resolved["steps"], variables, shellSafe, word)
    ensures "steps" in template ==> resolved["steps"] == ReplaceVars(template["steps"], variables, shellSafe, word)
    ensures "steps" !in template ==> resolved["steps"] == List([])
    ensures resolved["is_generic"] == Bool(false)
    ensures resolved["resolved_from"] == if "name" in template then template["name"] else Str("")
    ensures forall k :: k in template && k !in {"steps", "is_generic", "resolved_from"} ==> resolved[k] == template[k]
  {
    hide Render;
    ReplacedIsRendered(if "steps" in template then template["steps"] else List([]), variables, shellSafe, word);
    hide RenderedAtAllPaths;
    assert ReplaceVars(List([]), variables, shellSafe, word) == List([]);
    resolved := template;
    resolved := resolved["steps" := if "steps" in resolved
                                    then ReplaceVars(resolved["steps"], variables, shellSafe, word) else List([])];
    resolved := resolved["is_generic" := Bool(false)];
    resolved := resolved["resolved_from" := if "name" in template then template["name"] else Str("")];
  }
}
