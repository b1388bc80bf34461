/** The `.env` readers and writers of scripts/matrix_login.py and scripts/rotate_secrets.py. */
module EnvFiles {
  import opened PyText

  // ------------------------------------------------------------ text and lines

  predicate NoBreaks(s: string) { forall i :: 0 <= i < |s| ==> !IsBreak(s[i]) }

  function FirstBreak(s: string): (n: nat)
    ensures n <= |s| && NoBreaks(s[..n]) && (n < |s| ==> IsBreak(s[n]))
  {
    if s == "" || IsBreak(s[0]) then 0
    else
      var n := 1 + FirstBreak(s[1..]);
      assert s[..n] == [s[0]] + s[1..][..n - 1];
      n
  }

  /** `str.splitlines`; a carriage return with a line feed is one break. */
  function SplitLines(s: string): (lines: seq<string>)
    ensures forall i :: 0 <= i < |lines| ==> NoBreaks(lines[i])
    decreases |s|
  {
    if s == "" then []
    else
      var n := FirstBreak(s);
      var width := if n + 1 < |s| && s[n] == '\r' && s[n + 1] == '\n' then 2 else 1;
      if n == |s| then [s] else [s[..n]] + SplitLines(s[n + width..])
  }

  /** `"\n".join(lines) + "\n"` for at least one line. */
  function JoinLines(lines: seq<string>): string {
    if lines == [] then "" else lines[0] + "\n" + JoinLines(lines[1..])
  }

  lemma SplitFirst(line: string, rest: string)
    requires NoBreaks(line)
    ensures SplitLines(line + "\n" + rest) == [line] + SplitLines(rest)
  {
    var s := line + "\n" + rest;
    var n := FirstBreak(s);
    assert s[|line|] == '\n';
    assert forall i :: 0 <= i < |line| ==> s[i] == line[i];
    assert forall i :: 0 <= i < n ==> !IsBreak(s[..n][i]) && s[..n][i] == s[i];
    assert s[..n] == line && s[n + 1..] == rest;
  }

  lemma SplitNothing()
    ensures SplitLines("") == []
  {
  }

  /** Writing lines and reading them back gives the same lines. */
  lemma {:induction false} SplitJoin(lines: seq<string>)
    requires forall i :: 0 <= i < |lines| ==> NoBreaks(lines[i])
    ensures SplitLines(JoinLines(lines)) == lines
    decreases lines
  {
    hide NoBreaks, SplitLines;
    if lines != [] {
      SplitFirst(lines[0], JoinLines(lines[1..]));
      SplitJoin(lines[1..]);
    } else {
      assert SplitLines("") == [] by { SplitNothing(); }
    }
  }

  // ------------------------------------------------------------------ reading

  /** What a reader does to the text after the equals sign. */
  function CleanMatrix(raw: string): string { Trim(Strip(raw), IsDoubleQuote) }

  function CleanRotate(raw: string): string { Trim(Trim(Strip(raw), IsDoubleQuote), IsSingleQuote) }

  datatype Binding = Binding(key: string, value: string)

  /** The binding on a line; blank lines, comments and lines without an equals sign have none. */
  function ParseLine(line: string, clean: string -> string): Option<Binding> {
    var s := Strip(line);
    if s == "" || s[0] == '#' || '=' !in s then None
    else
      var e := Find(s, '=');
      Some(Binding(Strip(s[..e]), if e < |s| then clean(s[e + 1..]) else ""))
  }

  function Bind(values: map<string, string>, b: Option<Binding>): map<string, string> {
    if b.Some? then values[b.value.key := b.value.value] else values
  }

  /** The last binding of a key wins. */
  function Load(lines: seq<string>, clean: string -> string): map<string, string>
    decreases lines
  {
    if lines == [] then map[]
    else Bind(Load(lines[..|lines| - 1], clean), ParseLine(lines[|lines| - 1], clean))
  }

  lemma LoadMore(lines: seq<string>, i: nat, clean: string -> string)
    requires i < |lines|
    ensures Load(lines[..i + 1], clean) == Bind(Load(lines[..i], clean), ParseLine(lines[i], clean))
  {
    hide ParseLine;
    assert lines[..i + 1][..i] == lines[..i];
  }

  lemma LoadNothing(clean: string -> string)
    ensures Load([], clean) == map[]
  {
  }

  method LoadEnv(file: Option<string>, clean: string -> string) returns (values: map<string, string>)
    ensures values == if file.Some? then Load(SplitLines(file.value), clean) else map[]
  {
    hide Strip, SplitLines, Load;
    values := map[];
    if file.None? {
      return;
    }
    var lines := SplitLines(file.value);
    assert lines[..0] == [];
    LoadNothing(clean);
    for i := 0 to |lines|
      invariant values == Load(lines[..i], clean)
    {
      LoadMore(lines, i, clean);
      var line := Strip(lines[i]);
      if line == "" || line[0] == '#' || '=' !in line {
        continue;
      }
      var e := Find(line, '=');
      assert e < |line|;
      values := values[Strip(line[..e]) := clean(line[e + 1..])];
    }
    assert lines[..|lines|] == lines;
  }

  lemma BindLater(a: map<string, string>, b: map<string, string>, binding: Option<Binding>)
    ensures Bind(a + b, binding) == a + Bind(b, binding)
  {
  }

  lemma {:induction false} LoadAppend(a: seq<string>, b: seq<string>, clean: string -> string)
    ensures Load(a + b, clean) == Load(a, clean) + Load(b, clean)
    decreases b
  {
    hide ParseLine, Load, Bind;
    if b == [] {
      LoadNothing(clean);
      assert a + b == a && Load(a, clean) + map[] == Load(a, clean);
    } else {
      var last := |b| - 1;
      LoadAppend(a, b[..last], clean);
      LoadMore(a + b, |a| + last, clean);
      LoadMore(b, last, clean);
      assert (a + b)[..|a| + last] == a + b[..last] && (a + b)[..|a| + last + 1] == a + b && b[..last + 1] == b;
      BindLater(Load(a, clean), Load(b[..last], clean), ParseLine(b[last], clean));
    }
  }

  lemma LoadOne(line: string, clean: string -> string)
    ensures Load([line], clean) == Bind(map[], ParseLine(line, clean))
  {
    hide ParseLine;
    assert [line][..0] == [];
  }

  // ---------------------------------------------------------------- rendering

  /** A key that reads back as itself. */
  predicate IsKey(key: string) {
    key != "" && IsTrimmed(key, IsSpace) && key[0] != '#' && '=' !in key && NoBreaks(key)
  }

  function Render(key: string, value: string): string { key + "=" + value }

  lemma EqualsIsNoSpace()
    ensures !IsSpace('=')
  {
  }

  /** Stripping a rendered line only touches the end of the value. */
  lemma RenderedLineStripped(key: string, value: string) returns (kept: string)
    requires IsKey(key)
    ensures Strip(Render(key, value)) == Render(key, kept) && Strip(kept) == Strip(value)
  {
    var left, right := TrimSplits(value, IsSpace);
    var middle := Strip(value);
    hide Trim, IsBreak;
    kept := if middle == "" then "" else left + middle;
    var rest := if middle == "" then value else right;
    var line := Render(key, kept);
    hide IsSpace;
    assert line[0] == key[0];
    assert line[|line| - 1] == if middle == "" then '=' else middle[|middle| - 1];
    EqualsIsNoSpace();
    assert "" + line + rest == Render(key, value);
    TrimUnique("", line, rest, IsSpace);
    if middle == "" {
      StripEmpty();
    } else {
      assert left + middle + "" == kept;
      TrimUnique(left, middle, "", IsSpace);
    }
  }

  ghost predicate DependsOnStrip(clean: string -> string) {
    forall a, b :: Strip(a) == Strip(b) ==> clean(a) == clean(b)
  }

  lemma RenderedLineParses(key: string, value: string, clean: string -> string)
    requires IsKey(key) && DependsOnStrip(clean)
    ensures ParseLine(Render(key, value), clean) == Some(Binding(key, clean(value)))
  {
    hide Trim, IsSpace, IsBreak;
    var kept := RenderedLineStripped(key, value);
    var s := Render(key, kept);
    assert s[|key|] == '=';
    assert forall i :: 0 <= i < |key| ==> s[i] == key[i];
    assert Find(s, '=') == |key|;
    assert s[..|key|] == key && s[|key| + 1..] == kept;
    TrimOfTrimmed(key, IsSpace);
  }

  lemma CleanersDependOnStrip()
    ensures DependsOnStrip(CleanMatrix) && DependsOnStrip(CleanRotate)
  {
  }

  lemma CleanValueIsKept(value: string)
    requires IsTrimmed(value, IsSpace) && IsTrimmed(value, IsDoubleQuote)
    ensures CleanMatrix(value) == value
    ensures IsTrimmed(value, IsSingleQuote) ==> CleanRotate(value) == value
  {
    hide Trim, IsSpace;
    TrimOfTrimmed(value, IsSpace);
    TrimOfTrimmed(value, IsDoubleQuote);
    if IsTrimmed(value, IsSingleQuote) { TrimOfTrimmed(value, IsSingleQuote); }
  }

  // -------------------------------------------------- _update_env (matrix login)

  const RETIRE_MARK := "# [retired by matrix_login.py "

  function Retired(stamp: string, line: string): string { RETIRE_MARK + stamp + "] " + line }

  /** The key a line binds, however its value reads. */
  function KeyOf(line: string): Option<string> {
    match ParseLine(line, CleanMatrix)
    case Some(b) => Some(b.key)
    case None => None
  }

  /** Retiring takes precedence over updating; a line with an empty key is never touched. */
  function UpdateLine(line: string, updates: map<string, string>, retire: set<string>, stamp: string): string {
    match KeyOf(line)
    case None => line
    case Some(key) =>
      if key == "" then line
      else if key in retire then Retired(stamp, line)
      else if key in updates then Render(key, updates[key])
      else line
  }

  function UpdateLines(lines: seq<string>, updates: map<string, string>, retire: set<string>,
                       stamp: string): seq<string>
    decreases lines
  {
    if lines == [] then []
    else
      var last := |lines| - 1;
      UpdateLines(lines[..last], updates, retire, stamp) + [UpdateLine(lines[last], updates, retire, stamp)]
  }

  /** The keys that were updated in place. */
  function Seen(lines: seq<string>, updates: map<string, string>, retire: set<string>): set<string>
    decreases lines
  {
    if lines == [] then {}
    else
      var last := |lines| - 1;
      var before := Seen(lines[..last], updates, retire);
      match KeyOf(lines[last])
      case None => before
      case Some(key) => if key != "" && key !in retire && key in updates then before + {key} else before
  }

  function Additions(order: seq<string>, updates: map<string, string>, seen: set<string>): seq<string>
    requires forall k :: k in order ==> k in updates
    decreases order
  {
    if order == [] then []
    else
      var last := |order| - 1;
      assert order[last] in order;
      var before := Additions(order[..last], updates, seen);
      if order[last] in seen then before else before + [Render(order[last], updates[order[last]])]
  }

  /** The rewritten file; `order` lists the keys of `updates`. */
  method UpdateEnv(file: Option<string>, updates: map<string, string>, order: seq<string>, retire: set<string>,
                   stamp: string, header: string)
    returns (text: string)
    requires forall k :: k in order ==> k in updates
    ensures var lines := if file.Some? then SplitLines(file.value) else [];
      text == JoinLines(UpdateLines(lines, updates, retire, stamp) + ["", header]
                        + Additions(order, updates, Seen(lines, updates, retire)))
  {
    hide SplitLines, ParseLine, Strip, Find, Render, Retired, JoinLines;
    var lines := if file.Some? then SplitLines(file.value) else [];
    var out: seq<string> := [];
    var seen: set<string> := {};
    for i := 0 to |lines|
      invariant out == UpdateLines(lines[..i], updates, retire, stamp)
      invariant seen == Seen(lines[..i], updates, retire)
    {
      assert lines[..i + 1][..i] == lines[..i];
      var key := KeyOf(lines[i]);
      if key.Some? && key.value in retire {
        out := out + [if key.value == "" then lines[i] else Retired(stamp, lines[i])];
      } else if key.Some? && key.value in updates && key.value != "" {
        out := out + [Render(key.value, updates[key.value])];
        seen := seen + {key.value};
      } else {
        out := out + [lines[i]];
      }
    }
    assert lines[..|lines|] == lines;
    var additions: seq<string> := [];
    for i := 0 to |order|
      invariant forall k :: k in order[..i] ==> k in updates
      invariant additions == Additions(order[..i], updates, seen)
    {
      assert order[..i + 1][..i] == order[..i] && order[i] in order;
      if order[i] !in seen {
        additions := additions + [Render(order[i], updates[order[i]])];
      }
    }
    assert order[..|order|] == order;
    text := JoinLines(out + ["", header] + additions);
  }

  predicate UsableUpdates(updates: map<string, string>) {
    forall k :: k in updates ==> IsKey(k) && NoBreaks(updates[k])
  }

  function Cleaned(updates: map<string, string>): map<string, string> {
    map k | k in updates :: CleanMatrix(updates[k])
  }

  lemma HashIsNoSpace()
    ensures !IsSpace('#')
  {
  }

  lemma CommentHasNoBinding(line: string, clean: string -> string)
    requires line != "" && line[0] == '#'
    ensures ParseLine(line, clean).None?
  {
    hide IsSpace;
    assert !IsSpace('#') by { HashIsNoSpace(); }
    assert "" + line == line;
    TrimLeftUnique("", line, IsSpace);
    hide TrimLeft, TrimRight;
    assert Strip(line) == TrimRight(line, IsSpace);
  }

  /** What in-place updating does to the bindings of a file. */
  function Effect(loaded: map<string, string>, updates: map<string, string>, retire: set<string>): map<string, string> {
    map k | k in loaded && k !in retire - {""} :: if k in updates then CleanMatrix(updates[k]) else loaded[k]
  }

  function EffectOnBinding(b: Option<Binding>, updates: map<string, string>, retire: set<string>): Option<Binding> {
    if b.None? || b.value.key in retire - {""} then None
    else if b.value.key in updates then Some(Binding(b.value.key, CleanMatrix(updates[b.value.key])))
    else b
  }

  lemma EffectCommutes(loaded: map<string, string>, b: Option<Binding>, updates: map<string, string>,
                       retire: set<string>)
    ensures Effect(Bind(loaded, b), updates, retire)
         == Bind(Effect(loaded, updates, retire), EffectOnBinding(b, updates, retire))
  {
    hide CleanMatrix;
  }

  lemma UpdatedLineParses(line: string, updates: map<string, string>, retire: set<string>, stamp: string)
    requires UsableUpdates(updates)
    ensures ParseLine(UpdateLine(line, updates, retire, stamp), CleanMatrix)
         == EffectOnBinding(ParseLine(line, CleanMatrix), updates, retire)
  {
    hide ParseLine, Render, NoBreaks, CleanMatrix;
    CleanersDependOnStrip();
    var key := KeyOf(line);
    if key.Some? && key.value != "" {
      if key.value in retire {
        CommentHasNoBinding(Retired(stamp, line), CleanMatrix);
      } else if key.value in updates {
        RenderedLineParses(key.value, updates[key.value], CleanMatrix);
      }
    }
  }

  lemma {:induction false} UpdatedLinesLoad(lines: seq<string>, updates: map<string, string>, retire: set<string>,
                                            stamp: string)
    requires UsableUpdates(updates)
    ensures Load(UpdateLines(lines, updates, retire, stamp), CleanMatrix)
         == Effect(Load(lines, CleanMatrix), updates, retire)
    decreases lines
  {
    hide ParseLine, IsKey, NoBreaks, CleanMatrix, UsableUpdates, UpdateLine, EffectOnBinding, Bind;
    if lines != [] {
      hide Effect;
      var last := |lines| - 1;
      UpdatedLinesLoad(lines[..last], updates, retire, stamp);
      UpdatedLineParses(lines[last], updates, retire, stamp);
      EffectCommutes(Load(lines[..last], CleanMatrix), ParseLine(lines[last], CleanMatrix), updates, retire);
      var out := UpdateLines(lines[..last], updates, retire, stamp);
      assert (out + [UpdateLine(lines[last], updates, retire, stamp)])[..|out|] == out;
    }
  }

  lemma {:induction false} SeenAreUpdatedKeys(lines: seq<string>, updates: map<string, string>, retire: set<string>)
    requires "" !in updates
    ensures Seen(lines, updates, retire) == set k | k in Load(lines, CleanMatrix) && k in updates && k !in retire
    decreases lines
  {
    hide ParseLine, CleanMatrix;
    if lines != [] {
      SeenAreUpdatedKeys(lines[..|lines| - 1], updates, retire);
    }
  }

  function Added(order: seq<string>, updates: map<string, string>, seen: set<string>): map<string, string> {
    map k | k in updates && k in order && k !in seen :: CleanMatrix(updates[k])
  }

  lemma AddedComplete(loaded: map<string, string>, updates: map<string, string>, order: seq<string>,
                      retire: set<string>,
                      seen: set<string>)
    requires (forall k :: k in order <==> k in updates) && "" !in updates
    requires seen == set k | k in loaded && k in updates && k !in retire
    ensures Effect(loaded, updates, retire) + map[] + Added(order, updates, seen)
         == (loaded - (retire - {""})) + Cleaned(updates)
  {
    hide CleanMatrix;
  }

  lemma {:induction false} AdditionsLoad(order: seq<string>, updates: map<string, string>, seen: set<string>)
    requires UsableUpdates(updates) && forall k :: k in order ==> k in updates
    ensures Load(Additions(order, updates, seen), CleanMatrix) == Added(order, updates, seen)
    decreases order
  {
    hide ParseLine, Render, IsKey, NoBreaks, CleanMatrix;
    if order != [] {
      var last := |order| - 1;
      var key := order[last];
      assert key in order && order == order[..last] + [key];
      AdditionsLoad(order[..last], updates, seen);
      if key !in seen {
        CleanersDependOnStrip();
        RenderedLineParses(key, updates[key], CleanMatrix);
        var before := Additions(order[..last], updates, seen);
        assert (before + [Render(key, updates[key])])[..|before|] == before;
      }
    }
  }

  lemma NoBreaksAppend(a: string, b: string)
    requires NoBreaks(a) && NoBreaks(b)
    ensures NoBreaks(a + b)
  {
    hide IsBreak;
  }

  lemma MarkHasNoBreaks()
    ensures NoBreaks(RETIRE_MARK) && NoBreaks("] ")
  {
  }

  lemma RetiredHasNoBreaks(stamp: string, line: string)
    requires NoBreaks(stamp) && NoBreaks(line)
    ensures NoBreaks(Retired(stamp, line))
  {
    MarkHasNoBreaks();
    hide NoBreaks, RETIRE_MARK;
    NoBreaksAppend(RETIRE_MARK, stamp);
    NoBreaksAppend(RETIRE_MARK + stamp, "] ");
    NoBreaksAppend(RETIRE_MARK + stamp + "] ", line);
  }

  lemma KeyHasNoBreaks(key: string)
    requires IsKey(key)
    ensures NoBreaks(key)
  {
  }

  lemma RenderedHasNoBreaks(key: string, value: string)
    requires NoBreaks(key) && NoBreaks(value)
    ensures NoBreaks(Render(key, value))
  {
    assert NoBreaks("=");
    hide NoBreaks;
    NoBreaksAppend(key, "=");
    NoBreaksAppend(key + "=", value);
  }

  lemma UpdatedLineHasNoBreaks(line: string, updates: map<string, string>, retire: set<string>, stamp: string)
    requires UsableUpdates(updates) && NoBreaks(stamp) && NoBreaks(line)
    ensures NoBreaks(UpdateLine(line, updates, retire, stamp))
  {
    hide NoBreaks, Retired, Render, ParseLine, IsKey;
    RetiredHasNoBreaks(stamp, line);
    var key := KeyOf(line);
    if key.Some? && key.value in updates {
      KeyHasNoBreaks(key.value);
      RenderedHasNoBreaks(key.value, updates[key.value]);
    }
  }

  predicate AllUnbroken(lines: seq<string>) { forall i :: 0 <= i < |lines| ==> NoBreaks(lines[i]) }

  lemma AllUnbrokenAppend(a: seq<string>, b: seq<string>)
    requires AllUnbroken(a) && AllUnbroken(b)
    ensures AllUnbroken(a + b)
  {
    hide NoBreaks;
  }

  lemma {:induction false} UpdatedLinesHaveNoBreaks(lines: seq<string>, updates: map<string, string>,
                                                    retire: set<string>, stamp: string)
    requires UsableUpdates(updates) && NoBreaks(stamp) && AllUnbroken(lines)
    ensures AllUnbroken(UpdateLines(lines, updates, retire, stamp))
    decreases lines
  {
    hide UpdateLine, NoBreaks, UsableUpdates;
    if lines != [] {
      var last := |lines| - 1;
      UpdatedLinesHaveNoBreaks(lines[..last], updates, retire, stamp);
      UpdatedLineHasNoBreaks(lines[last], updates, retire, stamp);
      AllUnbrokenAppend(UpdateLines(lines[..last], updates, retire, stamp),
                        [UpdateLine(lines[last], updates, retire, stamp)]);
    }
  }

  lemma {:induction false} AdditionsHaveNoBreaks(order: seq<string>, updates: map<string, string>, seen: set<string>)
    requires UsableUpdates(updates) && forall k :: k in order ==> k in updates
    ensures AllUnbroken(Additions(order, updates, seen))
    decreases order
  {
    hide NoBreaks, IsKey, Render;
    if order != [] {
      var last := |order| - 1;
      var key := order[last];
      assert key in order;
      AdditionsHaveNoBreaks(order[..last], updates, seen);
      KeyHasNoBreaks(key);
      RenderedHasNoBreaks(key, updates[key]);
      AllUnbrokenAppend(Additions(order[..last], updates, seen), [Render(key, updates[key])]);
    }
  }

  lemma HeaderLoads(header: string)
    requires header != "" && header[0] == '#' && NoBreaks(header)
    ensures Load(["", header], CleanMatrix) == map[] && AllUnbroken(["", header])
  {
    assert ParseLine("", CleanMatrix).None? by { StripEmpty(); }
    CommentHasNoBinding(header, CleanMatrix);
    assert NoBreaks("");
    hide ParseLine, Load, NoBreaks, CleanMatrix;
    LoadOne("", CleanMatrix);
    LoadOne(header, CleanMatrix);
    LoadAppend([""], [header], CleanMatrix);
    assert ["", header] == [""] + [header];
  }

  /**
   Rewriting the file is a map update: what it loads to afterwards is what it loaded to before, less the
   retired keys, overridden by the updates as a reader cleans them. Only the empty key cannot be retired.
   */
  lemma UpdateIsMapUpdate(lines: seq<string>, updates: map<string, string>, order: seq<string>, retire: set<string>,
                          stamp: string, header: string)
    requires UsableUpdates(updates) && NoBreaks(stamp) && NoBreaks(header) && header != "" && header[0] == '#'
    requires (forall k :: k in order <==> k in updates) && AllUnbroken(lines)
    ensures var text := JoinLines(UpdateLines(lines, updates, retire, stamp) + ["", header]
                                  + Additions(order, updates, Seen(lines, updates, retire)));
      Load(SplitLines(text), CleanMatrix) == (Load(lines, CleanMatrix) - (retire - {""})) + Cleaned(updates)
  {
    var out := UpdateLines(lines, updates, retire, stamp);
    var seen := Seen(lines, updates, retire);
    var additions := Additions(order, updates, seen);
    assert "" !in updates by { assert !IsKey(""); }
    hide UsableUpdates, Seen, Additions, UpdateLines, Load, SplitLines, JoinLines, NoBreaks, Effect, Added, Cleaned;
    UpdatedLinesHaveNoBreaks(lines, updates, retire, stamp);
    AdditionsHaveNoBreaks(order, updates, seen);
    HeaderLoads(header);
    AllUnbrokenAppend(out, ["", header]);
    AllUnbrokenAppend(out + ["", header], additions);
    hide ParseLine;
    SplitJoin(out + ["", header] + additions);
    UpdatedLinesLoad(lines, updates, retire, stamp);
    SeenAreUpdatedKeys(lines, updates, retire);
    AdditionsLoad(order, updates, seen);
    LoadAppend(out + ["", header], additions, CleanMatrix);
    LoadAppend(out, ["", header], CleanMatrix);
    AddedComplete(Load(lines, CleanMatrix), updates, order, retire, seen);
  }

  /** For values a reader keeps as they are, the updates arrive literally. */
  lemma CleanUpdatesArriveLiterally(updates: map<string, string>)
    requires forall k :: k in updates ==> IsTrimmed(updates[k], IsSpace) && IsTrimmed(updates[k], IsDoubleQuote)
    ensures Cleaned(updates) == updates
  {
    hide CleanMatrix, IsSpace;
    forall k | k in updates ensures CleanMatrix(updates[k]) == updates[k] {
      CleanValueIsKept(updates[k]);
    }
  }

  // --------------------------------------------- write_env_value (key rotation)

  predicate Assigns(line: string, key: string) { StartsWith(Strip(line), key + "=") }

  function FirstFrom(lines: seq<string>, p: string -> bool, start: nat): (i: nat)
    requires start <= |lines|
    ensures start <= i <= |lines| && (i < |lines| ==> p(lines[i]))
    ensures forall j :: start <= j < i ==> !p(lines[j])
    decreases |lines| - start
  {
    if start == |lines| || p(lines[start]) then start else FirstFrom(lines, p, start + 1)
  }

  /** The first line that assigns the key without a space before the equals sign. */
  function Target(lines: seq<string>, key: string): (i: nat)
    ensures i <= |lines| && (i < |lines| ==> Assigns(lines[i], key))
    ensures forall j :: 0 <= j < i ==> !Assigns(lines[j], key)
  {
    hide Assigns;
    FirstFrom(lines, line => Assigns(line, key), 0)
  }

  function WriteLines(lines: seq<string>, key: string, value: string): seq<string> {
    var i := Target(lines, key);
    if i < |lines| then lines[i := Render(key, value)] else lines + [Render(key, value)]
  }

  method ComputeWriteLines(lines: seq<string>, key: string, value: string) returns (out: seq<string>)
    ensures out == WriteLines(lines, key, value)
  {
    hide Assigns, Render;
    for i := 0 to |lines|
      invariant forall j :: 0 <= j < i ==> !Assigns(lines[j], key)
    {
      if Assigns(lines[i], key) {
        return lines[i := Render(key, value)];
      }
    }
    out := lines + [Render(key, value)];
  }

  lemma PrefixSplits(s: string, key: string)
    requires StartsWith(s, key + "=") && '=' !in key
    ensures Find(s, '=') == |key| < |s| && s[..|key|] == key
  {
    var prefix := key + "=";
    assert prefix[|key|] == '=' && s[|key|] == s[..|prefix|][|key|];
    assert forall i :: 0 <= i < |key| ==> prefix[i] == key[i] && s[i] == s[..|prefix|][i];
  }

  lemma AssigningLineBinds(line: string, key: string, clean: string -> string)
    requires IsKey(key) && Assigns(line, key)
    ensures ParseLine(line, clean).Some? && ParseLine(line, clean).value.key == key
  {
    TrimOfTrimmed(key, IsSpace);
    PrefixSplits(Strip(line), key);
    hide Trim, IsSpace, StartsWith, Find;
    assert Strip(line)[0] == Strip(line)[..|key|][0];
  }

  /** The key's bindings after the line that is rewritten. */
  function Rebound(lines: seq<string>, key: string, clean: string -> string): map<string, string> {
    var i := Target(lines, key);
    if i < |lines| then Load(lines[i + 1..], clean) else map[]
  }

  lemma ReplacedLineLoads(lines: seq<string>, i: nat, line: string, key: string, clean: string -> string)
    requires i < |lines|
    requires ParseLine(lines[i], clean).Some? && ParseLine(lines[i], clean).value.key == key
    requires ParseLine(line, clean).Some? && ParseLine(line, clean).value.key == key
    ensures var later, after := Load(lines[i + 1..], clean), Load(lines[i := line], clean);
      && key in after && after[key] == (if key in later then later[key] else ParseLine(line, clean).value.value)
      && after - {key} == Load(lines, clean) - {key}
  {
    hide ParseLine, Load;
    var before, rest := lines[..i], lines[i + 1..];
    var was := lines[i];
    assert lines == before + [was] + rest && lines[i := line] == before + [line] + rest;
    LoadOne(was, clean);
    LoadOne(line, clean);
    LoadAppend(before + [line], rest, clean);
    LoadAppend(before, [line], clean);
    LoadAppend(before + [was], rest, clean);
    LoadAppend(before, [was], clean);
  }

  /**
   What the file yields for the key after writing it: the new value, unless a later line binds the key again.
   All other keys read as before.
   */
  lemma WrittenValueIsRead(lines: seq<string>, key: string, value: string, clean: string -> string)
    requires IsKey(key) && DependsOnStrip(clean)
    ensures var after := Load(WriteLines(lines, key, value), clean);
      var later := Rebound(lines, key, clean);
      && key in after && after[key] == (if key in later then later[key] else clean(value))
      && after - {key} == Load(lines, clean) - {key}
  {
    hide ParseLine, Render, Assigns, Load, IsKey, DependsOnStrip;
    var i := Target(lines, key);
    var line := Render(key, value);
    RenderedLineParses(key, value, clean);
    LoadOne(line, clean);
    if i < |lines| {
      AssigningLineBinds(lines[i], key, clean);
      ReplacedLineLoads(lines, i, line, key, clean);
    } else {
      hide Target;
      LoadAppend(lines, [line], clean);
    }
  }

  predicate BindsKey(line: string, key: string, clean: string -> string) {
    ParseLine(line, clean).Some? && ParseLine(line, clean).value.key == key
  }

  /** At most one line binds the key. */
  predicate BoundAtMostOnce(lines: seq<string>, key: string, clean: string -> string) {
    forall i, j | 0 <= i < j < |lines| :: !(BindsKey(lines[i], key, clean) && BindsKey(lines[j], key, clean))
  }

  lemma {:induction false} NotBoundNotLoaded(lines: seq<string>, key: string, clean: string -> string)
    requires forall j | 0 <= j < |lines| :: !BindsKey(lines[j], key, clean)
    ensures key !in Load(lines, clean)
    decreases lines
  {
    hide ParseLine;
    if lines != [] {
      NotBoundNotLoaded(lines[..|lines| - 1], key, clean);
    }
  }

  /** With at most one binding of the key in the file, the written value is the one that is read. */
  lemma SingleBindingIsReplaced(lines: seq<string>, key: string, value: string, clean: string -> string)
    requires IsKey(key) && DependsOnStrip(clean) && BoundAtMostOnce(lines, key, clean)
    ensures var after := Load(WriteLines(lines, key, value), clean); key in after && after[key] == clean(value)
  {
    hide ParseLine, Assigns, IsKey, DependsOnStrip, Load, WriteLines;
    var i := Target(lines, key);
    if i < |lines| {
      AssigningLineBinds(lines[i], key, clean);
      NotBoundNotLoaded(lines[i + 1..], key, clean);
    }
    WrittenValueIsRead(lines, key, value, clean);
  }

  // ------------------------------------------------------------------- examples

  /** Of two bindings only the first is rewritten, and the second is read. */
  lemma SecondBindingShadows(key: string, first: string, second: string, value: string, clean: string -> string)
    requires IsKey(key) && DependsOnStrip(clean) && Assigns(first, key)
    ensures var after := Load(WriteLines([first, Render(key, second)], key, value), clean);
            key in after && after[key] == clean(second)
  {
    hide Render, Assigns, IsKey, ParseLine, DependsOnStrip, Load, WriteLines;
    var lines, line := [first, Render(key, second)], Render(key, second);
    RenderedLineParses(key, second, clean);
    WrittenValueIsRead(lines, key, value, clean);
    assert Target(lines, key) == 0 by { assert lines[0] == first; }
    assert lines[1..] == [line];
    LoadOne(line, clean);
  }

  lemma ExampleKey()
    ensures IsKey("K") && Render("K", "b") == "K=b"
  {
  }

  lemma ExampleAssigns()
    ensures Assigns("K=a", "K")
  {
    assert IsTrimmed("K=a", IsSpace);
    TrimOfTrimmed("K=a", IsSpace);
    hide Trim, IsSpace;
    assert "K=a"[..2] == "K" + "=";
  }

  lemma ExampleValue()
    ensures CleanRotate("b") == "b"
  {
    hide CleanRotate, CleanMatrix;
    CleanValueIsKept("b");
  }

  lemma SecondBindingShadowsHere()
    ensures var after := Load(WriteLines(["K=a", "K=b"], "K", "c"), CleanRotate); "K" in after && after["K"] == "b"
  {
    CleanersDependOnStrip();
    ExampleKey();
    ExampleAssigns();
    ExampleValue();
    hide *;
    SecondBindingShadows("K", "K=a", "b", "c", CleanRotate);
  }

  lemma ExampleStripped()
    ensures Strip("=a") == "=a" && Strip("") == ""
  {
    assert IsTrimmed("=a", IsSpace);
    hide IsSpace;
    TrimOfTrimmed("=a", IsSpace);
    StripEmpty();
  }

  lemma ExampleEmptyKey()
    ensures KeyOf("=a") == Some("")
  {
    ExampleStripped();
    hide Strip, CleanMatrix;
    assert Find("=a", '=') == 0 && "=a"[..0] == "" && "=a"[0] == '=';
  }

  /** A line with the empty key stays as it is, although that key is retired. */
  lemma EmptyKeyIsNotRetired(stamp: string)
    ensures KeyOf("=a") == Some("") && UpdateLines(["=a"], map[], {""}, stamp) == ["=a"]
  {
    ExampleEmptyKey();
    hide KeyOf;
    assert ["=a"][..0] == [];
    assert UpdateLines([], map[], {""}, stamp) == [];
  }

  // --------------------------------------------------------- line by line

  const BREAKS := ['\n', '\U{b}', '\U{c}', '\r', '\U{1c}', '\U{1d}', '\U{1e}', '\U{85}', '\U{2028}', '\U{2029}']

  lemma BreaksAre(c: char)
    ensures IsBreak(c) <==> c in BREAKS
  {
  }

  lemma FirstBreakIs(line: string, tail: string)
    requires NoBreaks(line) && (tail == "" || IsBreak(tail[0]))
    ensures FirstBreak(line + tail) == |line|
  {
    var s := line + tail;
    var n := FirstBreak(s);
    assert tail != "" ==> s[|line|] == tail[0];
    assert forall i :: 0 <= i < |line| ==> s[i] == line[i];
    assert forall i :: 0 <= i < n ==> !IsBreak(s[..n][i]) && s[..n][i] == s[i];
  }

  /** Each break ends a line, a carriage return takes a line feed behind it along, and the last line needs none. */
  lemma SplitLinesCuts(line: string, c: char, rest: string)
    requires NoBreaks(line) && c in BREAKS
    ensures SplitLines(line) == if line == "" then [] else [line]
    ensures SplitLines(line + "\r\n" + rest) == [line] + SplitLines(rest)
    ensures !(c == '\r' && rest != "" && rest[0] == '\n') ==>
      SplitLines(line + [c] + rest) == [line] + SplitLines(rest)
  {
    BreaksAre(c);
    FirstBreakIs(line, "");
    FirstBreakIs(line, "\r\n" + rest);
    FirstBreakIs(line, [c] + rest);
    hide IsBreak, NoBreaks, FirstBreak, BREAKS;
    assert line + "" == line;
    var two, one := line + ("\r\n" + rest), line + ([c] + rest);
    assert two == line + "\r\n" + rest && one == line + [c] + rest;
    assert two[|line|] == '\r' && two[|line| + 1] == '\n' && two[..|line|] == line && two[|line| + 2..] == rest;
    assert one[|line|] == c && one[..|line|] == line && one[|line| + 1..] == rest;
    assert rest != "" ==> one[|line| + 1] == rest[0];
  }

  lemma StartsWithHash(s: string)
    ensures StartsWith(s, "#") <==> s != "" && s[0] == '#'
  {
    assert s != "" ==> s[..1] == [s[0]];
  }

  lemma CutAtFirst(s: string, before: string, after: string)
    ensures s == before + ("=" + after) && '=' !in before <==>
      '=' in s && before == s[..Find(s, '=')] && after == s[Find(s, '=') + 1..]
  {
    var e := Find(s, '=');
    if s == before + ("=" + after) && '=' !in before {
      assert s[|before|] == '=';
      assert forall i :: 0 <= i < |before| ==> s[i] == before[i];
      assert e == |before|;
    }
  }

  /** A line binds what stands before its first equals sign, stripped, to what follows, unless it is a comment. */
  lemma ParsedIff(line: string, clean: string -> string, key: string, value: string)
    ensures ParseLine(line, clean) == Some(Binding(key, value)) <==>
      && !StartsWith(Strip(line), "#")
      && exists before: string, after: string ::
        && Strip(line) == before + ("=" + after) && '=' !in before
        && key == Strip(before) && value == clean(after)
    ensures ParseLine(line, clean) == None <==> StartsWith(Strip(line), "#") || '=' !in Strip(line)
  {
    var s := Strip(line);
    hide Strip;
    StartsWithHash(s);
    forall before: string, after: string
      ensures s == before + ("=" + after) && '=' !in before <==>
        '=' in s && before == s[..Find(s, '=')] && after == s[Find(s, '=') + 1..]
    {
      CutAtFirst(s, before, after);
    }
    hide Find, StartsWith;
  }

  predicate Only(s: string, c: char) { forall i :: 0 <= i < |s| ==> s[i] == c }

  predicate EndsWithout(s: string, c: char) { s != "" ==> s[0] != c && s[|s| - 1] != c }

  /** The platform's reader takes off spaces, then double quotes, each as far as they go. */
  lemma CleanMatrixIs(left: string, opening: string, value: string, closing: string, right: string)
    requires All(left, IsSpace) && All(right, IsSpace) && IsTrimmed(opening + value + closing, IsSpace)
    requires Only(opening, '"') && Only(closing, '"') && EndsWithout(value, '"')
    ensures CleanMatrix(left + (opening + value + closing) + right) == value
  {
    hide Trim, IsSpace;
    TrimUnique(left, opening + value + closing, right, IsSpace);
    TrimUnique(opening, value, closing, IsDoubleQuote);
  }

  /** The rotation's reader takes off single quotes too, once the double ones are gone. */
  lemma CleanRotateIs(left: string, opening: string, inner: string, value: string, outer: string, closing: string,
                      right: string)
    requires var middle := inner + value + outer;
      && All(left, IsSpace) && All(right, IsSpace) && IsTrimmed(opening + middle + closing, IsSpace)
      && Only(opening, '"') && Only(closing, '"') && EndsWithout(middle, '"')
    requires Only(inner, '\'') && Only(outer, '\'') && EndsWithout(value, '\'')
    ensures CleanRotate(left + (opening + (inner + value + outer) + closing) + right) == value
  {
    hide Trim, IsSpace;
    var middle := inner + value + outer;
    TrimUnique(left, opening + middle + closing, right, IsSpace);
    TrimUnique(opening, middle, closing, IsDoubleQuote);
    TrimUnique(inner, value, outer, IsSingleQuote);
  }

  lemma {:induction false} UpdateKeepsCount(lines: seq<string>, updates: map<string, string>, retire: set<string>,
                                            stamp: string)
    ensures |UpdateLines(lines, updates, retire, stamp)| == |lines|
    decreases lines
  {
    hide UpdateLine;
    if lines != [] {
      UpdateKeepsCount(lines[..|lines| - 1], updates, retire, stamp);
    }
  }

  /**
   The updated file line by line: one that binds a retired key is kept as a comment, one that binds an updated key is
   the key with its new value, and every other one, or one that binds the empty key, is as it was.
   */
  lemma {:induction false} UpdatedLineIs(lines: seq<string>, updates: map<string, string>, retire: set<string>,
                                         stamp: string, i: nat)
    requires i < |lines|
    ensures var out, b := UpdateLines(lines, updates, retire, stamp), ParseLine(lines[i], CleanMatrix);
      && |out| == |lines|
      && out[i] ==
        if b.None? || b.value.key == "" then lines[i]
        else if b.value.key in retire then "# [retired by matrix_login.py " + stamp + "] " + lines[i]
        else if b.value.key in updates then b.value.key + "=" + updates[b.value.key]
        else lines[i]
    decreases lines
  {
    var last := |lines| - 1;
    if i < last {
      hide ParseLine, UpdateLine, RETIRE_MARK;
      UpdatedLineIs(lines[..last], updates, retire, stamp, i);
    } else {
      hide ParseLine;
      UpdateKeepsCount(lines[..last], updates, retire, stamp);
    }
  }

  /** The additions are the updates not made in place, as written, in their order. */
  lemma AdditionsAre(order: seq<string>, key: string, updates: map<string, string>, seen: set<string>)
    requires key in updates && forall k :: k in order ==> k in updates
    ensures Additions([], updates, seen) == []
    ensures Additions(order + [key], updates, seen) ==
      Additions(order, updates, seen) + if key in seen then [] else [key + "=" + updates[key]]
  {
    assert (order + [key])[..|order|] == order;
  }

  /** Writing a value changes one line only: the first that, stripped, begins with the key and an equals sign. */
  lemma WrittenLineIs(lines: seq<string>, key: string, value: string, i: nat)
    requires i <= |lines|
    requires forall j :: 0 <= j < i ==> !StartsWith(Strip(lines[j]), key + "=")
    requires i < |lines| ==> StartsWith(Strip(lines[i]), key + "=")
    ensures WriteLines(lines, key, value) ==
      lines[..i] + [key + "=" + value] + if i < |lines| then lines[i + 1..] else []
  {
    hide Strip, StartsWith;
    assert Target(lines, key) == i;
    assert lines[..|lines|] == lines;
  }
}
