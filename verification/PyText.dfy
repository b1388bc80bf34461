/** The Python values and string operations the modelled code relies on, on characters. */
module PyText {

  datatype Option<+T> = None | Some(value: T)

  /** The value of a call, or the fact that it raised. */
  datatype Result<+T> = Ok(value: T) | Raised

  /** A JSON-like value; dictionaries compare by content. */
  datatype Json = Null | Bool(b: bool) | Number(n: real) | Str(s: string)
                | List(items: seq<Json>) | Dict(entries: map<string, Json>)

  /** `str.isspace` for a single character. */
  predicate IsSpace(c: char) {
    || '\t' <= c <= '\r' || '\U{1c}' <= c <= ' ' || c == '\U{85}' || c == '\U{a0}'
    || c == '\U{1680}' || '\U{2000}' <= c <= '\U{200a}' || c == '\U{2028}' || c == '\U{2029}'
    || c == '\U{202f}' || c == '\U{205f}' || c == '\U{3000}'
  }

  /** The line boundaries of `str.splitlines`. */
  predicate IsBreak(c: char) {
    '\n' <= c <= '\r' || '\U{1c}' <= c <= '\U{1e}' || c == '\U{85}' || c == '\U{2028}' || c == '\U{2029}'
  }

  predicate IsDoubleQuote(c: char) { c == '"' }

  predicate IsSingleQuote(c: char) { c == '\'' }

  function TrimLeft(s: string, p: char -> bool): (r: string)
    ensures |r| <= |s| && r == s[|s| - |r|..]
    ensures r != "" ==> !p(r[0])
    ensures forall i :: 0 <= i < |s| - |r| ==> p(s[i])
  {
    if s != "" && p(s[0]) then TrimLeft(s[1..], p) else s
  }

  function TrimRight(s: string, p: char -> bool): (r: string)
    ensures |r| <= |s| && r == s[..|r|]
    ensures r != "" ==> !p(r[|r| - 1])
    ensures forall i :: |r| <= i < |s| ==> p(s[i])
  {
    if s != "" && p(s[|s| - 1]) then TrimRight(s[..|s| - 1], p) else s
  }

  /** `s.strip(chars)`, where `p` holds of exactly the characters to strip. */
  function Trim(s: string, p: char -> bool): string {
    TrimRight(TrimLeft(s, p), p)
  }

  function Strip(s: string): string { Trim(s, IsSpace) }

  const WHITESPACE := ['\t', '\n', '\U{b}', '\U{c}', '\r', '\U{1c}', '\U{1d}', '\U{1e}', '\U{1f}', ' ', '\U{85}',
                       '\U{a0}', '\U{1680}', '\U{2000}', '\U{2001}', '\U{2002}', '\U{2003}', '\U{2004}', '\U{2005}',
                       '\U{2006}', '\U{2007}', '\U{2008}', '\U{2009}', '\U{200a}', '\U{2028}', '\U{2029}', '\U{202f}',
                       '\U{205f}', '\U{3000}']

  lemma SpacesAre(c: char)
    ensures IsSpace(c) <==> c in WHITESPACE
  {
  }

  lemma StripEmpty()
    ensures Strip("") == ""
  {
  }

  predicate IsTrimmed(s: string, p: char -> bool) {
    s != "" ==> !p(s[0]) && !p(s[|s| - 1])
  }

  predicate All(s: string, p: char -> bool) { forall i :: 0 <= i < |s| ==> p(s[i]) }

  lemma {:induction false} TrimLeftUnique(left: string, rest: string, p: char -> bool)
    requires All(left, p) && (rest != "" ==> !p(rest[0]))
    ensures TrimLeft(left + rest, p) == rest
    decreases left
  {
    if left == "" {
      assert left + rest == rest;
    } else {
      assert (left + rest)[0] == left[0] && (left + rest)[1..] == left[1..] + rest;
      TrimLeftUnique(left[1..], rest, p);
    }
  }

  lemma {:induction false} TrimRightUnique(rest: string, right: string, p: char -> bool)
    requires All(right, p) && (rest != "" ==> !p(rest[|rest| - 1]))
    ensures TrimRight(rest + right, p) == rest
    decreases right
  {
    if right == "" {
      assert rest + right == rest;
    } else {
      var s, n := rest + right, |right| - 1;
      assert s[|s| - 1] == right[n] && s[..|s| - 1] == rest + right[..n];
      TrimRightUnique(rest, right[..n], p);
    }
  }

  /** Stripping finds the one way to cut `s` into strippable ends around a trimmed middle. */
  lemma TrimUnique(left: string, middle: string, right: string, p: char -> bool)
    requires All(left, p) && All(right, p) && IsTrimmed(middle, p)
    ensures Trim(left + middle + right, p) == middle
  {
    hide TrimLeft, TrimRight;
    if middle == "" {
      var s := left + middle + right;
      assert s + "" == s && "" + "" == "";
      TrimLeftUnique(s, "", p);
      TrimRightUnique("", "", p);
    } else {
      assert left + middle + right == left + (middle + right);
      TrimLeftUnique(left, middle + right, p);
      TrimRightUnique(middle, right, p);
    }
  }

  lemma CutInThree(s: string, t: string, u: string)
    requires |u| <= |t| <= |s| && t == s[|s| - |t|..] && u == t[..|u|]
    ensures s == s[..|s| - |t|] + u + t[|u|..]
  {
  }

  /** The ends that stripping removes. */
  lemma TrimSplits(s: string, p: char -> bool) returns (left: string, right: string)
    ensures s == left + Trim(s, p) + right && All(left, p) && All(right, p) && IsTrimmed(Trim(s, p), p)
  {
    var t := TrimLeft(s, p);
    var u := TrimRight(t, p);
    left, right := s[..|s| - |t|], t[|u|..];
    assert u != "" ==> t != "" && u[0] == t[0];
    hide TrimLeft, TrimRight;
    CutInThree(s, t, u);
  }

  lemma TrimOfTrimmed(s: string, p: char -> bool)
    requires IsTrimmed(s, p)
    ensures Trim(s, p) == s
  {
    assert "" + s + "" == s;
    TrimUnique("", s, "", p);
  }

  lemma StripTwice(s: string)
    ensures Strip(Strip(s)) == Strip(s)
  {
    hide Trim;
    var left, right := TrimSplits(s, IsSpace);
    TrimOfTrimmed(Strip(s), IsSpace);
  }

  predicate StartsWith(s: string, prefix: string) {
    |prefix| <= |s| && s[..|prefix|] == prefix
  }

  /** The least index of `c` in `s`, or `|s|`. */
  function Find(s: string, c: char): (i: nat)
    ensures i <= |s|
    ensures forall j :: 0 <= j < i ==> s[j] != c
    ensures i < |s| ==> s[i] == c
  {
    if s == "" || s[0] == c then 0 else 1 + Find(s[1..], c)
  }

  /** `s.split(sep)` for a one-character separator. */
  function SplitOn(s: string, sep: char): (parts: seq<string>)
    ensures |parts| > 0
    decreases |s|
  {
    var i := Find(s, sep);
    if i == |s| then [s] else [s[..i]] + SplitOn(s[i + 1..], sep)
  }

  lemma SplitOnOne(field: string, sep: char)
    requires sep !in field
    ensures SplitOn(field, sep) == [field]
  {
    assert Find(field, sep) == |field|;
  }

  lemma SplitOnCons(field: string, rest: string, sep: char)
    requires sep !in field
    ensures SplitOn(field + [sep] + rest, sep) == [field] + SplitOn(rest, sep)
  {
    var s := field + [sep] + rest;
    assert s[|field|] == sep;
    assert forall j :: 0 <= j < |field| ==> s[j] == field[j];
    assert Find(s, sep) == |field|;
    assert s[..|field|] == field && s[|field| + 1..] == rest;
  }

  lemma SplitOnFirst(s: string, sep: char)
    ensures var i := Find(s, sep); SplitOn(s, sep) == if i == |s| then [s] else [s[..i]] + SplitOn(s[i + 1..], sep)
  {
    hide Find;
  }

  lemma {:induction false} SplitOnAppend(s: string, rest: string, sep: char)
    ensures SplitOn(s + [sep] + rest, sep) == SplitOn(s, sep) + SplitOn(rest, sep)
    decreases |s|
  {
    hide Find, SplitOn;
    var i := Find(s, sep);
    SplitOnFirst(s, sep);
    if i == |s| {
      SplitOnCons(s, rest, sep);
    } else {
      var tail := s[i + 1..];
      SplitOnAppend(tail, rest, sep);
      SplitOnCons(s[..i], tail + [sep] + rest, sep);
      assert s + [sep] + rest == s[..i] + [sep] + (tail + [sep] + rest);
      assert [s[..i]] + (SplitOn(tail, sep) + SplitOn(rest, sep)) == [s[..i]] + SplitOn(tail, sep) + SplitOn(rest, sep);
    }
  }

  /** `sep.join(parts)`. */
  function JoinWith(parts: seq<string>, sep: char): string {
    if parts == [] then "" else if |parts| == 1 then parts[0] else parts[0] + [sep] + JoinWith(parts[1..], sep)
  }

  lemma JoinCons(part: string, rest: seq<string>, sep: char)
    requires rest != []
    ensures JoinWith([part] + rest, sep) == part + [sep] + JoinWith(rest, sep)
  {
    assert ([part] + rest)[1..] == rest;
  }

  lemma JoinOne(part: string, sep: char)
    ensures JoinWith([part], sep) == part
  {
  }

  lemma {:induction false} JoinOfSplit(s: string, sep: char)
    ensures JoinWith(SplitOn(s, sep), sep) == s
    decreases |s|
  {
    hide Find, JoinWith;
    var i := Find(s, sep);
    if i < |s| {
      JoinOfSplit(s[i + 1..], sep);
      JoinCons(s[..i], SplitOn(s[i + 1..], sep), sep);
      assert s == s[..i] + [sep] + s[i + 1..];
    } else {
      JoinOne(s, sep);
    }
  }

  lemma {:induction false} SplitOfJoin(parts: seq<string>, sep: char)
    requires parts != [] && forall i :: 0 <= i < |parts| ==> sep !in parts[i]
    ensures SplitOn(JoinWith(parts, sep), sep) == parts
    decreases parts
  {
    if |parts| == 1 {
      SplitOnOne(parts[0], sep);
    } else {
      SplitOnCons(parts[0], JoinWith(parts[1..], sep), sep);
      SplitOfJoin(parts[1..], sep);
    }
  }

  lemma {:induction false} JoinAppend(a: seq<string>, b: seq<string>, sep: char)
    requires a != [] && b != []
    ensures JoinWith(a + b, sep) == JoinWith(a, sep) + [sep] + JoinWith(b, sep)
    decreases a
  {
    assert (a + b)[1..] == a[1..] + b;
    if |a| > 1 {
      JoinAppend(a[1..], b, sep);
    }
  }

  /** A field free of the separator that follows it is determined by the string it starts. */
  lemma FirstField(a: string, x: string, b: string, y: string, sep: char)
    requires sep !in a && sep !in b && a + ([sep] + x) == b + ([sep] + y)
    ensures a == b && x == y
  {
    var s, t := a + ([sep] + x), b + ([sep] + y);
    assert s[|a|] == sep && t[|b|] == sep;
    assert forall i :: 0 <= i < |a| ==> s[i] == a[i];
    assert forall i :: 0 <= i < |b| ==> t[i] == b[i];
    assert |a| == |b|;
    assert a == s[..|a|] && b == t[..|b|] && x == s[|a| + 1..] && y == t[|b| + 1..];
  }

  /** One free of the separator before it is determined by the string it ends. */
  lemma LastField(a: string, x: string, b: string, y: string, sep: char)
    requires sep !in x && sep !in y && a + ([sep] + x) == b + ([sep] + y)
    ensures a == b && x == y
  {
    var s, t := a + ([sep] + x), b + ([sep] + y);
    assert s[|a|] == sep && t[|b|] == sep;
    assert forall i :: |a| < i < |s| ==> s[i] == x[i - |a| - 1];
    assert forall i :: |b| < i < |t| ==> t[i] == y[i - |b| - 1];
    assert |a| == |b|;
    assert a == s[..|a|] && b == t[..|b|] && x == s[|a| + 1..] && y == t[|b| + 1..];
  }
}
