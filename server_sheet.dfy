/** The server's copy of a stylesheet (lib/sheet.js): an ordered list of
    rules whose position is their only identity, built from the rule texts a
    browser reports; the positional differencer `getRulesDiff`; and the CSS
    renderer `getCSSText`. */
module ServerSheet {
  import opened Js

  /** A rule `{selectorText, style}`. `index` is the tag `getRulesDiff`
      writes onto a rule it reports as new. */
  datatype CssRule = CssRule(selectorText: string, style: Style, index: Option<nat>)

  /** The `selectorText` field of a changed-rule entry: absent, `null`, or the new text. */
  datatype SelectorDiff = Unchanged | Null | Text(text: string)

  /** One entry of the list `getRulesDiff` returns. */
  datatype DiffEntry =
    | Changed(index: nat, selectorText: SelectorDiff, style: Style)  // `{index, selectorText?, style}`
    | Added(rule: CssRule)                                           // the new rule itself, tagged
    | Removed(index: nat)                                            // `{index, remove: true}`

  // ---------------------------------------------------------------------
  // JavaScript string operations used by the array branch of the constructor

  /** A character that `\s` matches in a JavaScript regular expression. */
  predicate IsSpace(c: char) {
    c == ' ' || c == '\t' || c == '\n' || c == '\U{B}' || c == '\U{C}' || c == '\r'
    || c == '\U{A0}' || c == '\U{1680}' || ('\U{2000}' <= c <= '\U{200A}')
    || c == '\U{2028}' || c == '\U{2029}' || c == '\U{202F}' || c == '\U{205F}'
    || c == '\U{3000}' || c == '\U{FEFF}'
  }

  /** A character that the regular-expression `.` does not match. */
  predicate IsLineTerminator(c: char) {
    c == '\n' || c == '\r' || c == '\U{2028}' || c == '\U{2029}'
  }

  /** `s` is whitespace followed by `v`. */
  predicate SpacesThen(s: string, v: string) {
    |v| <= |s| && v == s[|s| - |v|..] && forall k :: 0 <= k < |s| - |v| ==> IsSpace(s[k])
  }

  /** What is left of `s` once a greedy `\s*` has consumed its leading whitespace. */
  function DropSpaces(s: string): (r: string)
    ensures SpacesThen(s, r)
    ensures r == [] || !IsSpace(r[0])
  {
    if s != [] && IsSpace(s[0]) then
      var r := DropSpaces(s[1..]);
      assert forall k :: 1 <= k < |s| - |r| ==> s[k] == s[1..][k - 1];
      r
    else s
  }

  /** `s.indexOf(c)`: the first position of `c`, or -1. */
  function IndexOf(s: string, c: char): (r: int)
    ensures -1 <= r < |s|
    ensures r >= 0 ==> s[r] == c
    ensures forall k :: 0 <= k < |s| && (r < 0 || k < r) ==> s[k] != c
  {
    if s == [] then -1
    else if s[0] == c then 0
    else
      var r := IndexOf(s[1..], c);
      if r == -1 then -1 else r + 1
  }

  /** `s.lastIndexOf(c)`: the last position of `c`, or -1. */
  function LastIndexOf(s: string, c: char): (r: int)
    ensures -1 <= r < |s|
    ensures r >= 0 ==> s[r] == c
    ensures forall k :: r < k < |s| ==> s[k] != c
  {
    if s == [] then -1
    else if s[|s| - 1] == c then |s| - 1
    else LastIndexOf(s[..|s| - 1], c)
  }

  /** The position of the first line terminator in `s`, or `|s|`. */
  function LineEnd(s: string): (r: nat)
    ensures r <= |s|
    ensures forall k :: 0 <= k < r ==> !IsLineTerminator(s[k])
    ensures r < |s| ==> IsLineTerminator(s[r])
  {
    if s == [] || IsLineTerminator(s[0]) then 0
    else
      var r := LineEnd(s[1..]);
      assert forall k :: 1 <= k < r + 1 ==> s[k] == s[1..][k - 1];
      r + 1
  }

  function Clamp(x: int, n: nat): (r: nat)
    ensures r <= n
  {
    if x < 0 then 0 else if x > n then n else x
  }

  /** `s.substr(0, length)`. */
  function Substr(s: string, length: int): string {
    s[..Clamp(length, |s|)]
  }

  /** `s.substring(start, end)`: both ends clamped to the string and put in order. */
  function Substring(s: string, start: int, end: int): string {
    var a, b := Clamp(start, |s|), Clamp(end, |s|);
    if a <= b then s[a..b] else s[b..a]
  }

  /** No character of `s` is `c`. */
  predicate Lacks(s: string, c: char) {
    forall j :: 0 <= j < |s| ==> s[j] != c
  }

  lemma ConsLacks(first: string, rest: seq<string>, sep: char)
    requires Lacks(first, sep)
    requires forall k :: 0 <= k < |rest| ==> Lacks(rest[k], sep)
    ensures forall k :: 0 <= k < |[first] + rest| ==> Lacks(([first] + rest)[k], sep)
  {
    forall k | 0 <= k < |[first] + rest|
      ensures Lacks(([first] + rest)[k], sep)
    {
      if k > 0 {
        assert ([first] + rest)[k] == rest[k - 1];
      }
    }
  }

  /** `s.split(/<sep>\s*&#47;)`: the pieces between separators, where a
      separator takes the whitespace after it along. */
  function Split(s: string, sep: char): (r: seq<string>)
    ensures |r| >= 1
    ensures forall k :: 0 <= k < |r| ==> Lacks(r[k], sep)
    decreases |s|
  {
    var i := IndexOf(s, sep);
    if i < 0 then [s]
    else
      var first := s[..i];
      assert Lacks(first, sep) by {
        assert forall j :: 0 <= j < i ==> first[j] == s[j];
      }
      var rest := Split(DropSpaces(s[i + 1..]), sep);
      ConsLacks(first, rest, sep);
      [first] + rest
  }

  /** No piece after the first starts with whitespace. */
  predicate LaterTrimmed(pieces: seq<string>) {
    forall k :: 1 <= k < |pieces| ==> pieces[k] == [] || !IsSpace(pieces[k][0])
  }

  /** The first piece is a prefix of the text. */
  lemma SplitHead(s: string, sep: char)
    ensures Split(s, sep)[0] == [] || (s != [] && Split(s, sep)[0][0] == s[0])
  {
  }

  /** Splitting at a separator found at `i`: the piece before it, then
      the pieces of what follows the separator and its whitespace. */
  lemma SplitFound(s: string, sep: char)
    requires IndexOf(s, sep) >= 0
    ensures var i := IndexOf(s, sep);
      Split(s, sep) == [s[..i]] + Split(DropSpaces(s[i + 1..]), sep)
  {
  }

  lemma ConsTrimmed(r: seq<string>, first: string, rest: seq<string>)
    requires r == [first] + rest
    requires rest != [] && LaterTrimmed(rest) && (rest[0] == [] || !IsSpace(rest[0][0]))
    ensures LaterTrimmed(r)
  {
    forall k | 1 <= k < |r|
      ensures r[k] == [] || !IsSpace(r[k][0])
    {
      assert r[k] == rest[k - 1];
    }
  }

  lemma SplitMissing(s: string, sep: char)
    requires IndexOf(s, sep) < 0
    ensures LaterTrimmed(Split(s, sep))
  {
    assert Split(s, sep) == [s];
  }

  lemma SplitShorter(s: string, sep: char)
    requires IndexOf(s, sep) >= 0
    ensures |DropSpaces(s[IndexOf(s, sep) + 1..])| < |s|
  {
  }

  lemma SplitTrimmedStep(s: string, sep: char)
    requires IndexOf(s, sep) >= 0
    requires LaterTrimmed(Split(DropSpaces(s[IndexOf(s, sep) + 1..]), sep))
    ensures LaterTrimmed(Split(s, sep))
  {
    var i := IndexOf(s, sep);
    var t := DropSpaces(s[i + 1..]);
    SplitHead(t, sep);
    SplitFound(s, sep);
    ConsTrimmed(Split(s, sep), s[..i], Split(t, sep));
  }

  /** A separator takes the whitespace after it along, so no piece after
      the first starts with whitespace. */
  lemma {:induction false} SplitTrimmed(s: string, sep: char)
    ensures LaterTrimmed(Split(s, sep))
    decreases |s|
  {
    if IndexOf(s, sep) >= 0 {
      var t := DropSpaces(s[IndexOf(s, sep) + 1..]);
      SplitShorter(s, sep);
      SplitTrimmed(t, sep);
      SplitTrimmedStep(s, sep);
    } else {
      SplitMissing(s, sep);
    }
  }

  /** `pieces.filter(Boolean)`: the non-empty pieces, in order. */
  function NonEmpty(pieces: seq<string>): (r: seq<string>)
    ensures forall k :: 0 <= k < |r| ==> r[k] != "" && r[k] in pieces
  {
    if pieces == [] then []
    else
      var rest := NonEmpty(pieces[1..]);
      var r := (if pieces[0] == "" then [] else [pieces[0]]) + rest;
      assert forall k :: 0 <= k < |rest| ==> rest[k] in pieces;
      r
  }

  /** Only the first non-empty piece can come from the first piece. */
  lemma NonEmptyTrimmed(pieces: seq<string>)
    requires pieces != [] && LaterTrimmed(pieces)
    ensures LaterTrimmed(NonEmpty(pieces))
  {
    var rest := NonEmpty(pieces[1..]);
    var r := NonEmpty(pieces);
    assert r == (if pieces[0] == "" then [] else [pieces[0]]) + rest;
    forall k | 0 <= k < |rest|
      ensures rest[k] == [] || !IsSpace(rest[k][0])
    {
      assert rest[k] in pieces[1..];
      var j :| 0 <= j < |pieces[1..]| && pieces[1..][j] == rest[k];
      assert pieces[j + 1] == rest[k];
    }
  }

  /** A list with no empty piece passes the filter unchanged. */
  lemma {:induction false} NonEmptyKeeps(pieces: seq<string>)
    requires forall k :: 0 <= k < |pieces| ==> pieces[k] != ""
    ensures NonEmpty(pieces) == pieces
    decreases |pieces|
  {
    if pieces != [] {
      NonEmptyKeeps(pieces[1..]);
      assert pieces == [pieces[0]] + pieces[1..];
    }
  }

  /** `declaration.match(/^(.*):\s*(.*)$/)`, as `{m[1]: m[2]}`. The greedy
      first group ends at the last colon before the first line terminator;
      the second group is the rest after the whitespace, and must hold no
      line terminator. */
  function MatchDeclaration(d: string): Option<Decl> {
    var colon := LastIndexOf(d[..LineEnd(d)], ':');
    if colon < 0 then None
    else
      var value := DropSpaces(d[colon + 1..]);
      if LineEnd(value) < |value| then None
      else Some(Decl(d[..colon], value))
  }

  /** No character of `s` is a line terminator. */
  predicate OneLine(s: string) {
    forall k :: 0 <= k < |s| ==> !IsLineTerminator(s[k])
  }

  /** `d` is `p`, a colon, nothing but whitespace, then `v`. */
  predicate SplitAt(d: string, p: string, v: string) {
    && |p| + 1 + |v| <= |d|
    && d[..|p|] == p && d[|p|] == ':' && d[|d| - |v|..] == v
    && (forall k :: |p| < k < |d| - |v| ==> IsSpace(d[k]))
  }

  /** Cutting at a colon and letting `\s*` consume what follows it. */
  lemma SpacesAfter(d: string, i: nat, v: string)
    requires i < |d| && d[i] == ':'
    requires SpacesThen(d[i + 1..], v)
    ensures SplitAt(d, d[..i], v)
  {
    var rest := d[i + 1..];
    assert d[|d| - |v|..] == v by {
      assert d[|d| - |v|..] == rest[|rest| - |v|..];
    }
    forall k | i < k < |d| - |v|
      ensures IsSpace(d[k])
    {
      assert d[k] == rest[k - i - 1];
    }
  }

  lemma MatchDeclarationShape(d: string)
    requires MatchDeclaration(d).Some?
    ensures SplitAt(d, MatchDeclaration(d).value.property, MatchDeclaration(d).value.value)
  {
    var line := d[..LineEnd(d)];
    var colon := LastIndexOf(line, ':');
    assert d[colon] == ':' by {
      assert line[colon] == d[colon];
    }
    var v := DropSpaces(d[colon + 1..]);
    assert MatchDeclaration(d).value == Decl(d[..colon], v);
    SpacesAfter(d, colon, v);
  }

  lemma PrefixOneLine(d: string, c: nat)
    requires c <= LineEnd(d)
    ensures OneLine(d[..c])
  {
    assert forall k :: 0 <= k < c ==> d[..c][k] == d[k];
  }

  lemma MatchedPropertyOneLine(d: string)
    requires MatchDeclaration(d).Some?
    ensures OneLine(MatchDeclaration(d).value.property)
  {
    var colon := LastIndexOf(d[..LineEnd(d)], ':');
    assert MatchDeclaration(d).value.property == d[..colon];
    PrefixOneLine(d, colon);
  }

  /** The greedy group ends at the last colon of the first line. */
  lemma MatchedLastColon(d: string)
    requires MatchDeclaration(d).Some?
    ensures var n := |MatchDeclaration(d).value.property|;
      n < LineEnd(d) && Lacks(d[n + 1..LineEnd(d)], ':')
  {
    var line := d[..LineEnd(d)];
    var colon := LastIndexOf(line, ':');
    assert MatchDeclaration(d).value.property == d[..colon];
    assert forall k :: colon < k < |line| ==> line[k] == d[k];
    var tail := d[colon + 1..LineEnd(d)];
    assert forall j :: 0 <= j < |tail| ==> tail[j] == line[colon + 1 + j];
  }

  /** A match splits the declaration at the last colon of its first line:
      the property before it, on that line; the whitespace `\s*` consumed;
      and a value that starts with no whitespace and holds no line
      terminator. */
  lemma MatchDeclarationSplits(d: string)
    requires MatchDeclaration(d).Some?
    ensures var m := MatchDeclaration(d).value;
      && SplitAt(d, m.property, m.value)
      && OneLine(m.property) && OneLine(m.value)
      && (m.value == [] || !IsSpace(m.value[0]))
      && |m.property| < LineEnd(d) && Lacks(d[|m.property| + 1..LineEnd(d)], ':')
  {
    MatchDeclarationShape(d);
    MatchedPropertyOneLine(d);
    MatchedLastColon(d);
  }

  lemma JoinedOneLine(p: string, v: string)
    requires OneLine(p) && OneLine(v)
    ensures OneLine(p + ": " + v)
  {
    var d := p + ": " + v;
    forall k | 0 <= k < |d| ensures !IsLineTerminator(d[k]) {
      if k < |p| { assert d[k] == p[k]; }
      else if k >= |p| + 2 { assert d[k] == v[k - |p| - 2]; }
    }
  }

  lemma JoinedColon(p: string, v: string)
    requires Lacks(v, ':')
    ensures LastIndexOf(p + ": " + v, ':') == |p|
  {
    var pre := p + ": ";
    var d := pre + v;
    assert d[|p|] == ':';
  }

  lemma LineEndOneLine(s: string)
    requires OneLine(s)
    ensures LineEnd(s) == |s|
  {
  }

  lemma DropLeadingSpace(v: string)
    requires v == [] || !IsSpace(v[0])
    ensures DropSpaces(" " + v) == v
  {
    assert (" " + v)[1..] == v;
  }

  /** The parts of `p + ": " + v` that `MatchDeclaration` takes apart. */
  lemma JoinedParts(p: string, v: string)
    ensures var d := p + ": " + v;
      |d| == |p| + 2 + |v| && d[..|p|] == p && d[|p| + 1..] == " " + v
  {
    var d := p + ": " + v;
    assert d[..|p|] == p;
    assert d[|p| + 1..] == " " + v;
  }

  /** The usual browser text `property: value` matches as expected, for a
      value without colons. */
  lemma MatchDeclarationFinds(p: string, v: string)
    requires Lacks(v, ':')
    requires OneLine(p) && OneLine(v)
    requires v == [] || !IsSpace(v[0])
    ensures MatchDeclaration(p + ": " + v) == Some(Decl(p, v))
  {
    var d := p + ": " + v;
    JoinedOneLine(p, v);
    LineEndOneLine(d);
    assert d[..LineEnd(d)] == d;
    JoinedColon(p, v);
    JoinedParts(p, v);
    DropLeadingSpace(v);
    LineEndOneLine(v);
  }

  /** A value holding a colon is split at that colon instead: the greedy
      group takes `a: x` as the property of `a: x: y`. */
  lemma ColonInValue(d: string)
    requires d == "a: x: y"
    ensures MatchDeclaration(d) == Some(Decl("a: x", "y"))
  {
    var p, v := "a: x", "y";
    assert p + ": " + v == d;
    assert OneLine(p) by {
      assert p[0] == 'a' && p[1] == ':' && p[2] == ' ' && p[3] == 'x';
    }
    MatchDeclarationFinds(p, v);
  }

  /** No value holding a colon is matched as written: the greedy group
      runs on to the value's last colon, so the property comes out longer
      than the one written. */
  lemma GreedyMissplits(p: string, v: string)
    requires OneLine(p) && OneLine(v)
    requires !Lacks(v, ':')
    ensures var m := MatchDeclaration(p + ": " + v);
      m.None? || |m.value.property| > |p|
    ensures MatchDeclaration(p + ": " + v) != Some(Decl(p, v))
  {
    var d := p + ": " + v;
    JoinedOneLine(p, v);
    LineEndOneLine(d);
    assert d[..LineEnd(d)] == d;
    var j :| 0 <= j < |v| && v[j] == ':';
    assert d[|p| + 2 + j] == ':';
    var c := LastIndexOf(d, ':');
    assert c >= |p| + 2 + j;
  }

  /** The match as the lazy `(.*?):` of `Style.declarationRegexp` in the
      client takes it: the property ends at the first colon of the first
      line. */
  function MatchDeclarationFirst(d: string): Option<Decl> {
    var colon := IndexOf(d[..LineEnd(d)], ':');
    if colon < 0 then None
    else
      var value := DropSpaces(d[colon + 1..]);
      if LineEnd(value) < |value| then None
      else Some(Decl(d[..colon], value))
  }

  lemma FirstColon(p: string, v: string)
    requires Lacks(p, ':')
    ensures IndexOf(p + ": " + v, ':') == |p|
  {
    var d := p + ": " + v;
    assert d[|p|] == ':';
    assert forall k :: 0 <= k < |p| ==> d[k] == p[k];
  }

  /** `property: value` matches as expected whatever colons the value
      holds, for a property without one. */
  lemma MatchFirstFinds(p: string, v: string)
    requires Lacks(p, ':')
    requires OneLine(p) && OneLine(v)
    requires v == [] || !IsSpace(v[0])
    ensures MatchDeclarationFirst(p + ": " + v) == Some(Decl(p, v))
  {
    var d := p + ": " + v;
    JoinedOneLine(p, v);
    LineEndOneLine(d);
    assert d[..LineEnd(d)] == d;
    FirstColon(p, v);
    JoinedParts(p, v);
    DropLeadingSpace(v);
    LineEndOneLine(v);
  }

  /** The match of each declaration text, in order. */
  function Matches(declarations: seq<string>): seq<Option<Decl>> {
    seq(|declarations|, k requires 0 <= k < |declarations| => MatchDeclaration(declarations[k]))
  }

  /** One declaration's effect on the style object: a match assigns its
      property, a non-match changes nothing. */
  function Next(prior: Style, m: Option<Decl>): Style {
    match m
    case None => prior
    case Some(d) =>
      AssignDistinct(prior, d.property, d.value);
      Assign(prior, d.property, d.value)
  }

  /** The style object that the `forEach` over the declaration texts builds
      from their matches: each match assigns its property, in order. */
  function StyleFrom(matches: seq<Option<Decl>>): Style
    decreases |matches|
  {
    if matches == [] then []
    else Next(StyleFrom(matches[..|matches| - 1]), matches[|matches| - 1])
  }

  function StyleOf(declarations: seq<string>): Style {
    StyleFrom(Matches(declarations))
  }

  /** The match names property `p`. */
  predicate Names(m: Option<Decl>, p: string) {
    m.Some? && m.value.property == p
  }

  /** The properties the matches name, by the same prefix recursion. */
  function NamedProperties(matches: seq<Option<Decl>>): set<string>
    decreases |matches|
  {
    if matches == [] then {}
    else
      var m := matches[|matches| - 1];
      NamedProperties(matches[..|matches| - 1]) + (if m.Some? then {m.value.property} else {})
  }

  lemma {:induction false} NamedPropertiesIff(matches: seq<Option<Decl>>, p: string)
    ensures p in NamedProperties(matches) <==> exists k :: 0 <= k < |matches| && Names(matches[k], p)
    decreases |matches|
  {
    if matches != [] {
      var n := |matches| - 1;
      var front := matches[..n];
      NamedPropertiesIff(front, p);
      assert forall k :: 0 <= k < n ==> front[k] == matches[k];
    }
  }

  lemma NextKeys(prior: Style, m: Option<Decl>)
    ensures Keys(Next(prior, m)) == Keys(prior) + (if m.Some? then {m.value.property} else {})
  {
  }

  lemma NextLookup(prior: Style, m: Option<Decl>, p: string)
    ensures Lookup(Next(prior, m), p) == if Names(m, p) then Some(m.value.value) else Lookup(prior, p)
  {
  }

  /** The style built from the matches holds exactly the properties that
      some match names. */
  lemma {:induction false} StyleFromKeys(matches: seq<Option<Decl>>, p: string)
    ensures p in Keys(StyleFrom(matches)) <==> exists k :: 0 <= k < |matches| && Names(matches[k], p)
  {
    StyleFromNamed(matches);
    NamedPropertiesIff(matches, p);
  }

  lemma {:induction false} StyleFromNamed(matches: seq<Option<Decl>>)
    ensures Keys(StyleFrom(matches)) == NamedProperties(matches)
    decreases |matches|
  {
    if matches != [] {
      var n := |matches| - 1;
      StyleFromNamed(matches[..n]);
      NextKeys(StyleFrom(matches[..n]), matches[n]);
    }
  }

  /** A property of the style built from the matches holds the value of the
      last match naming it: later declarations overwrite earlier ones. */
  lemma {:induction false} StyleFromLastWins(matches: seq<Option<Decl>>, p: string, k: nat)
    requires k < |matches| && Names(matches[k], p)
    requires forall j :: k < j < |matches| ==> !Names(matches[j], p)
    ensures Lookup(StyleFrom(matches), p) == Some(matches[k].value.value)
    decreases |matches|
  {
    var n := |matches| - 1;
    var front := matches[..n];
    NextLookup(StyleFrom(front), matches[n], p);
    if k < n {
      assert front[k] == matches[k];
      assert forall j :: k < j < n ==> front[j] == matches[j];
      StyleFromLastWins(front, p, k);
    }
  }

  /** Property `p` sits before property `q`. */
  ghost predicate Before(s: seq<Decl>, p: string, q: string) {
    exists a, b :: 0 <= a < b < |s| && s[a].property == p && s[b].property == q
  }

  lemma NextKeepsBefore(prior: Style, m: Option<Decl>, p: string, q: string)
    requires Before(prior, p, q)
    ensures Before(Next(prior, m), p, q)
  {
    var a, b :| 0 <= a < b < |prior| && prior[a].property == p && prior[b].property == q;
    if m.Some? {
      AssignKeepsPositions(prior, m.value.property, m.value.value);
    }
    var next := Next(prior, m);
    assert next[a].property == p && next[b].property == q;
  }

  lemma NextAppendsAfter(prior: Style, m: Option<Decl>, p: string)
    requires m.Some? && p in Keys(prior) && m.value.property !in Keys(prior)
    ensures Before(Next(prior, m), p, m.value.property)
  {
    var next := Next(prior, m);
    var a :| 0 <= a < |prior| && prior[a].property == p;
    assert next == prior + [m.value];
    assert next[a] == prior[a];
  }

  /** Each property keeps the position of its first declaration: the style
      lists the named properties in the order they were first declared. */
  lemma {:induction false} StyleFromOrder(matches: seq<Option<Decl>>, i: nat, j: nat, p: string, q: string)
    requires i < j < |matches| && Names(matches[j], q)
    requires Names(matches[i], p) && p != q
    requires forall k :: 0 <= k < j ==> !Names(matches[k], q)
    ensures Before(StyleFrom(matches), p, q)
    decreases |matches|
  {
    var n := |matches| - 1;
    var front := matches[..n];
    var prior := StyleFrom(front);
    assert StyleFrom(matches) == Next(prior, matches[n]);
    assert front[i] == matches[i];
    if j < n {
      assert front[j] == matches[j];
      assert forall k :: 0 <= k < j ==> front[k] == matches[k];
      StyleFromOrder(front, i, j, p, q);
      NextKeepsBefore(prior, matches[n], p, q);
    } else {
      StyleFromKeys(front, p);
      StyleFromKeys(front, q);
      assert forall k :: 0 <= k < n ==> front[k] == matches[k];
      NextAppendsAfter(prior, matches[n], p);
    }
  }

  /** The selectors of a browser rule text: what precedes ` {`, split at
      commas, empty pieces dropped. */
  function Selectors(text: string): (r: seq<string>)
    ensures forall k :: 0 <= k < |r| ==> r[k] != "" && Lacks(r[k], ',')
  {
    var pieces := Split(Substr(text, IndexOf(text, '{') - 1), ',');
    var r := NonEmpty(pieces);
    assert forall k :: 0 <= k < |r| ==> r[k] in pieces;
    r
  }

  /** No selector after the first starts with whitespace: the comma took it. */
  lemma SelectorsTrimmed(text: string)
    ensures forall k :: 0 < k < |Selectors(text)| ==> !IsSpace(Selectors(text)[k][0])
  {
    var pieces := Split(Substr(text, IndexOf(text, '{') - 1), ',');
    SplitTrimmed(Substr(text, IndexOf(text, '{') - 1), ',');
    NonEmptyTrimmed(pieces);
  }

  /** The declaration texts of a browser rule text: what lies between `{ ` and
      the final `}`, split at semicolons. */
  function DeclarationTexts(text: string): seq<string> {
    Split(Substring(text, IndexOf(text, '{') + 2, |text| - 1), ';')
  }

  /** The rule the array branch of the constructor builds from one rule text. */
  function RuleFromText(text: string): CssRule {
    CssRule(Join(Selectors(text), ", "), StyleOf(DeclarationTexts(text)), None)
  }

  lemma FirstComma(first: string, tail: string)
    requires Lacks(first, ',')
    ensures IndexOf(first + ", " + tail, ',') == |first|
  {
    var s := first + ", " + tail;
    assert s[|first|] == ',';
    assert forall k :: 0 <= k < |first| ==> s[k] == first[k];
  }

  lemma JoinStart(rest: seq<string>)
    requires rest != [] && (rest[0] == "" || !IsSpace(rest[0][0]))
    ensures Join(rest, ", ") == "" || !IsSpace(Join(rest, ", ")[0])
  {
    if |rest| > 1 {
      JoinCons(rest[0], rest[1..], ", ");
      assert rest == [rest[0]] + rest[1..];
      var t := Join(rest, ", ");
      assert t == rest[0] + (", " + Join(rest[1..], ", "));
      if rest[0] == "" {
        assert t[0] == ',';
      } else {
        assert t[0] == rest[0][0];
      }
    }
  }

  lemma SplitJoinStep(first: string, rest: seq<string>)
    requires rest != [] && Lacks(first, ',')
    requires rest[0] == "" || !IsSpace(rest[0][0])
    ensures Split(Join([first] + rest, ", "), ',') == [first] + Split(Join(rest, ", "), ',')
  {
    JoinCons(first, rest, ", ");
    var tail := Join(rest, ", ");
    var s := first + ", " + tail;
    FirstComma(first, tail);
    assert s[..|first|] == first;
    assert s[|first| + 1..] == " " + tail;
    JoinStart(rest);
    DropLeadingSpace(tail);
  }

  /** Splitting a comma-joined list gives the list back, provided no piece
      holds a comma and no piece after the first starts with whitespace: the
      selector text the constructor joins with `', '` splits back into the
      same selectors. */
  lemma {:induction false} SplitJoin(xs: seq<string>)
    requires xs != []
    requires forall k :: 0 <= k < |xs| ==> Lacks(xs[k], ',')
    requires forall k :: 1 <= k < |xs| ==> xs[k] == "" || !IsSpace(xs[k][0])
    ensures Split(Join(xs, ", "), ',') == xs
    decreases |xs|
  {
    if |xs| > 1 {
      var rest := xs[1..];
      assert xs == [xs[0]] + rest;
      assert rest[0] == xs[1];
      SplitJoinStep(xs[0], rest);
      SplitJoin(rest);
    } else {
      assert Lacks(xs[0], ',');
    }
  }

  /** The selector text the constructor stores splits back, by the same
      `split(/,\s*&#47;).filter(Boolean)`, into the selectors it was joined
      from. */
  lemma SelectorsRoundTrip(text: string)
    ensures var xs := Selectors(text);
      && (xs != [] ==> Split(Join(xs, ", "), ',') == xs)
      && NonEmpty(Split(RuleFromText(text).selectorText, ',')) == xs
  {
    var xs := Selectors(text);
    if xs == [] {
      assert Join(xs, ", ") == "";
      assert Split("", ',') == [""];
    } else {
      SelectorsTrimmed(text);
      SplitJoin(xs);
      NonEmptyKeeps(xs);
    }
  }

  /** The rules the array branch of the constructor builds: one per rule
      text, in order. */
  function RulesFromTexts(texts: seq<string>): seq<CssRule> {
    Map(RuleFromText, texts)
  }

  /** `xs.map(f)`. */
  function Map<A, B>(f: A -> B, xs: seq<A>): (r: seq<B>)
    ensures |r| == |xs|
  {
    seq(|xs|, k requires 0 <= k < |xs| => f(xs[k]))
  }

  lemma MapSnoc<A, B>(f: A -> B, xs: seq<A>, k: nat)
    requires k < |xs|
    ensures Map(f, xs[..k + 1]) == Map(f, xs[..k]) + [f(xs[k])]
  {
    var a, b := Map(f, xs[..k + 1]), Map(f, xs[..k]) + [f(xs[k])];
    forall j | 0 <= j < k + 1
      ensures a[j] == b[j]
    {
      assert xs[..k + 1][j] == xs[j];
      if j < k {
        assert xs[..k][j] == xs[j];
      }
    }
  }

  lemma RulesFromTextsSnoc(texts: seq<string>, k: nat)
    requires k < |texts|
    ensures RulesFromTexts(texts[..k + 1]) == RulesFromTexts(texts[..k]) + [RuleFromText(texts[k])]
  {
    MapSnoc(RuleFromText, texts, k);
  }

  /** One rule per rule text, each built from its own text alone, untagged. */
  lemma RulesFromTextsAt(texts: seq<string>, k: nat)
    requires k < |texts|
    ensures |RulesFromTexts(texts)| == |texts|
    ensures RulesFromTexts(texts)[k] == RuleFromText(texts[k])
    ensures RulesFromTexts(texts)[k].index == None
  {
  }

  // ---------------------------------------------------------------------
  // The differencer

  /** `theirStyle[prop] || ''`: the new value, or the removal sentinel `''`. */
  function NewValue(v: Option<string>): string {
    if v.Some? then v.value else ""
  }

  lemma AppendDisjoint(a: Style, b: Style)
    requires Keys(a) !! Keys(b)
    ensures Distinct(a + b)
    ensures Keys(a + b) == Keys(a) + Keys(b)
  {
    KeysAppend(a, b);
    var t := a + b;
    forall j, k | 0 <= j < k < |t| ensures t[j].property != t[k].property {
      if j < |a| && k >= |a| {
        assert t[j].property in Keys(a);
        assert t[k] == b[k - |a|];
        assert t[k].property in Keys(b);
      } else if j >= |a| {
        assert t[j] == b[j - |a|] && t[k] == b[k - |a|];
      }
    }
  }

  /** The style of a prefix of a style is a style, and misses the next key. */
  lemma PrefixFacts(s: Style, n: nat)
    requires n < |s|
    ensures Distinct(s[..n]) && s[n].property !in Keys(s[..n])
    ensures s[..n + 1] == s[..n] + [s[n]]
  {
    assert forall k :: 0 <= k < n ==> s[..n][k] == s[k];
  }

  /** The first loop over `ourStyle`: each property of `ours` whose value in
      `theirs` differs, in order, with its new value or `''`. */
  function ChangedProperties(ours: seq<Decl>, theirs: seq<Decl>): seq<Decl>
    decreases |ours|
  {
    if ours == [] then []
    else
      var prior := ChangedProperties(ours[..|ours| - 1], theirs);
      var d := ours[|ours| - 1];
      if Lookup(theirs, d.property) != Some(d.value) then
        prior + [Decl(d.property, NewValue(Lookup(theirs, d.property)))]
      else prior
  }

  /** The second loop over `theirStyle`: each property `ours` lacks, in order. */
  function AddedProperties(ours: seq<Decl>, theirs: seq<Decl>): seq<Decl>
    decreases |theirs|
  {
    if theirs == [] then []
    else
      var prior := AddedProperties(ours, theirs[..|theirs| - 1]);
      var d := theirs[|theirs| - 1];
      if d.property !in Keys(ours) then prior + [d] else prior
  }

  /** The changed properties are distinct properties of `ours`. */
  lemma {:induction false} ChangedPropertiesKeys(ours: Style, theirs: Style)
    ensures Distinct(ChangedProperties(ours, theirs))
    ensures Keys(ChangedProperties(ours, theirs)) <= Keys(ours)
    decreases |ours|
  {
    if ours != [] {
      var n := |ours| - 1;
      PrefixFacts(ours, n);
      assert ours[..n + 1] == ours;
      KeysAppend(ours[..n], [ours[n]]);
      KeysCons([ours[n]]);
      ChangedPropertiesKeys(ours[..n], theirs);
      var prior := ChangedProperties(ours[..n], theirs);
      var d := ours[n];
      if Lookup(theirs, d.property) != Some(d.value) {
        AppendFresh(prior, Decl(d.property, NewValue(Lookup(theirs, d.property))));
      }
    }
  }

  /** The added properties are distinct properties of `theirs` that `ours` lacks. */
  lemma {:induction false} AddedPropertiesKeys(ours: Style, theirs: Style)
    ensures Distinct(AddedProperties(ours, theirs))
    ensures Keys(AddedProperties(ours, theirs)) <= Keys(theirs)
    ensures Keys(AddedProperties(ours, theirs)) !! Keys(ours)
    decreases |theirs|
  {
    if theirs != [] {
      var n := |theirs| - 1;
      PrefixFacts(theirs, n);
      assert theirs[..n + 1] == theirs;
      KeysAppend(theirs[..n], [theirs[n]]);
      KeysCons([theirs[n]]);
      AddedPropertiesKeys(ours, theirs[..n]);
      var prior := AddedProperties(ours, theirs[..n]);
      var d := theirs[n];
      if d.property !in Keys(ours) {
        AppendFresh(prior, d);
      }
    }
  }

  lemma StyleDiffDistinct(ours: Style, theirs: Style)
    ensures Distinct(ChangedProperties(ours, theirs) + AddedProperties(ours, theirs))
  {
    ChangedPropertiesKeys(ours, theirs);
    AddedPropertiesKeys(ours, theirs);
    AppendDisjoint(ChangedProperties(ours, theirs), AddedProperties(ours, theirs));
  }

  /** The `style` object of a changed-rule entry. */
  function StyleDiff(ours: Style, theirs: Style): Style {
    StyleDiffDistinct(ours, theirs);
    ChangedProperties(ours, theirs) + AddedProperties(ours, theirs)
  }

  lemma {:induction false} ChangedPropertiesLookup(ours: Style, theirs: Style, p: string)
    ensures Lookup(ChangedProperties(ours, theirs), p) ==
      if p in Keys(ours) && Lookup(theirs, p) != Lookup(ours, p) then Some(NewValue(Lookup(theirs, p))) else None
    decreases |ours|
  {
    if ours != [] {
      var n := |ours| - 1;
      PrefixFacts(ours, n);
      assert ours[..n + 1] == ours;
      KeysAppend(ours[..n], [ours[n]]);
      KeysCons([ours[n]]);
      ChangedPropertiesLookup(ours[..n], theirs, p);
      var prior := ChangedProperties(ours[..n], theirs);
      var d := ours[n];
      LookupAppend(ours[..n], [d], p);
      LookupSingle(d, p);
      LookupSome(prior, p);
      if Lookup(theirs, d.property) != Some(d.value) {
        var e := Decl(d.property, NewValue(Lookup(theirs, d.property)));
        LookupAppend(prior, [e], p);
        LookupSingle(e, p);
        KeysCons([e]);
      }
    }
  }

  lemma {:induction false} AddedPropertiesLookup(ours: Style, theirs: Style, p: string)
    ensures Lookup(AddedProperties(ours, theirs), p) == if p in Keys(ours) then None else Lookup(theirs, p)
    decreases |theirs|
  {
    if theirs != [] {
      var n := |theirs| - 1;
      PrefixFacts(theirs, n);
      assert theirs[..n + 1] == theirs;
      AddedPropertiesLookup(ours, theirs[..n], p);
      var prior := AddedProperties(ours, theirs[..n]);
      var d := theirs[n];
      LookupAppend(theirs[..n], [d], p);
      LookupSingle(d, p);
      KeysCons([d]);
      LookupSome(theirs[..n], p);
      LookupSome(prior, p);
      if d.property !in Keys(ours) {
        LookupAppend(prior, [d], p);
      }
    }
  }

  /** What the style diff says about each property: nothing when the old and
      new values agree; otherwise the new value, with `''` for a property the
      new style no longer has. */
  lemma StyleDiffLookup(ours: Style, theirs: Style, p: string)
    ensures Lookup(StyleDiff(ours, theirs), p) ==
      if Lookup(ours, p) == Lookup(theirs, p) then None else Some(NewValue(Lookup(theirs, p)))
  {
    ChangedPropertiesLookup(ours, theirs, p);
    AddedPropertiesLookup(ours, theirs, p);
    LookupAppend(ChangedProperties(ours, theirs), AddedProperties(ours, theirs), p);
    LookupSome(ChangedProperties(ours, theirs), p);
    LookupSome(ours, p);
  }

  /** The style diff is empty exactly when both styles hold the same properties
      with the same values. */
  lemma StyleDiffEmptyIff(ours: Style, theirs: Style)
    ensures StyleDiff(ours, theirs) == [] <==> Equivalent(ours, theirs)
  {
    var sd := StyleDiff(ours, theirs);
    if sd == [] {
      forall p ensures Lookup(ours, p) == Lookup(theirs, p) {
        StyleDiffLookup(ours, theirs, p);
      }
    } else if Equivalent(ours, theirs) {
      StyleDiffLookup(ours, theirs, sd[0].property);
    }
  }

  /** `theirRule.selectorText || null` when the selector changed. */
  function SelectorChange(ours: CssRule, theirs: CssRule): SelectorDiff {
    if ours.selectorText == theirs.selectorText then Unchanged
    else if theirs.selectorText == "" then Null
    else Text(theirs.selectorText)
  }

  /** The `dirty` flag of the changed-rule branch. */
  predicate Dirty(ours: CssRule, theirs: CssRule) {
    ours.selectorText != theirs.selectorText || StyleDiff(ours.style, theirs.style) != []
  }

  /** What the `forEach` callback contributes for a position both lists
      have: the changed-rule entry when the rule changed, nothing otherwise. */
  function RuleChange(ours: CssRule, theirs: CssRule, i: nat): Option<DiffEntry> {
    if Dirty(ours, theirs) then
      Some(Changed(i, SelectorChange(ours, theirs), StyleDiff(ours.style, theirs.style)))
    else None
  }

  /** The contribution of every position both lists have. */
  function PositionChanges(ours: seq<CssRule>, theirs: seq<CssRule>): (r: seq<Option<DiffEntry>>)
    ensures |r| == Min(|ours|, |theirs|)
  {
    seq(Min(|ours|, |theirs|), i requires 0 <= i < Min(|ours|, |theirs|) => RuleChange(ours[i], theirs[i], i))
  }

  /** The entries among the contributions, in order. */
  function Present(changes: seq<Option<DiffEntry>>): seq<DiffEntry>
    decreases |changes|
  {
    if changes == [] then []
    else
      var last := changes[|changes| - 1];
      Present(changes[..|changes| - 1]) + (if last.Some? then [last.value] else [])
  }

  /** Each contribution is nothing or a changed-rule entry for its own position. */
  predicate PositionTagged(changes: seq<Option<DiffEntry>>) {
    forall i :: 0 <= i < |changes| && changes[i].Some? ==> changes[i].value.Changed? && changes[i].value.index == i
  }

  lemma PositionChangesTagged(ours: seq<CssRule>, theirs: seq<CssRule>)
    ensures PositionTagged(PositionChanges(ours, theirs))
  {
    var pc := PositionChanges(ours, theirs);
    forall i | 0 <= i < |pc| && pc[i].Some? ensures pc[i].value.Changed? && pc[i].value.index == i {
      assert pc[i] == RuleChange(ours[i], theirs[i], i);
    }
  }

  lemma PresentSnoc(changes: seq<Option<DiffEntry>>, x: Option<DiffEntry>)
    ensures Present(changes + [x]) == Present(changes) + (if x.Some? then [x.value] else [])
  {
    assert (changes + [x])[..|changes|] == changes;
  }

  /** One more position of both lists adds its changed-rule entry, if any. */
  lemma ChangedStep(ours: seq<CssRule>, theirs: seq<CssRule>, i: nat)
    requires i < |ours| && i < |theirs|
    ensures Present(PositionChanges(ours, theirs)[..i + 1]) ==
      Present(PositionChanges(ours, theirs)[..i]) + (if Dirty(ours[i], theirs[i])
        then [Changed(i, SelectorChange(ours[i], theirs[i]), StyleDiff(ours[i].style, theirs[i].style))] else [])
  {
    var pc := PositionChanges(ours, theirs);
    assert pc[..i + 1] == pc[..i] + [pc[i]];
    PresentSnoc(pc[..i], pc[i]);
    assert pc[i] == RuleChange(ours[i], theirs[i], i);
  }

  /** Changed-rule entries with strictly increasing indices below `bound`. */
  predicate ChangedRun(entries: seq<DiffEntry>, bound: nat) {
    && (forall k :: 0 <= k < |entries| ==> entries[k].Changed? && entries[k].index < bound)
    && (forall j, k :: 0 <= j < k < |entries| ==> entries[j].index < entries[k].index)
  }

  /** The entries keep the order of their positions: all changed-rule entries,
      with strictly increasing indices below the number of positions. */
  lemma {:induction false} PresentOrdered(changes: seq<Option<DiffEntry>>)
    requires PositionTagged(changes)
    ensures |Present(changes)| <= |changes|
    ensures ChangedRun(Present(changes), |changes|)
    decreases |changes|
  {
    if changes != [] {
      var n := |changes| - 1;
      var front := changes[..n];
      assert forall i :: 0 <= i < n ==> front[i] == changes[i];
      PresentOrdered(front);
    }
  }

  /** An entry is present exactly when some position contributed it. */
  lemma {:induction false} PresentMember(changes: seq<Option<DiffEntry>>, e: DiffEntry)
    ensures e in Present(changes) <==> Some(e) in changes
    decreases |changes|
  {
    if changes != [] {
      var n := |changes| - 1;
      var front := changes[..n];
      assert changes == front + [changes[n]];
      PresentMember(front, e);
    }
  }

  /** No entry is present exactly when no position contributed one. */
  lemma PresentEmpty(changes: seq<Option<DiffEntry>>)
    ensures Present(changes) == [] <==> forall i :: 0 <= i < |changes| ==> changes[i].None?
  {
    if Present(changes) != [] {
      PresentMember(changes, Present(changes)[0]);
    } else {
      forall i | 0 <= i < |changes| ensures changes[i].None? {
        if changes[i].Some? {
          PresentMember(changes, changes[i].value);
        }
      }
    }
  }

  /** The tag `theirRule.index = ourRules.length`. */
  function Tag(r: CssRule, n: nat): CssRule {
    r.(index := Some(n))
  }

  /** The rules at positions `from..to`, each tagged with `from`, as added-rule entries. */
  function AddedRange(rules: seq<CssRule>, from: nat, to: nat): seq<DiffEntry>
    requires from <= to <= |rules|
  {
    seq(to - from, k requires 0 <= k < to - from => Added(Tag(rules[from + k], from)))
  }

  lemma AddedRangeSnoc(rules: seq<CssRule>, from: nat, to: nat)
    requires from <= to < |rules|
    ensures AddedRange(rules, from, to + 1) == AddedRange(rules, from, to) + [Added(Tag(rules[to], from))]
  {
    var t := AddedRange(rules, from, to + 1);
    assert forall k :: 0 <= k < to - from ==> t[k] == AddedRange(rules, from, to)[k];
  }

  /** The rules past the old length, in order, each tagged with the old length. */
  function AddedEntries(ours: seq<CssRule>, theirs: seq<CssRule>): seq<DiffEntry> {
    if |theirs| <= |ours| then [] else AddedRange(theirs, |ours|, |theirs|)
  }

  /** The removal entries for the old positions `from..to`. */
  function RemovedEntries(from: nat, to: nat): seq<DiffEntry> {
    if to <= from then [] else seq(to - from, k requires 0 <= k < to - from => Removed(from + k))
  }

  /** The index tag of an entry. */
  function IndexTag(e: DiffEntry): nat {
    match e
    case Changed(i, _, _) => i
    case Added(r) => if r.index.Some? then r.index.value else 0
    case Removed(i) => i
  }

  /** The changed-rule entries, then the new rules, then the removals. */
  function Layout(changed: seq<DiffEntry>, ours: seq<CssRule>, theirs: seq<CssRule>): seq<DiffEntry> {
    changed + AddedEntries(ours, theirs) + RemovedEntries(|theirs|, |ours|)
  }

  /** What `ours.getRulesDiff(theirs)` returns. */
  function RulesDiff(ours: seq<CssRule>, theirs: seq<CssRule>): seq<DiffEntry> {
    Layout(Present(PositionChanges(ours, theirs)), ours, theirs)
  }

  /** What sits at each position of the layout. */
  lemma LayoutAt(changed: seq<DiffEntry>, ours: seq<CssRule>, theirs: seq<CssRule>, k: nat)
    requires k < |Layout(changed, ours, theirs)|
    ensures var d := Layout(changed, ours, theirs);
      var c := |changed|;
      && (k < c ==> d[k] == changed[k])
      && (c <= k ==> |ours| != |theirs|)
      && (c <= k && |ours| < |theirs| ==> d[k] == Added(Tag(theirs[|ours| + k - c], |ours|)))
      && (c <= k && |theirs| < |ours| ==> d[k] == Removed(|theirs| + k - c))
  {
    var a := AddedEntries(ours, theirs);
    var r := RemovedEntries(|theirs|, |ours|);
    var d := Layout(changed, ours, theirs);
    var c := |changed|;
    assert d == changed + (a + r);
    if c <= k {
      assert d[k] == (a + r)[k - c];
      if |ours| < |theirs| {
        assert r == [];
        assert a[k - c] == Added(Tag(theirs[|ours| + k - c], |ours|));
      } else if |theirs| < |ours| {
        assert a == [];
        assert r[k - c] == Removed(|theirs| + k - c);
      }
    }
  }

  lemma LayoutOrdered(changed: seq<DiffEntry>, ours: seq<CssRule>, theirs: seq<CssRule>)
    requires ChangedRun(changed, Min(|ours|, |theirs|))
    ensures var d := Layout(changed, ours, theirs);
      forall j, k :: 0 <= j < k < |d| ==>
        IndexTag(d[j]) <= IndexTag(d[k]) && (!(d[j].Added? && d[k].Added?) ==> IndexTag(d[j]) < IndexTag(d[k]))
    ensures var d := Layout(changed, ours, theirs);
      forall j, k :: 0 <= j < k < |d| ==>
        (d[k].Changed? ==> d[j].Changed?) && (d[j].Removed? ==> d[k].Removed?)
  {
    var d := Layout(changed, ours, theirs);
    forall j, k | 0 <= j < k < |d|
      ensures IndexTag(d[j]) <= IndexTag(d[k]) && (!(d[j].Added? && d[k].Added?) ==> IndexTag(d[j]) < IndexTag(d[k]))
      ensures (d[k].Changed? ==> d[j].Changed?) && (d[j].Removed? ==> d[k].Removed?)
    {
      LayoutAt(changed, ours, theirs, j);
      LayoutAt(changed, ours, theirs, k);
    }
  }

  /** Past its first `c` entries, `d` lists the new rules in their order,
      each tagged with the old length, or else the removals of the old
      positions past the new length in increasing order. */
  predicate TailShape(d: seq<DiffEntry>, c: nat, ours: seq<CssRule>, theirs: seq<CssRule>) {
    && |d| == c + (Max(|ours|, |theirs|) - Min(|ours|, |theirs|))
    && (forall k :: c <= k < |d| && |ours| < |theirs| ==> d[k] == Added(theirs[|ours| + k - c].(index := Some(|ours|))))
    && (forall k :: c <= k < |d| && |theirs| < |ours| ==> d[k] == Removed(|theirs| + k - c))
  }

  lemma LayoutTail(changed: seq<DiffEntry>, ours: seq<CssRule>, theirs: seq<CssRule>)
    ensures TailShape(Layout(changed, ours, theirs), |changed|, ours, theirs)
  {
    var d := Layout(changed, ours, theirs);
    forall k | 0 <= k < |d|
      ensures var c := |changed|;
        && (c <= k && |ours| < |theirs| ==> d[k] == Added(theirs[|ours| + k - c].(index := Some(|ours|))))
        && (c <= k && |theirs| < |ours| ==> d[k] == Removed(|theirs| + k - c))
    {
      LayoutAt(changed, ours, theirs, k);
    }
  }

  /** The added and removed entries of a layout are never changed-rule
      entries: the changed-rule entries are exactly those of `changed`. */
  lemma LayoutChanged(changed: seq<DiffEntry>, ours: seq<CssRule>, theirs: seq<CssRule>, e: DiffEntry)
    requires e.Changed?
    ensures e in Layout(changed, ours, theirs) <==> e in changed
  {
    var d := Layout(changed, ours, theirs);
    if e in d {
      var k :| 0 <= k < |d| && d[k] == e;
      LayoutAt(changed, ours, theirs, k);
    }
    if e in changed {
      var k :| 0 <= k < |changed| && changed[k] == e;
      LayoutAt(changed, ours, theirs, k);
    }
  }

  /** Position `i` contributes a given changed-rule entry exactly when both
      lists have a rule there that changed, and the entry is its change. */
  lemma PositionChangesMember(ours: seq<CssRule>, theirs: seq<CssRule>, i: nat, sel: SelectorDiff, st: Style)
    ensures Some(Changed(i, sel, st)) in PositionChanges(ours, theirs) <==>
      i < |ours| && i < |theirs| && Dirty(ours[i], theirs[i])
      && sel == SelectorChange(ours[i], theirs[i]) && st == StyleDiff(ours[i].style, theirs[i].style)
  {
    var pc := PositionChanges(ours, theirs);
    var e := Changed(i, sel, st);
    if Some(e) in pc {
      var j :| 0 <= j < |pc| && pc[j] == Some(e);
      assert pc[j] == RuleChange(ours[j], theirs[j], j);
    }
    if i < |ours| && i < |theirs| {
      assert pc[i] == RuleChange(ours[i], theirs[i], i);
    }
  }

  /** A changed-rule entry for position `i` is in the diff exactly when both
      lists have a rule there and it changed; it then carries the new
      selector (or `null`) and the style diff. */
  lemma RulesDiffChanged(ours: seq<CssRule>, theirs: seq<CssRule>, i: nat, sel: SelectorDiff, st: Style)
    ensures Changed(i, sel, st) in RulesDiff(ours, theirs) <==>
      i < |ours| && i < |theirs| && Dirty(ours[i], theirs[i])
      && sel == SelectorChange(ours[i], theirs[i]) && st == StyleDiff(ours[i].style, theirs[i].style)
  {
    var pc := PositionChanges(ours, theirs);
    var e := Changed(i, sel, st);
    LayoutChanged(Present(pc), ours, theirs, e);
    PresentMember(pc, e);
    PositionChangesMember(ours, theirs, i, sel, st);
  }

  /** The diff of two lists is empty exactly when they have the same length
      and every position holds the same selector and an equivalent style. */
  lemma RulesDiffEmptyIff(ours: seq<CssRule>, theirs: seq<CssRule>)
    ensures RulesDiff(ours, theirs) == [] <==>
      |ours| == |theirs| &&
      forall i :: 0 <= i < |ours| ==>
        ours[i].selectorText == theirs[i].selectorText && Equivalent(ours[i].style, theirs[i].style)
  {
    var pc := PositionChanges(ours, theirs);
    PresentEmpty(pc);
    var d := RulesDiff(ours, theirs);
    assert |d| == |Present(pc)| + |AddedEntries(ours, theirs)| + |RemovedEntries(|theirs|, |ours|)|;
    if |ours| == |theirs| {
      forall i | 0 <= i < |ours|
        ensures pc[i].None? <==> ours[i].selectorText == theirs[i].selectorText && Equivalent(ours[i].style, theirs[i].style)
      {
        assert pc[i] == RuleChange(ours[i], theirs[i], i);
        StyleDiffEmptyIff(ours[i].style, theirs[i].style);
      }
    }
  }

  /** Diffing a sheet against an identical one yields the empty list. */
  lemma SelfDiffEmpty(rules: seq<CssRule>)
    ensures RulesDiff(rules, rules) == []
  {
    RulesDiffEmptyIff(rules, rules);
  }

  /** The diff is never longer than the longer of the two lists, and never
      shorter than their difference in length. */
  lemma RulesDiffLength(ours: seq<CssRule>, theirs: seq<CssRule>)
    ensures |RulesDiff(ours, theirs)| <= Max(|ours|, |theirs|)
    ensures |RulesDiff(ours, theirs)| >= Max(|ours|, |theirs|) - Min(|ours|, |theirs|)
  {
    var pc := PositionChanges(ours, theirs);
    PositionChangesTagged(ours, theirs);
    PresentOrdered(pc);
  }

  /** Changed rules come first, then the new rules, then the removals; the
      index tags never decrease, and strictly increase except between new
      rules, which all carry the old length. */
  lemma RulesDiffOrdered(ours: seq<CssRule>, theirs: seq<CssRule>)
    ensures var d := RulesDiff(ours, theirs);
      forall j, k :: 0 <= j < k < |d| ==>
        IndexTag(d[j]) <= IndexTag(d[k]) && (!(d[j].Added? && d[k].Added?) ==> IndexTag(d[j]) < IndexTag(d[k]))
    ensures var d := RulesDiff(ours, theirs);
      forall j, k :: 0 <= j < k < |d| ==>
        (d[k].Changed? ==> d[j].Changed?) && (d[j].Removed? ==> d[k].Removed?)
  {
    var pc := PositionChanges(ours, theirs);
    PositionChangesTagged(ours, theirs);
    PresentOrdered(pc);
    LayoutOrdered(Present(pc), ours, theirs);
  }

  /** The new rules appear in their order, each tagged with the old length,
      and the removals name each old position past the new length in
      increasing order. */
  lemma RulesDiffTail(ours: seq<CssRule>, theirs: seq<CssRule>)
    ensures TailShape(RulesDiff(ours, theirs), |Present(PositionChanges(ours, theirs))|, ours, theirs)
  {
    LayoutTail(Present(PositionChanges(ours, theirs)), ours, theirs);
  }

  // ---------------------------------------------------------------------
  // Rendering

  /** `'\t' + prop + ': ' + rule.style[prop] + ';'` for each property. */
  function DeclarationLines(style: Style): seq<string> {
    seq(|style|, k requires 0 <= k < |style| => "\t" + style[k].property + ": " + style[k].value + ";")
  }

  /** One rule rendered by `getCSSText`. */
  function RuleCssText(rule: CssRule): string {
    rule.selectorText + " {\n" + Join(DeclarationLines(rule.style), "\n") + "\n}"
  }

  function RuleCssTexts(rules: seq<CssRule>): seq<string> {
    seq(|rules|, k requires 0 <= k < |rules| => RuleCssText(rules[k]))
  }

  /** What `getCSSText` returns. */
  function CssText(rules: seq<CssRule>): string {
    Join(RuleCssTexts(rules), "\n\n")
  }

  /** An empty sheet renders as the empty string, and a rule without
      declarations as its selector and an empty block. */
  lemma CssTextEmpty(selector: string, index: Option<nat>)
    ensures CssText([]) == ""
    ensures RuleCssText(CssRule(selector, [], index)) == selector + " {\n\n}"
  {
  }

  /** Appending a rule appends its block after a blank line. */
  lemma CssTextAppend(rules: seq<CssRule>, rule: CssRule)
    ensures CssText(rules + [rule]) ==
      if rules == [] then RuleCssText(rule) else CssText(rules) + "\n\n" + RuleCssText(rule)
  {
    var texts := RuleCssTexts(rules + [rule]);
    assert texts[..|rules|] == RuleCssTexts(rules);
  }

  // ---------------------------------------------------------------------
  // The operations

  lemma StyleOfStep(declarations: seq<string>, k: nat)
    requires k < |declarations|
    ensures StyleFrom(Matches(declarations)[..k + 1]) == Next(StyleFrom(Matches(declarations)[..k]), MatchDeclaration(declarations[k]))
  {
    var matches := Matches(declarations);
    assert matches[..k + 1][..k] == matches[..k];
  }

  /** The `forEach` over the declaration texts: each match assigns its
      property on the style object. */
  method BuildStyle(declarations: seq<string>) returns (style: Style)
    ensures style == StyleOf(declarations)
  {
    style := [];
    for k := 0 to |declarations|
      invariant style == StyleFrom(Matches(declarations)[..k])
    {
      StyleOfStep(declarations, k);
      var m := MatchDeclaration(declarations[k]);
      if m.Some? {
        AssignDistinct(style, m.value.property, m.value.value);
        style := Assign(style, m.value.property, m.value.value);
      }
    }
    assert Matches(declarations)[..|declarations|] == Matches(declarations);
  }


  /** One step of the first loop: assigning a differing property extends the
      changed properties of the prefix by that property. */
  lemma ChangedPropertiesStep(ours: Style, theirs: Style, k: nat)
    requires k < |ours|
    ensures var p := ours[k].property;
      ChangedProperties(ours[..k + 1], theirs) ==
        if Lookup(theirs, p) != Lookup(ours, p) then Assign(ChangedProperties(ours[..k], theirs), p, NewValue(Lookup(theirs, p)))
        else ChangedProperties(ours[..k], theirs)
  {
    PrefixFacts(ours, k);
    LookupAt(ours, k);
    assert ours[..k + 1][..k] == ours[..k];
    ChangedPropertiesKeys(ours[..k], theirs);
  }

  /** One step of the second loop: assigning a property `ours` lacks extends
      the added properties of the prefix by that property. */
  lemma AddedPropertiesStep(ours: Style, theirs: Style, k: nat)
    requires k < |theirs|
    ensures var d := theirs[k];
      var prior := ChangedProperties(ours, theirs) + AddedProperties(ours, theirs[..k]);
      ChangedProperties(ours, theirs) + AddedProperties(ours, theirs[..k + 1]) ==
        if d.property !in Keys(ours) then Assign(prior, d.property, d.value) else prior
  {
    PrefixFacts(theirs, k);
    assert theirs[..k + 1][..k] == theirs[..k];
    var changed, added := ChangedProperties(ours, theirs), AddedProperties(ours, theirs[..k]);
    ChangedPropertiesKeys(ours, theirs);
    AddedPropertiesKeys(ours, theirs[..k]);
    KeysAppend(changed, added);
    var d := theirs[k];
    if d.property !in Keys(ours) {
      assert changed + (added + [d]) == changed + added + [d];
    }
  }

  /** The two property loops of the `forEach` callback: `dirty` is raised
      whenever a property is written into the style diff. */
  method DiffStyle(ourStyle: Style, theirStyle: Style, wasDirty: bool) returns (dirty: bool, styleDiff: Style)
    ensures styleDiff == StyleDiff(ourStyle, theirStyle)
    ensures dirty == (wasDirty || styleDiff != [])
  {
    dirty := wasDirty;
    var diff: seq<Decl> := [];
    // changed properties
    for k := 0 to |ourStyle|
      invariant diff == ChangedProperties(ourStyle[..k], theirStyle)
      invariant dirty == (wasDirty || diff != [])
    {
      var prop := ourStyle[k].property;
      ChangedPropertiesStep(ourStyle, theirStyle, k);
      if Lookup(theirStyle, prop) != Lookup(ourStyle, prop) {
        dirty := true;
        diff := Assign(diff, prop, NewValue(Lookup(theirStyle, prop)));
      }
    }
    assert ourStyle[..|ourStyle|] == ourStyle;
    // new properties
    for k := 0 to |theirStyle|
      invariant diff == ChangedProperties(ourStyle, theirStyle) + AddedProperties(ourStyle, theirStyle[..k])
      invariant dirty == (wasDirty || diff != [])
    {
      var prop := theirStyle[k].property;
      AddedPropertiesStep(ourStyle, theirStyle, k);
      if prop !in Keys(ourStyle) {
        dirty := true;
        diff := Assign(diff, prop, theirStyle[k].value);
      }
    }
    assert theirStyle[..|theirStyle|] == theirStyle;
    StyleDiffDistinct(ourStyle, theirStyle);
    styleDiff := diff;
  }

  /** The body of the `forEach` callback for a position both lists have. */
  method DiffRule(ourRule: CssRule, theirRule: CssRule, i: nat) returns (dirty: bool, ruleDiff: DiffEntry)
    ensures dirty == Dirty(ourRule, theirRule)
    ensures dirty ==> ruleDiff == Changed(i, SelectorChange(ourRule, theirRule), StyleDiff(ourRule.style, theirRule.style))
  {
    dirty := false;
    var selectorText := Unchanged;
    // changed selector text
    if ourRule.selectorText != theirRule.selectorText {
      dirty := true;
      selectorText := if theirRule.selectorText != "" then Text(theirRule.selectorText) else Null;
    }
    var styleDiff;
    dirty, styleDiff := DiffStyle(ourRule.style, theirRule.style, dirty);
    ruleDiff := Changed(i, selectorText, styleDiff);
  }

  /** The new rules as the scan leaves them after position `i`: each new
      rule before `i` carries the tag `n`. */
  function Tagged(rules: seq<CssRule>, n: nat, i: nat): (r: seq<CssRule>)
    ensures |r| == |rules|
    ensures forall k :: 0 <= k < |rules| ==>
      r[k] == if k < n || k >= i then rules[k] else Tag(rules[k], n)
  {
    seq(|rules|, k requires 0 <= k < |rules| => if k < n || k >= i then rules[k] else Tag(rules[k], n))
  }

  lemma TaggedStart(rules: seq<CssRule>, n: nat)
    ensures Tagged(rules, n, 0) == rules
  {
  }

  lemma TaggedStep(rules: seq<CssRule>, n: nat, i: nat)
    requires i < |rules|
    ensures Tagged(rules, n, i + 1) == if i < n then Tagged(rules, n, i) else Tagged(rules, n, i)[i := Tag(rules[i], n)]
  {
  }

  /** What the scan over the new rules has collected after `i` of them:
      the changed-rule entries of the positions seen, then the new rules
      seen, tagged. */
  function Scanned(ours: seq<CssRule>, theirs: seq<CssRule>, i: nat): seq<DiffEntry>
    requires i <= |theirs|
  {
    if i <= |ours| then Present(PositionChanges(ours, theirs)[..i])
    else Present(PositionChanges(ours, theirs)) + AddedRange(theirs, |ours|, i)
  }

  /** One pass of the scan adds the new rule, tagged, past the old length,
      and the changed-rule entry, if any, before it. */
  lemma ScanStep(ours: seq<CssRule>, theirs: seq<CssRule>, i: nat)
    requires i < |theirs|
    ensures Scanned(ours, theirs, i + 1) == Scanned(ours, theirs, i) +
      (if i >= |ours| then [Added(Tag(theirs[i], |ours|))]
       else if Dirty(ours[i], theirs[i]) then [Changed(i, SelectorChange(ours[i], theirs[i]), StyleDiff(ours[i].style, theirs[i].style))]
       else [])
  {
    var pc := PositionChanges(ours, theirs);
    if i > |ours| {
      AddedRangeSnoc(theirs, |ours|, i);
    } else if i == |ours| {
      assert pc[..i] == pc;
      AddedRangeSnoc(theirs, |ours|, i);
      assert AddedRange(theirs, |ours|, i) == [];
      assert Present(pc) + [] == Present(pc);
    } else {
      ChangedStep(ours, theirs, i);
    }
  }

  /** When the scan over the new rules ends, what it collected is the
      changed-rule entries followed by the new rules. */
  lemma ScanComplete(ours: seq<CssRule>, theirs: seq<CssRule>)
    ensures Scanned(ours, theirs, |theirs|) == Present(PositionChanges(ours, theirs)) + AddedEntries(ours, theirs)
  {
    var pc := PositionChanges(ours, theirs);
    if |theirs| <= |ours| {
      assert pc[..|theirs|] == pc;
      assert AddedEntries(ours, theirs) == [];
      assert Present(pc) + [] == Present(pc);
    } else {
      assert AddedEntries(ours, theirs) == AddedRange(theirs, |ours|, |theirs|);
    }
  }

  /** The loop over the old positions past the new length: one removal
      entry each, in increasing order. */
  method AppendRemovals(diff: seq<DiffEntry>, from: nat, to: nat) returns (r: seq<DiffEntry>)
    ensures r == diff + RemovedEntries(from, to)
  {
    r := diff;
    var i := from;
    while i < to
      invariant from <= i && (i <= to || i == from)
      invariant r == diff + RemovedEntries(from, i)
    {
      assert RemovedEntries(from, i + 1) == RemovedEntries(from, i) + [Removed(i)];
      r := r + [Removed(i)];
      i := i + 1;
    }
    if to <= from {
      assert RemovedEntries(from, i) == [];
    }
  }

  /** A stylesheet as the server keeps it. */
  class Sheet {
    const name: string
    var cssRules: seq<CssRule>

    /** The array branch of the constructor: one rule per rule text a
        browser reported, in order. */
    constructor FromBrowser(name: string, rules: seq<string>)
      ensures this.name == name
      ensures cssRules == RulesFromTexts(rules)
    {
      this.name := name;
      var parsed: seq<CssRule> := [];
      for k := 0 to |rules|
        invariant parsed == RulesFromTexts(rules[..k])
      {
        // the `map` callback, for one rule text
        var style := BuildStyle(DeclarationTexts(rules[k]));
        RulesFromTextsSnoc(rules, k);
        parsed := parsed + [CssRule(Join(Selectors(rules[k]), ", "), style, None)];
      }
      assert rules[..|rules|] == rules;
      cssRules := parsed;
    }

    /** `getRulesDiff`: the positional diff from this sheet's rules to
        `sheet`'s, which also tags each of `sheet`'s rules past this sheet's
        length with that length. */
    method GetRulesDiff(sheet: Sheet) returns (rulesDiff: seq<DiffEntry>)
      modifies sheet
      ensures rulesDiff == RulesDiff(old(cssRules), old(sheet.cssRules))
      ensures |sheet.cssRules| == |old(sheet.cssRules)|
      ensures forall k :: 0 <= k < |sheet.cssRules| ==>
        sheet.cssRules[k] == if k < |old(cssRules)| then old(sheet.cssRules[k]) else Tag(old(sheet.cssRules[k]), |old(cssRules)|)
    {
      rulesDiff := [];
      var ourRules, theirRules := cssRules, sheet.cssRules;
      var n := |ourRules|;
      TaggedStart(theirRules, n);
      // handle changed and added rules
      for i := 0 to |theirRules|
        invariant rulesDiff == Scanned(ourRules, theirRules, i)
        invariant sheet.cssRules == Tagged(theirRules, n, i)
      {
        ScanStep(ourRules, theirRules, i);
        TaggedStep(theirRules, n, i);
        var theirRule := theirRules[i];
        if i >= n {
          // new rule
          theirRule := Tag(theirRule, n);
          sheet.cssRules := sheet.cssRules[i := theirRule];
          rulesDiff := rulesDiff + [Added(theirRule)];
        } else {
          var dirty, ruleDiff := DiffRule(ourRules[i], theirRule, i);
          if dirty {
            rulesDiff := rulesDiff + [ruleDiff];
          }
        }
      }
      ScanComplete(ourRules, theirRules);
      // handle removed rules
      rulesDiff := AppendRemovals(rulesDiff, |theirRules|, n);
    }

    /** `getCSSText`: every rule rendered, separated by blank lines. */
    method GetCSSText() returns (text: string)
      ensures text == CssText(cssRules)
    {
      var rendered: seq<string> := [];
      for i := 0 to |cssRules|
        invariant rendered == RuleCssTexts(cssRules[..i])
      {
        var rule := cssRules[i];
        var declarations: seq<string> := [];
        for k := 0 to |rule.style|
          invariant declarations == DeclarationLines(rule.style)[..k]
        {
          var prop := rule.style[k].property;
          LookupAt(rule.style, k);
          declarations := declarations + ["\t" + prop + ": " + Lookup(rule.style, prop).value + ";"];
        }
        assert declarations == DeclarationLines(rule.style);
        rendered := rendered + [rule.selectorText + " {\n" + Join(declarations, "\n") + "\n}"];
      }
      assert cssRules[..|cssRules|] == cssRules;
      text := Join(rendered, "\n\n");
    }
  }
}
