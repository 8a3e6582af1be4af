/*
 * The browser side's rule tree (scissors.js): the in-memory rules a
 * `RulesList` holds, the JSON objects they are exchanged as, and the CSS
 * text each rule is rendered to before it is handed to the browser.
 */
module RuleTree {
  import opened Js

  /** A keyframe of a keyframes rule. Its JSON form `{keyText, style}`
      and its object form carry the same two fields, so one value models both. */
  datatype Keyframe = Keyframe(keyText: string, style: Style)

  /** One key of the `keyframes` object, in enumeration order. The keys of
      a JavaScript object are distinct; the model only ever copies a
      `keyframes` list from JSON to rule and back, so it never builds a list
      with a repeated key from one without. */
  datatype Keyed = Keyed(key: string, keyframe: Keyframe)

  /** A JSON object as the rule tree reads and writes it: every field any
      rule, diff entry or placeholder may carry. An absent string field is
      read as `""` and an absent count as 0; only `insert` is tested for
      presence. The code's truthiness tests (`if (diff.selectorText)`) treat
      an absent field and `""` alike, but rendering does not: the source
      renders an absent `selectorText`, `mediaText` or `name` as the word
      `undefined`, where the model renders it empty, and it throws on a
      `media` object with no `rules`, which the model reads as an empty list. */
  datatype Json = Json(
    ruleType: string,
    selectorText: string,
    style: Style,
    mediaText: string,
    rules: seq<Json>,
    name: string,
    keyframes: seq<Keyed>,
    skip: nat,
    remove: nat,
    insert: Option<Json>,
    dummy: bool)

  /** The object with none of the fields set. */
  const Blank := Json("", "", [], "", [], "", [], 0, 0, None, false)

  /** An in-memory rule: `Rule`, `MediaRule`, `KeyframesRule`, or the shared
      `Rule.dummy` placeholder that stands in for a rule the browser refused. */
  datatype Rule =
    | StyleRule(selectorText: string, style: Style)
    | MediaRule(mediaText: string, rules: seq<Rule>)
    | KeyframesRule(name: string, keyframes: seq<Keyed>)
    | Dummy

  // ---------------------------------------------------------------------
  // JSON

  /** `rule.toJSON()`. */
  function ToJson(r: Rule): Json
    decreases r
  {
    match r
    case StyleRule(selectorText, style) => Blank.(ruleType := "rule", selectorText := selectorText, style := style)
    case MediaRule(mediaText, rules) => Blank.(ruleType := "media", mediaText := mediaText, rules := ListToJson(rules))
    case KeyframesRule(name, keyframes) => Blank.(ruleType := "keyframes", name := name, keyframes := keyframes)
    case Dummy => Blank.(dummy := true)
  }

  /** `RulesList.prototype.toJSON`: one object per rule, in order. */
  function ListToJson(rules: seq<Rule>): (r: seq<Json>)
    ensures |r| == |rules|
    ensures forall k :: 0 <= k < |rules| ==> r[k] == ToJson(rules[k])
    decreases rules
  {
    if rules == [] then []
    else [ToJson(rules[0])] + ListToJson(rules[1..])
  }

  /** `Rule.fromJSON`: the constructor `Rule.types` names for `type`, or
      nothing. `Comment.initJSON` returns nothing, so a comment yields
      nothing as well. */
  function FromJson(obj: Json): Option<Rule>
    decreases obj, 1
  {
    if obj.ruleType == "rule" then Some(StyleRule(obj.selectorText, obj.style))
    else if obj.ruleType == "media" then Some(MediaRule(obj.mediaText, InitJson(obj.rules)))
    else if obj.ruleType == "keyframes" then Some(KeyframesRule(obj.name, obj.keyframes))
    else None
  }

  /** `RulesList.prototype.initJSON`: `obj.map(Rule.fromJSON).filter(Boolean)`. */
  function InitJson(objs: seq<Json>): seq<Rule>
    decreases objs, 0
  {
    if objs == [] then []
    else
      var first := FromJson(objs[0]);
      (if first.Some? then [first.value] else []) + InitJson(objs[1..])
  }

  /** The rule with every placeholder removed from its nested rule lists. */
  function Clean(r: Rule): Rule
    decreases r
  {
    match r
    case MediaRule(mediaText, rules) => MediaRule(mediaText, CleanList(rules))
    case _ => r
  }

  /** The rules without placeholders, each cleaned. */
  function CleanList(rules: seq<Rule>): seq<Rule>
    decreases rules
  {
    if rules == [] then []
    else (if rules[0].Dummy? then [] else [Clean(rules[0])]) + CleanList(rules[1..])
  }

  /** `initJSON` keeps the order of its input: the rules built from a
      concatenation are those built from each part, one after the other. */
  lemma {:induction false} InitJsonAppend(a: seq<Json>, b: seq<Json>)
    ensures InitJson(a + b) == InitJson(a) + InitJson(b)
    decreases |a|
  {
    if a != [] {
      assert (a + b)[0] == a[0] && (a + b)[1..] == a[1..] + b;
      InitJsonAppend(a[1..], b);
      var first := FromJson(a[0]);
      var front := if first.Some? then [first.value] else [];
      assert InitJson(a + b) == front + (InitJson(a[1..]) + InitJson(b));
    } else {
      assert a + b == b;
    }
  }

  /** One object contributes its rule when its type is known, and nothing
      otherwise; a comment contributes nothing. */
  lemma InitJsonSingle(obj: Json)
    ensures InitJson([obj]) == if FromJson(obj).Some? then [FromJson(obj).value] else []
    ensures obj.ruleType == "comment" ==> InitJson([obj]) == []
  {
    assert [obj][1..] == [];
  }

  /** A rule built from JSON has no placeholder anywhere. */
  lemma {:induction false} FromJsonClean(obj: Json)
    requires FromJson(obj).Some?
    ensures Clean(FromJson(obj).value) == FromJson(obj).value
    ensures !FromJson(obj).value.Dummy?
    decreases obj, 1
  {
    if obj.ruleType == "media" {
      InitJsonClean(obj.rules);
    }
  }

  /** The rules `initJSON` builds have no placeholder anywhere. */
  lemma {:induction false} InitJsonClean(objs: seq<Json>)
    ensures CleanList(InitJson(objs)) == InitJson(objs)
    decreases objs, 0
  {
    if objs != [] {
      var first := FromJson(objs[0]);
      var front := if first.Some? then [first.value] else [];
      var rest := InitJson(objs[1..]);
      InitJsonClean(objs[1..]);
      if first.Some? {
        FromJsonClean(objs[0]);
        assert (front + rest)[0] == first.value && (front + rest)[1..] == rest;
      } else {
        assert front + rest == rest;
      }
    }
  }

  /** JSON round trip of one rule: `Rule.fromJSON(rule.toJSON())` rebuilds
      a plain rule's selector and style, a media rule's media text and
      nested rules, and a keyframes rule's name and keyframes; only nested
      placeholders are lost. The placeholder itself comes back as nothing. */
  lemma {:induction false} RuleRoundTrip(r: Rule)
    ensures FromJson(ToJson(r)) == if r.Dummy? then None else Some(Clean(r))
    decreases r, 1
  {
    if r.MediaRule? {
      ListRoundTrip(r.rules);
    }
  }

  /** JSON round trip of a rule list: `initJSON(list.toJSON())` is the list
      with every placeholder removed. */
  lemma {:induction false} ListRoundTrip(rules: seq<Rule>)
    ensures InitJson(ListToJson(rules)) == CleanList(rules)
    decreases rules, 0
  {
    if rules != [] {
      var objs := ListToJson(rules);
      assert objs[1..] == ListToJson(rules[1..]);
      ListRoundTrip(rules[1..]);
      RuleRoundTrip(rules[0]);
    }
  }

  /** A list built from JSON survives the round trip unchanged. */
  lemma RoundTripOfInitJson(objs: seq<Json>)
    ensures InitJson(ListToJson(InitJson(objs))) == InitJson(objs)
  {
    ListRoundTrip(InitJson(objs));
    InitJsonClean(objs);
  }

  // ---------------------------------------------------------------------
  // CSS text

  /** `prop + ': ' + value + ';'` for each declaration, in order. */
  function StyleDeclarationTexts(style: Style): (r: seq<string>)
    ensures |r| == |style|
  {
    seq(|style|, k requires 0 <= k < |style| => style[k].property + ": " + style[k].value + ";")
  }

  /** `Style.prototype.toString`. */
  function StyleText(style: Style): string {
    "{" + Join(StyleDeclarationTexts(style), " ") + " }"
  }

  /** A declaration added to a style is rendered last, after a space. */
  lemma StyleTextAppend(style: Style, d: Decl)
    requires d.property !in Keys(style)
    ensures Distinct(style + [d])
    ensures StyleText(style + [d]) ==
      "{" + (if style == [] then "" else Join(StyleDeclarationTexts(style), " ") + " ") + d.property + ": " + d.value + "; }"
  {
    AppendFresh(style, d);
    var texts := StyleDeclarationTexts(style + [d]);
    assert texts == StyleDeclarationTexts(style) + [d.property + ": " + d.value + ";"];
    JoinSnoc(StyleDeclarationTexts(style), d.property + ": " + d.value + ";", " ");
  }

  function KeyframeText(keyframe: Keyframe): string {
    keyframe.keyText + " " + StyleText(keyframe.style)
  }

  /** `Keyframes.prototype.toString`. */
  function KeyframesText(keyframes: seq<Keyed>): string {
    Join(seq(|keyframes|, k requires 0 <= k < |keyframes| => KeyframeText(keyframes[k].keyframe)), "\n\n")
  }

  /** `rule.toString()`: the CSS text handed to `insertRule`. */
  function RuleText(r: Rule): string
    decreases r
  {
    match r
    case StyleRule(selectorText, style) => selectorText + StyleText(style)
    case MediaRule(mediaText, rules) => "@media " + mediaText + " {\n" + ListText(rules) + "\n}"
    case KeyframesRule(name, keyframes) => "@-webkit-keyframes " + name + " {\n" + KeyframesText(keyframes) + "\n}"
    case Dummy => ""
  }

  /** `RulesList.prototype.toString`: the rules' texts separated by blank lines. */
  function ListText(rules: seq<Rule>): string
    decreases rules
  {
    Join(seq(|rules|, k requires 0 <= k < |rules| => RuleText(rules[k])), "\n\n")
  }

  /** A rule added to a list is rendered last, after a blank line. */
  lemma ListTextAppend(rules: seq<Rule>, r: Rule)
    ensures ListText(rules + [r]) == if rules == [] then RuleText(r) else ListText(rules) + "\n\n" + RuleText(r)
  {
    var texts := seq(|rules| + 1, k requires 0 <= k < |rules| + 1 => RuleText((rules + [r])[k]));
    var front := seq(|rules|, k requires 0 <= k < |rules| => RuleText(rules[k]));
    assert texts == front + [RuleText(r)];
    JoinSnoc(front, RuleText(r), "\n\n");
  }
}
