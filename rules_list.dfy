/*
 * The browser side's patcher (scissors.js): `RulesList.prototype.applyDiff`
 * replays a stream of diff entries against the in-memory rules and mirrors
 * every removal and insertion into the browser's style sheet, the sink.
 */
module ClientSheet {
  import opened Js
  import opened RuleTree

  /** `s.splice(at, 0, x)`, which appends when `at` is past the end; on the
      sink's rule texts, the same clamp is `Math.min(at, length)`. */
  function InsertAt<T>(s: seq<T>, at: nat, x: T): (r: seq<T>)
    ensures |r| == |s| + 1
    ensures r[Min(at, |s|)] == x
    ensures r[..Min(at, |s|)] == s[..Min(at, |s|)] && r[Min(at, |s|) + 1..] == s[Min(at, |s|)..]
  {
    var k := Min(at, |s|);
    s[..k] + [x] + s[k..]
  }

  /** `s.splice(at, 1)`: the element at `at` removed, if there is one. */
  function DeleteAt<T>(s: seq<T>, at: nat): seq<T> {
    if at < |s| then s[..at] + s[at + 1..] else s
  }

  /** The in-memory rules and the texts of the sink's rules. */
  datatype Lists = Lists(rules: seq<Rule>, css: seq<string>)

  /** Where a run of removals ended, and whether it ran to the end. */
  datatype Removal = Removal(lists: Lists, completed: bool)

  /** What `applyDiff` has done so far: the lists, the cumulative `skip`,
      whether it is still running (an exception ends it), and whether an
      insertion has been taken by the sink (`cssOk`). */
  datatype State = State(lists: Lists, skip: nat, completed: bool, cssOk: bool)

  /** What the insertion branch left: the lists, `cssOk`, and whether it
      ran to the end. */
  datatype Inserted = Inserted(lists: Lists, cssOk: bool, completed: bool)

  /** A media rule's patch applied in place, and whether it ran to the end. */
  datatype Applied = Applied(rule: Rule, completed: bool)

  // ---------------------------------------------------------------------
  // Removal

  /** One pass of the removal loop at `at`. With no rule there, reading
      `rule.dummy` throws. A placeholder is dropped from the in-memory list
      only; any other rule is also deleted from the sink, where a deletion
      past the end fails and is logged. */
  function RemoveOne(l: Lists, at: nat): Removal {
    if at >= |l.rules| then Removal(l, false)
    else
      var rule := l.rules[at];
      var rules := l.rules[..at] + l.rules[at + 1..];
      Removal(Lists(rules, if rule.Dummy? then l.css else DeleteAt(l.css, at)), true)
  }

  /** The removal loop `for (j = 0; j < ruleDiff.remove; j++)`. */
  function RemoveRun(l: Lists, at: nat, count: nat): Removal
    decreases count
  {
    if count == 0 then Removal(l, true)
    else
      var prior := RemoveRun(l, at, count - 1);
      if !prior.completed then prior else RemoveOne(prior.lists, at)
  }

  /** How many of `rules[lo..hi]` are not placeholders: the ones the sink
      mirrors. */
  function Mirrored(rules: seq<Rule>, lo: nat, hi: nat): nat
    requires lo <= hi <= |rules|
    decreases hi
  {
    if hi == lo then 0
    else Mirrored(rules, lo, hi - 1) + (if rules[hi - 1].Dummy? then 0 else 1)
  }

  /** `css` with up to `count` texts removed from `at` on. */
  function DropRun(css: seq<string>, at: nat, count: nat): seq<string> {
    if at >= |css| then css
    else css[..at] + css[Min(at + count, |css|)..]
  }

  lemma DropRunNext(css: seq<string>, at: nat, count: nat)
    ensures DeleteAt(DropRun(css, at, count), at) == DropRun(css, at, count + 1)
  {
    if at < |css| && at + count < |css| {
      var d := DropRun(css, at, count);
      assert d[..at] == css[..at] && d[at + 1..] == css[at + count + 1..];
    }
  }

  /** One more removal at `at` after `count - 1` of them. */
  lemma RemoveStepRules(rules: seq<Rule>, pr: seq<Rule>, at: nat, count: nat)
    requires 0 < count && at + count <= |rules|
    requires pr == rules[..at] + rules[at + count - 1..]
    ensures at < |pr| && pr[at] == rules[at + count - 1]
    ensures pr[..at] + pr[at + 1..] == rules[..at] + rules[at + count..]
  {
    assert pr[..at] == rules[..at];
    assert pr[at + 1..] == rules[at + count..];
  }

  lemma {:induction false} RemoveRunRules(l: Lists, at: nat, count: nat)
    ensures var r := RemoveRun(l, at, count);
      && (r.completed <==> count == 0 || at + count <= |l.rules|)
      && (count == 0 ==> r.lists == l)
      && (r.completed && count > 0 ==> r.lists.rules == l.rules[..at] + l.rules[at + count..])
      && (!r.completed ==> r.lists.rules == l.rules[..Min(at, |l.rules|)])
    decreases count
  {
    if count > 0 {
      RemoveRunRules(l, at, count - 1);
      var prior := RemoveRun(l, at, count - 1);
      if prior.completed {
        var pr := prior.lists.rules;
        if at + count <= |l.rules| {
          if count == 1 {
            assert pr == l.rules[..at] + l.rules[at..];
          }
          RemoveStepRules(l.rules, pr, at, count);
        } else if at < |l.rules| {
          assert pr == l.rules[..at];
        }
      }
    }
  }

  lemma RemoveCssStep(css: seq<string>, at: nat, m: nat, dummy: bool)
    ensures (if dummy then DropRun(css, at, m) else DeleteAt(DropRun(css, at, m), at))
      == DropRun(css, at, m + (if dummy then 0 else 1))
  {
    DropRunNext(css, at, m);
  }

  /** Before the last of `count` removals that all succeed, the rule at
      `at` is the last one of the run. */
  lemma RemoveRunPrior(l: Lists, at: nat, count: nat)
    requires 0 < count && at + count <= |l.rules|
    ensures RemoveRun(l, at, count - 1).completed
    ensures at < |RemoveRun(l, at, count - 1).lists.rules|
    ensures RemoveRun(l, at, count - 1).lists.rules[at] == l.rules[at + count - 1]
    ensures RemoveRun(l, at, count) == RemoveOne(RemoveRun(l, at, count - 1).lists, at)
  {
    var prior := RemoveRun(l, at, count - 1);
    RemoveRunRules(l, at, count - 1);
    if count == 1 {
      assert prior.lists.rules == l.rules[..at] + l.rules[at..];
    }
    RemoveStepRules(l.rules, prior.lists.rules, at, count);
  }

  /** One more removal from a sink that has lost `m` texts at `at` leaves it
      short of `m + 1` of them, or still of `m` for a placeholder. */
  lemma RemoveOneCssStep(prior: Removal, css: seq<string>, at: nat, m: nat, next: Removal)
    requires at < |prior.lists.rules| && prior.lists.css == DropRun(css, at, m)
    requires next == RemoveOne(prior.lists, at)
    ensures next.lists.css == DropRun(css, at, m + (if prior.lists.rules[at].Dummy? then 0 else 1))
  {
    RemoveOneCss(prior.lists, at);
    RemoveCssStep(css, at, m, prior.lists.rules[at].Dummy?);
  }

  lemma RemoveOneCss(l: Lists, at: nat)
    requires at < |l.rules|
    ensures RemoveOne(l, at).lists.css == if l.rules[at].Dummy? then l.css else DeleteAt(l.css, at)
  {
  }

  lemma {:induction false} RemoveRunCss(l: Lists, at: nat, count: nat)
    requires at + count <= |l.rules|
    ensures RemoveRun(l, at, count).lists.css == DropRun(l.css, at, Mirrored(l.rules, at, at + count))
    decreases count
  {
    if count > 0 {
      var prior := RemoveRun(l, at, count - 1);
      var m := Mirrored(l.rules, at, at + count - 1);
      var rule := l.rules[at + count - 1];
      RemoveRunCss(l, at, count - 1);
      RemoveRunPrior(l, at, count);
      RemoveOneCssStep(prior, l.css, at, m, RemoveRun(l, at, count));
      assert Mirrored(l.rules, at, at + count) == m + (if rule.Dummy? then 0 else 1);
    }
  }

  /** An entry with `remove: n` deletes the `n` rules from the cursor on,
      shifting the later ones down, and deletes from the sink, at the same
      position, as many texts as there were rules among them that are not
      placeholders. It runs to the end exactly when those `n` rules exist;
      otherwise it removes every rule from the cursor on and then throws. */
  lemma RemoveRunSpec(l: Lists, at: nat, count: nat)
    ensures var r := RemoveRun(l, at, count);
      && (r.completed <==> count == 0 || at + count <= |l.rules|)
      && (count == 0 ==> r.lists == l)
      && (r.completed && count > 0 ==>
            && r.lists.rules == l.rules[..at] + l.rules[at + count..]
            && r.lists.css == DropRun(l.css, at, Mirrored(l.rules, at, at + count)))
      && (!r.completed ==> r.lists.rules == l.rules[..Min(at, |l.rules|)])
  {
    RemoveRunRules(l, at, count);
    if count > 0 && at + count <= |l.rules| {
      RemoveRunCss(l, at, count);
    }
  }

  // ---------------------------------------------------------------------
  // Insertion and in-place application

  /** The object an insertion reads: `ruleDiff.insert` when present, else the
      entry itself. */
  function Payload(entry: Json): Json {
    if entry.insert.Some? then entry.insert.value else entry
  }

  /** `Rule.fromJSON` builds a rule from `payload` and the sink takes its text. */
  predicate Accepted(payload: Json, accepts: string -> bool) {
    FromJson(payload).Some? && accepts(RuleText(FromJson(payload).value))
  }

  /** An insertion that does not throw, for `payload` at `at`. An untyped
      payload inserts nothing. Otherwise the rule `Rule.fromJSON` builds is
      offered to the sink at `Math.min(at, length)`; when there is no rule
      (its `toString` throws) or the sink refuses its text, `Rule.dummy`
      takes the slot. */
  function InsertEntry(l: Lists, at: nat, payload: Json, accepts: string -> bool): Lists {
    if payload.ruleType == "" then l
    else
      match FromJson(payload)
      case None => Lists(InsertAt(l.rules, at, Dummy), l.css)
      case Some(r) =>
        if accepts(RuleText(r)) then Lists(InsertAt(l.rules, at, r), InsertAt(l.css, at, RuleText(r)))
        else Lists(InsertAt(l.rules, at, Dummy), l.css)
  }

  /** The insertion branch, given the `cssOk` that earlier passes left. A
      taken rule is inserted and sets `cssOk`. When the rule is refused or
      there is none, `Rule.dummy` takes its place; but if `cssOk` is already
      set, `rule.initCSS` is then called on `Rule.dummy`, which has no such
      method, and the call throws before anything is inserted. */
  function InsertBranch(l: Lists, at: nat, payload: Json, accepts: string -> bool, cssOk: bool): Inserted {
    if payload.ruleType == "" then Inserted(l, cssOk, true)
    else if Accepted(payload, accepts) then Inserted(InsertEntry(l, at, payload, accepts), true, true)
    else if cssOk then Inserted(l, true, false)
    else Inserted(InsertEntry(l, at, payload, accepts), false, true)
  }

  /** `rule.applyDiff(ruleDiff)` on the in-memory rule: a truthy
      `selectorText`, `mediaText` or `name` replaces the rule's own; a media
      rule replays `rules` against its nested list. A style diff only writes
      to the live DOM style, so it leaves the in-memory style as it is.
      `Keyframes.applyDiff` is not modelled: it deletes and rewrites the
      in-memory keyframes as well as the live ones, but here a keyframes
      rule keeps its keyframes. The nested list's own sink is
      not modelled: it is given as empty and its final state is dropped
      (see `PatchRulesIgnoreSink`). */
  function ApplyRuleDiff(rule: Rule, entry: Json, accepts: string -> bool, sticky: bool): Applied
    decreases entry, 1
  {
    match rule
    case StyleRule(selectorText, style) =>
      Applied(StyleRule(if entry.selectorText != "" then entry.selectorText else selectorText, style), true)
    case MediaRule(mediaText, rules) =>
      var nested := Patch(Lists(rules, []), entry.rules, accepts, sticky);
      Applied(MediaRule(if entry.mediaText != "" then entry.mediaText else mediaText, nested.lists.rules), nested.completed)
    case KeyframesRule(name, keyframes) =>
      Applied(KeyframesRule(if entry.name != "" then entry.name else name, keyframes), true)
    case Dummy => Applied(Dummy, true)
  }

  // ---------------------------------------------------------------------
  // The patch

  /** One iteration of the loop in `applyDiff`, for entry `i`. With `sticky`,
      `cssOk` survives from pass to pass, as the source has it (one `var`
      for the whole call); without it, every pass starts with `cssOk` unset. */
  function Step(st: State, i: nat, entry: Json, accepts: string -> bool, sticky: bool): State
    decreases entry, 2
  {
    if !st.completed then st
    else
      var skip := st.skip + entry.skip;
      var at := i + skip;
      var removal := RemoveRun(st.lists, at, entry.remove);
      if !removal.completed then State(removal.lists, skip, false, st.cssOk)
      else
        var l := removal.lists;
        if at >= |l.rules| || entry.insert.Some? then
          var ins := InsertBranch(l, at, Payload(entry), accepts, sticky && st.cssOk);
          State(ins.lists, skip, ins.completed, ins.cssOk)
        else
          var applied := ApplyRuleDiff(l.rules[at], entry, accepts, sticky);
          State(Lists(l.rules[at := applied.rule], l.css), skip, applied.completed, st.cssOk)
  }

  /** `applyDiff(diff)` from the lists `l`, with a sink that accepts exactly
      the rule texts `accepts` holds for. */
  function Patch(l: Lists, diff: seq<Json>, accepts: string -> bool, sticky: bool): State
    decreases diff, 0
  {
    if diff == [] then State(l, 0, true, false)
    else Step(Patch(l, diff[..|diff| - 1], accepts, sticky), |diff| - 1, diff[|diff| - 1], accepts, sticky)
  }

  /** The sum of the `skip` fields. */
  function SkipSum(diff: seq<Json>): nat
    decreases |diff|
  {
    if diff == [] then 0 else SkipSum(diff[..|diff| - 1]) + diff[|diff| - 1].skip
  }

  // ---------------------------------------------------------------------
  // Properties of one insertion, one in-place application, one step

  /** An untyped payload (a pure skip marker) inserts nothing. A typed one
      grows the list by exactly one at `Math.min(at, length)`, shifting the
      later rules up; the slot holds the rule `Rule.fromJSON` builds unless
      there is none or the sink refuses its text, in which case it holds
      `Rule.dummy` and the sink is left as it was. Either way the list has
      the same length, so later cursors land on the same rules. */
  lemma InsertEntrySpec(l: Lists, at: nat, payload: Json, accepts: string -> bool)
    ensures payload.ruleType == "" ==> InsertEntry(l, at, payload, accepts) == l
    ensures payload.ruleType != "" ==>
      var r := InsertEntry(l, at, payload, accepts);
      var k := Min(at, |l.rules|);
      && |r.rules| == |l.rules| + 1
      && r.rules[..k] == l.rules[..k] && r.rules[k + 1..] == l.rules[k..]
      && (r.rules[k].Dummy? <==> !Accepted(payload, accepts))
      && (!r.rules[k].Dummy? ==> FromJson(payload) == Some(r.rules[k]) && r.css == InsertAt(l.css, at, RuleText(r.rules[k])))
      && (r.rules[k].Dummy? ==> r.css == l.css)
  {
    if payload.ruleType != "" && FromJson(payload).Some? {
      FromJsonClean(payload);
    }
  }

  /** The insertion branch throws exactly when a typed payload is refused
      after `cssOk` was set; it then leaves the lists alone. Otherwise it
      inserts as `InsertEntry` does. `cssOk` ends up set once any rule was
      taken. */
  lemma InsertBranchSpec(l: Lists, at: nat, payload: Json, accepts: string -> bool, cssOk: bool)
    ensures var ins := InsertBranch(l, at, payload, accepts, cssOk);
      && (ins.completed <==> !(payload.ruleType != "" && !Accepted(payload, accepts) && cssOk))
      && ins.lists == (if ins.completed then InsertEntry(l, at, payload, accepts) else l)
      && ins.cssOk == (cssOk || (payload.ruleType != "" && Accepted(payload, accepts)))
  {
  }

  /** What `rule.applyDiff(ruleDiff)` changes: a rule keeps its kind; a
      plain rule takes a non-empty `selectorText` and keeps its style; a
      media rule takes a non-empty `mediaText` and the nested patch of
      `rules`, and throws when that patch throws; a keyframes rule takes a
      non-empty `name` and keeps its keyframes; the placeholder stays as it
      is. */
  lemma ApplyRuleDiffSpec(rule: Rule, entry: Json, accepts: string -> bool, sticky: bool)
    ensures var a := ApplyRuleDiff(rule, entry, accepts, sticky);
      && a.rule.StyleRule? == rule.StyleRule? && a.rule.MediaRule? == rule.MediaRule?
      && a.rule.KeyframesRule? == rule.KeyframesRule? && a.rule.Dummy? == rule.Dummy?
      && (!rule.MediaRule? ==> a.completed)
      && (rule.StyleRule? ==>
            a.rule.selectorText == (if entry.selectorText != "" then entry.selectorText else rule.selectorText)
            && a.rule.style == rule.style)
      && (rule.MediaRule? ==>
            var nested := Patch(Lists(rule.rules, []), entry.rules, accepts, sticky);
            && a.rule.mediaText == (if entry.mediaText != "" then entry.mediaText else rule.mediaText)
            && a.rule.rules == nested.lists.rules && a.completed == nested.completed)
      && (rule.KeyframesRule? ==>
            a.rule.name == (if entry.name != "" then entry.name else rule.name)
            && a.rule.keyframes == rule.keyframes)
      && (rule.Dummy? ==> a.rule == rule)
  {
  }

  /** One step from a running state: the cumulative skip grows by the
      entry's `skip`; a removal run past the end ends the patch. After the
      removals, a rule at the cursor without `insert` is patched in place:
      every other rule and the sink stay as the removals left them. An
      insertion throws exactly when a typed payload is refused while a
      sticky `cssOk` is set. When the step runs to the end, the list has
      lost `remove` rules and gained one exactly when a typed payload was
      inserted, that is when the entry carries `insert` or the cursor is
      past the end after the removals. */
  lemma StepSpec(st: State, i: nat, entry: Json, accepts: string -> bool, sticky: bool)
    requires st.completed
    ensures var after := Step(st, i, entry, accepts, sticky);
      var at := i + st.skip + entry.skip;
      var n := |st.lists.rules|;
      var r := RemoveRun(st.lists, at, entry.remove);
      && after.skip == st.skip + entry.skip
      && (entry.remove > 0 && at + entry.remove > n ==> !after.completed)
      && (r.completed && at < |r.lists.rules| && entry.insert.None? ==>
            var applied := ApplyRuleDiff(r.lists.rules[at], entry, accepts, sticky);
            && after.lists == Lists(r.lists.rules[at := applied.rule], r.lists.css)
            && after.completed == applied.completed)
      && (r.completed && (at >= |r.lists.rules| || entry.insert.Some?) ==>
            (!after.completed <==> Payload(entry).ruleType != "" && !Accepted(Payload(entry), accepts) && sticky && st.cssOk))
      && (after.completed ==>
            |after.lists.rules| == n - entry.remove
              + (if Payload(entry).ruleType != "" && (entry.insert.Some? || at >= n - entry.remove) then 1 else 0))
  {
    var at := i + st.skip + entry.skip;
    RemoveRunLength(st.lists, at, entry.remove);
    StepLength(st, i, entry, accepts, sticky);
    var removal := RemoveRun(st.lists, at, entry.remove);
    if removal.completed {
      InsertBranchSpec(removal.lists, at, Payload(entry), accepts, sticky && st.cssOk);
    }
  }

  lemma RemoveRunLength(l: Lists, at: nat, count: nat)
    ensures var r := RemoveRun(l, at, count);
      && (r.completed <==> count == 0 || at + count <= |l.rules|)
      && (r.completed ==> |r.lists.rules| == |l.rules| - count)
  {
    RemoveRunSpec(l, at, count);
  }

  lemma InsertBranchLength(l: Lists, at: nat, payload: Json, accepts: string -> bool, cssOk: bool)
    ensures var ins := InsertBranch(l, at, payload, accepts, cssOk);
      ins.completed ==> |ins.lists.rules| == |l.rules| + (if payload.ruleType != "" then 1 else 0)
  {
  }

  lemma StepLength(st: State, i: nat, entry: Json, accepts: string -> bool, sticky: bool)
    requires st.completed
    ensures var after := Step(st, i, entry, accepts, sticky);
      var at := i + st.skip + entry.skip;
      var n := |st.lists.rules|;
      after.completed ==>
        |after.lists.rules| == n - entry.remove
          + (if Payload(entry).ruleType != "" && (entry.insert.Some? || at >= n - entry.remove) then 1 else 0)
  {
    var at := i + st.skip + entry.skip;
    RemoveRunLength(st.lists, at, entry.remove);
    var removal := RemoveRun(st.lists, at, entry.remove);
    if removal.completed {
      InsertBranchLength(removal.lists, at, Payload(entry), accepts, sticky && st.cssOk);
    }
  }

  /** Without a sticky `cssOk`, an insertion never throws: after the
      removals, the insertion branch is exactly `InsertEntry`, so a refused
      rule leaves `Rule.dummy` in its slot and the patch goes on. */
  lemma RefusalKeepsGoing(st: State, i: nat, entry: Json, accepts: string -> bool)
    requires st.completed
    ensures var at := i + st.skip + entry.skip;
      var r := RemoveRun(st.lists, at, entry.remove);
      var after := Step(st, i, entry, accepts, false);
      r.completed && (at >= |r.lists.rules| || entry.insert.Some?) ==>
        after.completed && after.lists == InsertEntry(r.lists, at, Payload(entry), accepts)
  {
    var at := i + st.skip + entry.skip;
    var removal := RemoveRun(st.lists, at, entry.remove);
    if removal.completed {
      InsertBranchSpec(removal.lists, at, Payload(entry), accepts, false);
    }
  }

  /** A rule the sink takes, then one of unknown type: as written, the
      second insertion throws and `applyDiff` ends with only the first rule;
      with `cssOk` reset for every pass, the unknown type leaves
      `Rule.dummy` in its slot and the patch runs to the end. */
  lemma StaleOkThrows(accepts: string -> bool)
    requires forall text :: accepts(text)
    ensures var diff := [Blank.(ruleType := "rule", selectorText := "a"), Blank.(ruleType := "foo")];
      var start := Lists([], []);
      && Patch(start, diff, accepts, true) == State(Lists([StyleRule("a", [])], ["a{ }"]), 0, false, true)
      && Patch(start, diff, accepts, false) == State(Lists([StyleRule("a", []), Dummy], ["a{ }"]), 0, true, false)
  {
    var e0, e1 := Blank.(ruleType := "rule", selectorText := "a"), Blank.(ruleType := "foo");
    var diff := [e0, e1];
    var start := Lists([], []);
    assert RuleText(StyleRule("a", [])) == "a{ }" by {
      assert StyleDeclarationTexts([]) == [];
    }
    assert Accepted(e0, accepts);
    assert !Accepted(e1, accepts);
    assert diff[..1] == [e0] && [e0][..0] == [];
    var first := State(Lists([StyleRule("a", [])], ["a{ }"]), 0, true, true);
    assert Patch(start, [e0], accepts, true) == first;
    assert Patch(start, [e0], accepts, false) == first;
  }

  // ---------------------------------------------------------------------
  // Properties of the whole patch

  lemma PatchSnoc(l: Lists, diff: seq<Json>, n: nat, accepts: string -> bool, sticky: bool)
    requires n < |diff|
    ensures Patch(l, diff[..n + 1], accepts, sticky) == Step(Patch(l, diff[..n], accepts, sticky), n, diff[n], accepts, sticky)
  {
    assert diff[..n + 1][..n] == diff[..n];
  }

  /** The cumulative skip is the sum of the `skip` fields read so far: all
      of them while the patch runs, and never more. */
  lemma {:induction false} PatchSkip(l: Lists, diff: seq<Json>, accepts: string -> bool, sticky: bool)
    ensures Patch(l, diff, accepts, sticky).skip <= SkipSum(diff)
    ensures Patch(l, diff, accepts, sticky).completed ==> Patch(l, diff, accepts, sticky).skip == SkipSum(diff)
    decreases |diff|
  {
    if diff != [] {
      PatchSkip(l, diff[..|diff| - 1], accepts, sticky);
    }
  }

  /** The cursor of entry `i` is `i` plus the `skip` fields of entries
      `0..i`, its own included. */
  lemma PatchCursor(l: Lists, diff: seq<Json>, i: nat, accepts: string -> bool, sticky: bool)
    requires i < |diff| && Patch(l, diff[..i], accepts, sticky).completed
    ensures i + Patch(l, diff[..i], accepts, sticky).skip + diff[i].skip == i + SkipSum(diff[..i + 1])
  {
    PatchSkip(l, diff[..i], accepts, sticky);
    assert diff[..i + 1][..i] == diff[..i];
  }

  lemma StepSkip(st: State, i: nat, entry: Json, accepts: string -> bool, sticky: bool)
    ensures Step(st, i, entry, accepts, sticky).skip == if st.completed then st.skip + entry.skip else st.skip
  {
  }

  /** The cumulative skip only grows. */
  lemma {:induction false} PatchSkipGrows(l: Lists, diff: seq<Json>, j: nat, k: nat, accepts: string -> bool, sticky: bool)
    requires j <= k <= |diff|
    ensures Patch(l, diff[..j], accepts, sticky).skip <= Patch(l, diff[..k], accepts, sticky).skip
    decreases k
  {
    if j < k {
      PatchSkipGrows(l, diff, j, k - 1, accepts, sticky);
      PatchSnoc(l, diff, k - 1, accepts, sticky);
      StepSkip(Patch(l, diff[..k - 1], accepts, sticky), k - 1, diff[k - 1], accepts, sticky);
    }
  }

  /** An exception ends the patch: once a prefix of the entries fails, the
      later entries change nothing. */
  lemma {:induction false} PatchStops(l: Lists, diff: seq<Json>, m: nat, accepts: string -> bool, sticky: bool)
    requires m <= |diff| && !Patch(l, diff[..m], accepts, sticky).completed
    ensures Patch(l, diff, accepts, sticky) == Patch(l, diff[..m], accepts, sticky)
    decreases |diff|
  {
    if m < |diff| {
      var n := |diff| - 1;
      var front := diff[..n];
      assert front[..m] == diff[..m];
      PatchStops(l, front, m, accepts, sticky);
    } else {
      assert diff[..m] == diff;
    }
  }

  /** Two states that agree on everything but what their sinks hold. */
  predicate SameRules(a: State, b: State) {
    a.lists.rules == b.lists.rules && a.skip == b.skip && a.completed == b.completed && a.cssOk == b.cssOk
  }

  lemma {:induction false} RemoveRunIgnoresSink(rules: seq<Rule>, css1: seq<string>, css2: seq<string>, at: nat, count: nat)
    ensures RemoveRun(Lists(rules, css1), at, count).lists.rules == RemoveRun(Lists(rules, css2), at, count).lists.rules
    ensures RemoveRun(Lists(rules, css1), at, count).completed == RemoveRun(Lists(rules, css2), at, count).completed
    decreases count
  {
    if count > 0 {
      RemoveRunIgnoresSink(rules, css1, css2, at, count - 1);
    }
  }

  lemma InsertBranchIgnoresSink(l1: Lists, l2: Lists, at: nat, payload: Json, accepts: string -> bool, cssOk: bool)
    requires l1.rules == l2.rules
    ensures var a, b := InsertBranch(l1, at, payload, accepts, cssOk), InsertBranch(l2, at, payload, accepts, cssOk);
      a.lists.rules == b.lists.rules && a.cssOk == b.cssOk && a.completed == b.completed
  {
  }

  lemma StepInserts(st: State, i: nat, entry: Json, accepts: string -> bool, sticky: bool)
    requires st.completed
    ensures var at := i + st.skip + entry.skip;
      var r := RemoveRun(st.lists, at, entry.remove);
      var ins := InsertBranch(r.lists, at, Payload(entry), accepts, sticky && st.cssOk);
      r.completed && (at >= |r.lists.rules| || entry.insert.Some?) ==>
        Step(st, i, entry, accepts, sticky) == State(ins.lists, st.skip + entry.skip, ins.completed, ins.cssOk)
  {
  }

  lemma StepIgnoresSink(a: State, b: State, i: nat, entry: Json, accepts: string -> bool, sticky: bool)
    requires SameRules(a, b)
    ensures SameRules(Step(a, i, entry, accepts, sticky), Step(b, i, entry, accepts, sticky))
  {
    if a.completed {
      var at := i + a.skip + entry.skip;
      assert Lists(a.lists.rules, a.lists.css) == a.lists && Lists(a.lists.rules, b.lists.css) == b.lists;
      RemoveRunIgnoresSink(a.lists.rules, a.lists.css, b.lists.css, at, entry.remove);
      var r1, r2 := RemoveRun(a.lists, at, entry.remove), RemoveRun(b.lists, at, entry.remove);
      if !r1.completed {
        assert Step(a, i, entry, accepts, sticky) == State(r1.lists, a.skip + entry.skip, false, a.cssOk);
        assert Step(b, i, entry, accepts, sticky) == State(r2.lists, b.skip + entry.skip, false, b.cssOk);
      } else if at >= |r1.lists.rules| || entry.insert.Some? {
        InsertBranchIgnoresSink(r1.lists, r2.lists, at, Payload(entry), accepts, sticky && a.cssOk);
        StepInserts(a, i, entry, accepts, sticky);
        StepInserts(b, i, entry, accepts, sticky);
      } else {
        var applied := ApplyRuleDiff(r1.lists.rules[at], entry, accepts, sticky);
        assert ApplyRuleDiff(r2.lists.rules[at], entry, accepts, sticky) == applied;
        assert Step(a, i, entry, accepts, sticky).lists.rules == r1.lists.rules[at := applied.rule];
        assert Step(b, i, entry, accepts, sticky).lists.rules == r2.lists.rules[at := applied.rule];
      }
    }
  }

  /** The in-memory outcome of a patch does not depend on what the sink
      holds: only on which rule texts it accepts. */
  lemma {:induction false} PatchRulesIgnoreSink(rules: seq<Rule>, css1: seq<string>, css2: seq<string>, diff: seq<Json>, accepts: string -> bool, sticky: bool)
    ensures SameRules(Patch(Lists(rules, css1), diff, accepts, sticky), Patch(Lists(rules, css2), diff, accepts, sticky))
    decreases |diff|
  {
    if diff != [] {
      var n := |diff| - 1;
      PatchRulesIgnoreSink(rules, css1, css2, diff[..n], accepts, sticky);
      StepIgnoresSink(Patch(Lists(rules, css1), diff[..n], accepts, sticky), Patch(Lists(rules, css2), diff[..n], accepts, sticky), n, diff[n], accepts, sticky);
    }
  }

  /** Once a removal fails, the remaining passes of the loop are not run. */
  lemma {:induction false} RemoveRunStops(l: Lists, at: nat, j: nat, count: nat)
    requires j <= count && !RemoveRun(l, at, j).completed
    ensures RemoveRun(l, at, count) == RemoveRun(l, at, j)
    decreases count
  {
    if j < count {
      RemoveRunStops(l, at, j, count - 1);
    }
  }

  // ---------------------------------------------------------------------
  // The objects

  /** The browser's style sheet, as far as the patcher sees it: the texts of
      its rules, and the rule texts it can parse. */
  class StyleSheet {
    var cssRules: seq<string>
    const accepts: string -> bool

    constructor (cssRules: seq<string>, accepts: string -> bool)
      ensures this.cssRules == cssRules && this.accepts == accepts
    {
      this.cssRules := cssRules;
      this.accepts := accepts;
    }

    /** `insertRule(text, index)`: throws for an index past the end or for
        text the browser cannot parse. */
    method InsertRule(text: string, index: nat) returns (ok: bool)
      modifies this
      ensures ok == (index <= |old(cssRules)| && accepts(text))
      ensures cssRules == if ok then old(cssRules)[..index] + [text] + old(cssRules)[index..] else old(cssRules)
    {
      ok := index <= |cssRules| && accepts(text);
      if ok {
        cssRules := cssRules[..index] + [text] + cssRules[index..];
      }
    }

    /** `deleteRule(index)`: throws for an index past the end. */
    method DeleteRule(index: nat) returns (ok: bool)
      modifies this
      ensures ok == (index < |old(cssRules)|)
      ensures cssRules == if ok then old(cssRules)[..index] + old(cssRules)[index + 1..] else old(cssRules)
    {
      ok := index < |cssRules|;
      if ok {
        cssRules := cssRules[..index] + cssRules[index + 1..];
      }
    }
  }

  /** A sheet's rule list: the in-memory rules and the style sheet they
      mirror. */
  class RulesList {
    var rules: seq<Rule>
    const sheet: StyleSheet

    /** The list as `initCSS` leaves it, with the rules it read from the
        browser given. */
    constructor (sheet: StyleSheet, rules: seq<Rule>)
      ensures this.sheet == sheet && this.rules == rules
    {
      this.sheet := sheet;
      this.rules := rules;
    }

    /** `initJSON(obj)`. */
    method InitJSON(objs: seq<Json>)
      modifies this
      ensures rules == InitJson(objs)
    {
      rules := InitJson(objs);
    }

    /** The removal loop of `applyDiff`: `count` removals at `index`.
        Returns false where the source throws. */
    method RemoveRules(index: nat, count: nat) returns (completed: bool)
      modifies this, sheet
      ensures RemoveRun(Lists(old(rules), old(sheet.cssRules)), index, count) == Removal(Lists(rules, sheet.cssRules), completed)
    {
      ghost var before := Lists(rules, sheet.cssRules);
      for j := 0 to count
        invariant RemoveRun(before, index, j) == Removal(Lists(rules, sheet.cssRules), true)
      {
        if index >= |rules| {
          // `rule.dummy` on a missing rule throws
          RemoveRunStops(before, index, j + 1, count);
          return false;
        }
        var rule := rules[index];
        rules := rules[..index] + rules[index + 1..];
        if !rule.Dummy? {
          // a failed deletion is logged and the loop goes on
          var _ := sheet.DeleteRule(index);
        }
      }
      completed := true;
    }

    /** The insertion branch of `applyDiff` for `payload` at `index`, with
        the `cssOk` earlier passes left. Returns the new `cssOk`, and false
        where the source throws. */
    method Insert(index: nat, payload: Json, cssOk: bool) returns (nowOk: bool, completed: bool)
      modifies this, sheet
      ensures Inserted(Lists(rules, sheet.cssRules), nowOk, completed)
        == InsertBranch(Lists(old(rules), old(sheet.cssRules)), index, payload, sheet.accepts, cssOk)
    {
      nowOk, completed := cssOk, true;
      if payload.ruleType != "" {
        var built := FromJson(payload);
        var rule: Rule := Dummy;
        if built.Some? {
          // with no rule, `rule.toString()` throws inside the `try`
          var ok := sheet.InsertRule(RuleText(built.value), Min(index, |sheet.cssRules|));
          if ok {
            FromJsonClean(payload);
            rule := built.value;
            nowOk := true;
          }
        }
        if nowOk && rule.Dummy? {
          // `Rule.dummy` has no `initCSS`
          return nowOk, false;
        }
        rules := InsertAt(rules, index, rule);
      }
    }

    /** One pass of the loop in `applyDiff`, for entry `i` of the diff, with
        the cumulative skip and `cssOk` so far. Returns their new values,
        and false where the source throws. */
    method ApplyEntry(i: nat, skip: nat, cssOk: bool, ruleDiff: Json) returns (newSkip: nat, nowOk: bool, completed: bool)
      modifies this, sheet
      ensures State(Lists(rules, sheet.cssRules), newSkip, completed, nowOk)
        == Step(State(Lists(old(rules), old(sheet.cssRules)), skip, true, cssOk), i, ruleDiff, sheet.accepts, true)
    {
      newSkip, nowOk := skip, cssOk;
      if ruleDiff.skip > 0 {
        newSkip := newSkip + ruleDiff.skip;
      }
      var index := i + newSkip;
      // removed rules
      completed := RemoveRules(index, ruleDiff.remove);
      if !completed {
        return;
      }
      // inserted or changed rule
      if index >= |rules| || ruleDiff.insert.Some? {
        nowOk, completed := Insert(index, Payload(ruleDiff), cssOk);
      } else {
        var applied := ApplyRuleDiff(rules[index], ruleDiff, sheet.accepts, true);
        rules := rules[index := applied.rule];
        completed := applied.completed;
      }
    }

    /** `applyDiff(diff)`. Returns false where the source throws: a removal
        past the end of the list, a refused insertion after a taken one,
        here or in a nested media rule. */
    method ApplyDiff(diff: seq<Json>) returns (completed: bool)
      modifies this, sheet
      ensures var st := Patch(Lists(old(rules), old(sheet.cssRules)), diff, sheet.accepts, true);
        rules == st.lists.rules && sheet.cssRules == st.lists.css && completed == st.completed
    {
      ghost var start := Lists(rules, sheet.cssRules);
      var skip: nat := 0;
      var cssOk := false;
      for i := 0 to |diff|
        invariant Patch(start, diff[..i], sheet.accepts, true) == State(Lists(rules, sheet.cssRules), skip, true, cssOk)
      {
        PatchSnoc(start, diff, i, sheet.accepts, true);
        var ok;
        skip, cssOk, ok := ApplyEntry(i, skip, cssOk, diff[i]);
        if !ok {
          PatchStops(start, diff, i + 1, sheet.accepts, true);
          return false;
        }
      }
      assert diff[..|diff|] == diff;
      completed := true;
    }
  }
}
