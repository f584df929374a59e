/** `analyzeEmail` (services/geminiService.ts): the per-owner rule descriptions sent to the
    semantic classifier, the routing between its answer and the deterministic keyword
    fallback, and the fallback itself. */
module Classifier {
  import opened Types
  import opened Text
  import opened Seqs

  // ---------------------------------------------------------------------------------------
  // Rule descriptions for the request

  function RuleTypeName(t: RuleType): string {
    match t
    case Keyword => "Keyword"
    case Concept => "Concept"
  }

  /** One bullet line: `- <keyword> (<type>)`. */
  function RuleLine(r: Rule): string {
    "- " + r.keyword + " (" + RuleTypeName(r.ruleType) + ")"
  }

  function RuleLines(rules: seq<Rule>): (lines: seq<string>)
    ensures |lines| == |rules|
    ensures forall i :: 0 <= i < |rules| ==> lines[i] == RuleLine(rules[i])
  {
    if rules == [] then [] else [RuleLine(rules[0])] + RuleLines(rules[1..])
  }

  /** `rules.filter(r => r.owner === owner)`. */
  function OwnerRules(rules: seq<Rule>, owner: Owner): seq<Rule> {
    Filter(rules, (r: Rule) => r.owner == owner)
  }

  /** The block of bullet lines describing one owner's rules, joined by newlines. It is empty
      exactly when that owner has no rule. */
  function RuleBlock(rules: seq<Rule>, owner: Owner): (block: string)
    ensures block == "" <==> forall i :: 0 <= i < |rules| ==> rules[i].owner != owner
  {
    var own := OwnerRules(rules, owner);
    var lines := RuleLines(own);
    if own == [] then
      Join(lines, "\n")
    else
      assert own[0] in rules && own[0].owner == owner;
      assert lines[0] == RuleLine(own[0]) && RuleLine(own[0])[0] == '-';
      assert Join(lines, "\n")[0] == '-';
      Join(lines, "\n")
  }

  lemma RuleLinesConcat(a: seq<Rule>, b: seq<Rule>)
    ensures RuleLines(a + b) == RuleLines(a) + RuleLines(b)
  {
    var l, r := RuleLines(a + b), RuleLines(a) + RuleLines(b);
    assert forall i :: 0 <= i < |l| ==> l[i] == r[i];
  }

  lemma OwnerRulesSnoc(rules: seq<Rule>, r: Rule, owner: Owner)
    ensures OwnerRules(rules + [r], owner) ==
      if r.owner == owner then OwnerRules(rules, owner) + [r] else OwnerRules(rules, owner)
  {
    var keep := (x: Rule) => x.owner == owner;
    FilterConcat(rules, [r], keep);
    assert [r][1..] == [];
    assert Filter([r], keep) == if keep(r) then [r] else [];
  }

  /** Adding a rule extends its owner's block by one line at the end and leaves the other
      owner's block as it was: each block lists that owner's rules in their original order. */
  lemma RuleBlockAppend(rules: seq<Rule>, r: Rule, owner: Owner)
    ensures RuleBlock(rules + [r], owner) ==
      if r.owner != owner then RuleBlock(rules, owner)
      else if RuleBlock(rules, owner) == "" then RuleLine(r)
      else RuleBlock(rules, owner) + "\n" + RuleLine(r)
  {
    OwnerRulesSnoc(rules, r, owner);
    var own := OwnerRules(rules, owner);
    if r.owner == owner {
      RuleLinesConcat(own, [r]);
      assert RuleLines([r]) == [RuleLine(r)];
      JoinSnoc(RuleLines(own), RuleLine(r), "\n");
      if own != [] {
        assert RuleLines(own)[0] == RuleLine(own[0]);
        assert RuleLine(own[0])[0] == '-';
        assert RuleBlock(rules, owner) != "";
      }
    }
  }

  lemma RuleLineSingleLine(r: Rule)
    requires '\n' !in r.keyword
    ensures '\n' !in RuleLine(r)
  {
    var name := RuleTypeName(r.ruleType);
    assert '\n' !in name;
    assert '\n' !in "- " && '\n' !in " (" && '\n' !in ")";
  }

  /** Splitting an owner's block at its newlines gives back one line per rule of that owner,
      as long as no keyword itself contains a newline. */
  lemma RuleBlockLines(rules: seq<Rule>, owner: Owner)
    requires exists i :: 0 <= i < |rules| && rules[i].owner == owner
    requires forall i :: 0 <= i < |rules| ==> '\n' !in rules[i].keyword
    ensures Split(RuleBlock(rules, owner), '\n') == RuleLines(OwnerRules(rules, owner))
  {
    var own := OwnerRules(rules, owner);
    var i :| 0 <= i < |rules| && rules[i].owner == owner;
    assert rules[i] in own;
    var lines := RuleLines(own);
    forall k | 0 <= k < |lines| ensures '\n' !in lines[k] {
      assert own[k] in rules;
      RuleLineSingleLine(own[k]);
    }
    SplitJoin(lines, '\n');
  }

  // ---------------------------------------------------------------------------------------
  // Keyword fallback

  const FallbackReason: string := "Fallback: Keyword matching (Gemini unavailable)"

  /** The closure token the completion heuristic looks for. */
  const DoneToken: string := "done"

  /** The completion heuristic only fires on contents shorter than this many characters. */
  const ShortMessageLimit: nat := 50

  /** The search text: lower-cased body, one space, lower-cased subject. */
  function Corpus(m: Message): (c: string)
    ensures |c| == |m.body| + 1 + |m.subject|
  {
    ToLowerCase(m.body) + " " + ToLowerCase(m.subject)
  }

  /** A rule matches when its lower-cased keyword is a substring of the search text; the rule's
      type plays no part. */
  function RuleMatches(r: Rule, corpus: string): (b: bool)
    ensures b <==> exists i :: OccursAt(corpus, ToLowerCase(r.keyword), i)
  {
    if Includes(corpus, ToLowerCase(r.keyword)) then
      assert OccursAt(corpus, ToLowerCase(r.keyword), IndexOf(corpus, ToLowerCase(r.keyword)));
      true
    else
      false
  }

  /** `rules.some(r => r.owner === owner && content.includes(r.keyword.toLowerCase()))`. */
  function OwnerMatched(rules: seq<Rule>, owner: Owner, corpus: string): (b: bool)
    ensures b <==> exists i :: 0 <= i < |rules| && rules[i].owner == owner && RuleMatches(rules[i], corpus)
  {
    exists r | r in rules :: r.owner == owner && RuleMatches(r, corpus)
  }

  /** The if/else chain that turns the two match flags into an assignment. */
  function AssignmentOf(isKevin: bool, isVy: bool): (a: Assignment)
    ensures a == Both <==> isKevin && isVy
    ensures a == Unassigned <==> !isKevin && !isVy
    ensures a == Single(Kevin) <==> isKevin && !isVy
    ensures a == Single(Vy) <==> isVy && !isKevin
  {
    if isKevin && isVy then Both
    else if isKevin then Single(Kevin)
    else if isVy then Single(Vy)
    else Unassigned
  }

  /** The deterministic result used whenever the semantic classifier fails. */
  function Fallback(m: Message, rules: seq<Rule>): (r: ClassificationResult)
    ensures r.reason == FallbackReason
    ensures r.isCompleted <==>
      Includes(Corpus(m), DoneToken) && |m.body| + 1 + |m.subject| < ShortMessageLimit
    ensures r.assignedTo == Both <==>
      OwnerMatched(rules, Kevin, Corpus(m)) && OwnerMatched(rules, Vy, Corpus(m))
    ensures r.assignedTo == Unassigned <==>
      forall i :: 0 <= i < |rules| ==> !RuleMatches(rules[i], Corpus(m))
    ensures r.assignedTo.Single? ==>
      forall i :: 0 <= i < |rules| && RuleMatches(rules[i], Corpus(m)) ==> rules[i].owner == r.assignedTo.owner
  {
    var content := Corpus(m);
    var isKevin := OwnerMatched(rules, Kevin, content);
    var isVy := OwnerMatched(rules, Vy, content);
    var isDone := Includes(content, DoneToken) && |content| < ShortMessageLimit;
    ClassificationResult(AssignmentOf(isKevin, isVy), isDone, FallbackReason)
  }

  /** The set of owners with at least one matching rule. */
  ghost function MatchedOwners(rules: seq<Rule>, corpus: string): set<Owner> {
    set o: Owner | o in {Kevin, Vy} && OwnerMatched(rules, o, corpus)
  }

  /** The matched owners, read off the two per-owner flags. */
  lemma MatchedOwnersByFlags(rules: seq<Rule>, c: string)
    ensures MatchedOwners(rules, c) ==
      (if OwnerMatched(rules, Kevin, c) then {Kevin} else {}) + (if OwnerMatched(rules, Vy, c) then {Vy} else {})
  {
    var k, v := OwnerMatched(rules, Kevin, c), OwnerMatched(rules, Vy, c);
    forall o: Owner ensures o in MatchedOwners(rules, c) <==> (o == Kevin && k) || (o == Vy && v) {
      if o.Kevin? { assert o == Kevin; } else { assert o == Vy; }
    }
  }

  /** The fallback assignment is Both iff two owners match, Unassigned iff none does, and
      otherwise the one owner that matches. */
  lemma FallbackFollowsMatchedOwners(m: Message, rules: seq<Rule>)
    ensures var a, owners := Fallback(m, rules).assignedTo, MatchedOwners(rules, Corpus(m));
      && (a == Both <==> |owners| >= 2)
      && (a == Unassigned <==> owners == {})
      && (forall o: Owner :: a == Single(o) <==> owners == {o})
  {
    var c := Corpus(m);
    var k, v := OwnerMatched(rules, Kevin, c), OwnerMatched(rules, Vy, c);
    var owners := MatchedOwners(rules, c);
    var a := Fallback(m, rules).assignedTo;
    assert a == AssignmentOf(k, v);
    MatchedOwnersByFlags(rules, c);
    if k && v {
      assert |{Kevin, Vy}| == 2;
    } else if k || v {
      var w := if k then Kevin else Vy;
      assert owners == {w} && a == Single(w);
      forall o: Owner ensures owners == {o} <==> o == w {
        if owners == {o} { assert o in owners; }
      }
    }
  }

  /** Adding a rule adds at most its own owner to the matched owners and removes nobody. */
  lemma MatchedOwnersAddRule(rules: seq<Rule>, r: Rule, corpus: string)
    ensures MatchedOwners(rules + [r], corpus) ==
      MatchedOwners(rules, corpus) + (if RuleMatches(r, corpus) then {r.owner} else {})
  {
    forall o: Owner
      ensures OwnerMatched(rules + [r], o, corpus) <==>
        OwnerMatched(rules, o, corpus) || (r.owner == o && RuleMatches(r, corpus))
    {
      if OwnerMatched(rules + [r], o, corpus) {
        var x :| x in rules + [r] && x.owner == o && RuleMatches(x, corpus);
        assert x in rules || x == r;
      }
      if r.owner == o && RuleMatches(r, corpus) {
        assert r in rules + [r];
      }
      if OwnerMatched(rules, o, corpus) {
        var x :| x in rules && x.owner == o && RuleMatches(x, corpus);
        assert x in rules + [r];
      }
    }
    var extra: set<Owner> := if RuleMatches(r, corpus) then {r.owner} else {};
    forall o: Owner
      ensures o in MatchedOwners(rules + [r], corpus) <==> o in MatchedOwners(rules, corpus) + extra
    {
      if o.Kevin? { assert o == Kevin; } else { assert o == Vy; }
    }
  }

  /** More rules never lose a matched owner: the fallback result is monotone in the rules. */
  lemma FallbackMonotone(m: Message, rules: seq<Rule>, more: seq<Rule>)
    requires forall i :: 0 <= i < |rules| ==> rules[i] in more
    ensures MatchedOwners(rules, Corpus(m)) <= MatchedOwners(more, Corpus(m))
    ensures Fallback(m, rules).assignedTo == Both ==> Fallback(m, more).assignedTo == Both
    ensures Fallback(m, more).assignedTo == Unassigned ==> Fallback(m, rules).assignedTo == Unassigned
  {
    var c := Corpus(m);
    forall o: Owner | OwnerMatched(rules, o, c) ensures OwnerMatched(more, o, c) {
      var x :| x in rules && x.owner == o && RuleMatches(x, c);
      var i :| 0 <= i < |rules| && rules[i] == x;
    }
  }

  /** The fallback result does not depend on the order (or repetition) of the rules. */
  lemma FallbackIgnoresOrder(m: Message, rules: seq<Rule>, other: seq<Rule>)
    requires forall i :: 0 <= i < |rules| ==> rules[i] in other
    requires forall i :: 0 <= i < |other| ==> other[i] in rules
    ensures Fallback(m, rules) == Fallback(m, other)
  {
    FallbackMonotone(m, rules, other);
    FallbackMonotone(m, other, rules);
    var c := Corpus(m);
    assert OwnerMatched(rules, Kevin, c) == OwnerMatched(other, Kevin, c);
    assert OwnerMatched(rules, Vy, c) == OwnerMatched(other, Vy, c);
  }

  /** Case changes in the message or in the keywords, and the rule types, do not change the
      fallback result: only the lower-cased texts and the owners matter. */
  lemma FallbackIgnoresCaseAndType(m: Message, m': Message, rules: seq<Rule>, rules': seq<Rule>)
    requires ToLowerCase(m.body) == ToLowerCase(m'.body)
    requires ToLowerCase(m.subject) == ToLowerCase(m'.subject)
    requires |rules| == |rules'|
    requires forall i :: 0 <= i < |rules| ==>
      rules[i].owner == rules'[i].owner && ToLowerCase(rules[i].keyword) == ToLowerCase(rules'[i].keyword)
    ensures Fallback(m, rules) == Fallback(m', rules')
  {
    var c := Corpus(m);
    assert Corpus(m') == c;
    forall o: Owner ensures OwnerMatched(rules, o, c) == OwnerMatched(rules', o, c) {
      if OwnerMatched(rules, o, c) {
        var x :| x in rules && x.owner == o && RuleMatches(x, c);
        var i :| 0 <= i < |rules| && rules[i] == x;
        assert rules'[i] in rules' && RuleMatches(rules'[i], c);
      }
      if OwnerMatched(rules', o, c) {
        var x :| x in rules' && x.owner == o && RuleMatches(x, c);
        var i :| 0 <= i < |rules'| && rules'[i] == x;
        assert rules[i] in rules && RuleMatches(rules[i], c);
      }
    }
  }

  // ---------------------------------------------------------------------------------------
  // Routing between the semantic classifier and the fallback

  /** What the call to the semantic classifier did: it threw (network, credentials, quota), or
      it answered with a text (an absent text is the empty string: both are falsy). */
  datatype CallOutcome = Threw | Answered(text: string)

  /** What `JSON.parse(text) as ClassificationResult` gives: it throws, it yields `null` (the
      text "null"), or it yields a classification record. */
  datatype ParseOutcome = Unparsable | ParsedNull | ParsedResult(result: ClassificationResult)

  /** `analyzeEmail`, resolving to `None` where it resolves to `null`: a parsed `null` is
      returned as it is, since no exception is raised inside the `try`. */
  function Analyze(m: Message, rules: seq<Rule>, call: CallOutcome,
                   parse: string -> ParseOutcome): (r: Option<ClassificationResult>)
    ensures call.Threw? || call.text == "" || parse(call.text).Unparsable? ==> r == Some(Fallback(m, rules))
    ensures call.Answered? && call.text != "" && parse(call.text).ParsedResult? ==> r == Some(parse(call.text).result)
    ensures r.None? <==> call.Answered? && call.text != "" && parse(call.text).ParsedNull?
  {
    match call
    case Threw => Some(Fallback(m, rules))
    case Answered(text) =>
      if text == "" then Some(Fallback(m, rules))
      else
        match parse(text)
        case ParsedResult(result) => Some(result)
        case ParsedNull => None
        case Unparsable => Some(Fallback(m, rules))
  }

  /** Every classification carries a non-empty reason, provided the classifier's parsed records
      do: the code does not check that itself. */
  lemma AnalyzeReasonNonEmpty(m: Message, rules: seq<Rule>, call: CallOutcome,
                              parse: string -> ParseOutcome)
    requires forall t :: parse(t).ParsedResult? ==> parse(t).result.reason != ""
    ensures var r := Analyze(m, rules, call, parse); r.Some? ==> r.value.reason != ""
  {
    assert |FallbackReason| > 0;
  }
}
