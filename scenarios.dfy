/** Concrete inputs run through the fallback classifier and the ingest step: the seeded rule
    for "contracts" (constants.ts), the simulator's "Done." email (App.tsx), and the usual
    case-insensitive, shared and completed cases. Each message is fixed by its subject and
    body; its sender and reply flag are left free, since the fallback never reads them. */
module Scenarios {
  import opened Types
  import opened Text
  import opened Classifier
  import Inbox

  /** A rule matches when its lower-cased keyword occurs in the lower-cased body. */
  lemma BodyMentions(m: Message, r: Rule, k: int)
    requires OccursAt(ToLowerCase(m.body), ToLowerCase(r.keyword), k)
    ensures RuleMatches(r, Corpus(m))
  {
    var c, n := Corpus(m), ToLowerCase(r.keyword);
    assert c[k..k + |n|] == ToLowerCase(m.body)[k..k + |n|];
    assert OccursAt(c, n, k);
  }

  /** A rule matches when its lower-cased keyword occurs in the lower-cased subject. */
  lemma SubjectMentions(m: Message, r: Rule, k: int)
    requires OccursAt(ToLowerCase(m.subject), ToLowerCase(r.keyword), k)
    ensures RuleMatches(r, Corpus(m))
  {
    var c, n, d := Corpus(m), ToLowerCase(r.keyword), |m.body| + 1;
    assert c[d + k..d + k + |n|] == ToLowerCase(m.subject)[k..k + |n|];
    assert OccursAt(c, n, d + k);
  }

  /** When every rule belongs to `o` and one of them matches, the message goes to `o` alone. */
  lemma SoleOwner(m: Message, rules: seq<Rule>, o: Owner, i: int)
    requires 0 <= i < |rules| && RuleMatches(rules[i], Corpus(m))
    requires forall j :: 0 <= j < |rules| ==> rules[j].owner == o
    ensures Fallback(m, rules).assignedTo == Single(o)
  {
    assert rules[i] in rules;
    if o.Kevin? { assert o == Kevin; } else { assert o == Vy; }
  }

  /** A matching rule of each owner makes the message shared. */
  lemma SharedOwners(m: Message, rules: seq<Rule>, i: int, j: int)
    requires 0 <= i < |rules| && rules[i].owner == Kevin && RuleMatches(rules[i], Corpus(m))
    requires 0 <= j < |rules| && rules[j].owner == Vy && RuleMatches(rules[j], Corpus(m))
    ensures Fallback(m, rules).assignedTo == Both
  {
    assert rules[i] in rules && rules[j] in rules;
  }

  /** With no rules at all every message is unassigned. */
  lemma NoRulesMeansUnassigned(m: Message)
    ensures Fallback(m, []).assignedTo == Unassigned
  {
  }

  /** A long message never counts as completed, whatever it says. */
  lemma LongMessagesNeverComplete(m: Message, rules: seq<Rule>)
    requires |m.body| + 1 + |m.subject| >= ShortMessageLimit
    ensures !Fallback(m, rules).isCompleted
  {
  }

  /** "The Contract", lower-cased, holds "contract" at index 4. */
  lemma ContractInBody(body: string, keyword: string)
    requires body == "The Contract" && keyword == "contract"
    ensures OccursAt(ToLowerCase(body), ToLowerCase(keyword), 4)
  {
    assert ToLowerCase(body)[4..12] == ToLowerCase(keyword);
  }

  /** Matching ignores case: the rule "contract" catches "Contract" in the body. */
  lemma UpperCaseBodyMatches(m: Message)
    requires m.subject == "Review" && m.body == "The Contract"
    ensures Fallback(m, [Rule("1", Kevin, "contract", Keyword)]).assignedTo == Single(Kevin)
  {
    var r := Rule("1", Kevin, "contract", Keyword);
    ContractInBody(m.body, r.keyword);
    BodyMentions(m, r, 4);
    SoleOwner(m, [r], Kevin, 0);
  }

  /** One rule per owner, one keyword as the body and the other as the subject, in any case:
      the message is shared. */
  lemma BothOwnersMatch(m: Message, k: Rule, v: Rule)
    requires k.owner == Kevin && v.owner == Vy
    requires ToLowerCase(m.body) == ToLowerCase(k.keyword) && ToLowerCase(m.subject) == ToLowerCase(v.keyword)
    ensures Fallback(m, [k, v]).assignedTo == Both
  {
    BodyMentions(m, k, 0);
    SubjectMentions(m, v, 0);
    SharedOwners(m, [k, v], 0, 1);
  }

  /** Substring matching has no word boundaries: "contract" matches "Contracts". */
  lemma KeywordMatchesInsideLongerWord(m: Message)
    requires m.subject == "Contracts" && m.body == ""
    ensures RuleMatches(Rule("1", Kevin, "contract", Keyword), Corpus(m))
  {
    var r := Rule("1", Kevin, "contract", Keyword);
    assert ToLowerCase(m.subject)[0..8] == ToLowerCase(r.keyword);
    SubjectMentions(m, r, 0);
  }

  /** The seeded rule "contracts" (plural) does not match a message that only says "Contract". */
  lemma PluralKeywordMissesSingular(m: Message)
    requires m.subject == "Contract" && m.body == ""
    ensures Fallback(m, [Rule("1", Kevin, "contracts", Concept)]).assignedTo == Unassigned
  {
    var c, n := Corpus(m), ToLowerCase("contracts");
    assert |c| == 9 && |n| == 9;
    assert c[0] == ' ';
    assert n[0] == 'c';
    assert c[0..9][0] != n[0];
    assert forall i :: !OccursAt(c, n, i);
  }

  /** A short message whose body opens with "Done" counts as completed. */
  lemma ShortDoneIsCompleted(m: Message, rules: seq<Rule>)
    requires |m.body| + 1 + |m.subject| < ShortMessageLimit
    requires |m.body| >= 4 && m.body[..4] == "Done"
    ensures Fallback(m, rules).isCompleted
  {
    assert ToLowerCase(m.body)[..4] == DoneToken;
    assert OccursAt(Corpus(m), DoneToken, 0);
  }

  /** The simulator's "Project Status" / "Done." email, classified while the semantic
      classifier is unreachable, enters the inbox as completed, unread and not a reply. */
  lemma SimulatedDoneEmailIsCompleted(emails: seq<Item>, rules: seq<Rule>, subject: string, body: string,
                                      parse: string -> ParseOutcome)
    requires subject == "Project Status" && body == "Done."
    ensures var r := Inbox.Ingest(emails, rules, subject, body, "Vy@stonehaven.com", Threw, parse, "t", "e", 0);
      r[0].status == Completed && !r[0].isRead && !r[0].isReply
  {
    var m := Message(subject, body, "Vy@stonehaven.com", false);
    assert ToLowerCase(subject)[0] == 'p';
    assert !Inbox.IsReply(subject);
    assert body[..4] == "Done";
    ShortDoneIsCompleted(m, rules);
  }
}
