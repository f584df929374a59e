/** The inbox component (App.tsx): its rule list and email list, the handlers that replace
    them, and the ingest step that classifies a new email and puts it at the top. */
module Inbox {
  import opened Types
  import opened Text
  import opened Seqs
  import Classifier

  // ---------------------------------------------------------------------------------------
  // Rule list

  /** `[...rules, { ...newRule, id }]`. */
  function AppendRule(rules: seq<Rule>, owner: Owner, keyword: string, ruleType: RuleType, id: string): (r: seq<Rule>)
    ensures |r| == |rules| + 1 && r[..|rules|] == rules
    ensures r[|rules|] == Rule(id, owner, keyword, ruleType)
  {
    rules + [Rule(id, owner, keyword, ruleType)]
  }

  /** `rules.filter(r => r.id !== id)`. */
  function RemoveRule(rules: seq<Rule>, id: string): (r: seq<Rule>)
    ensures forall i :: 0 <= i < |r| ==> r[i] in rules && r[i].id != id
    ensures forall i :: 0 <= i < |rules| && rules[i].id != id ==> rules[i] in r
  {
    Filter(rules, (x: Rule) => x.id != id)
  }

  /** Removal keeps the surviving rules in their original order: it works part by part. */
  lemma RemoveRuleConcat(a: seq<Rule>, b: seq<Rule>, id: string)
    ensures RemoveRule(a + b, id) == RemoveRule(a, id) + RemoveRule(b, id)
  {
    FilterConcat(a, b, (x: Rule) => x.id != id);
  }

  /** Removing a rule whose id was fresh when it was added gives back the rule list as it was. */
  lemma RemoveUndoesAppend(rules: seq<Rule>, owner: Owner, keyword: string, ruleType: RuleType, id: string)
    requires forall i :: 0 <= i < |rules| ==> rules[i].id != id
    ensures RemoveRule(AppendRule(rules, owner, keyword, ruleType, id), id) == rules
  {
    var added := Rule(id, owner, keyword, ruleType);
    RemoveRuleConcat(rules, [added], id);
    FilterKeepsAll(rules, (x: Rule) => x.id != id);
    assert [added][1..] == [];
  }

  // ---------------------------------------------------------------------------------------
  // Email list

  /** `emails.map(e => e.id === id ? { ...e, status: 'Completed', isRead: true } : e)`. */
  function MarkComplete(emails: seq<Item>, id: string): (r: seq<Item>)
    ensures |r| == |emails|
    ensures forall i :: 0 <= i < |emails| && emails[i].id != id ==> r[i] == emails[i]
    ensures forall i :: 0 <= i < |emails| && emails[i].id == id ==>
      r[i].status == Completed && r[i].isRead && r[i].(status := emails[i].status, isRead := emails[i].isRead) == emails[i]
  {
    if emails == [] then []
    else
      var e := emails[0];
      [if e.id == id then e.(status := Completed, isRead := true) else e] + MarkComplete(emails[1..], id)
  }

  /** Marking the same email complete twice is the same as marking it once. */
  lemma MarkCompleteIdempotent(emails: seq<Item>, id: string)
    ensures MarkComplete(MarkComplete(emails, id), id) == MarkComplete(emails, id)
  {
    var once := MarkComplete(emails, id);
    var twice := MarkComplete(once, id);
    forall i | 0 <= i < |emails| ensures twice[i] == once[i] {
      if emails[i].id == id {
        assert once[i] == emails[i].(status := Completed, isRead := true);
      }
    }
  }

  /** `emails.filter(e => e.id !== id)`. */
  function DeleteEmail(emails: seq<Item>, id: string): (r: seq<Item>)
    ensures forall i :: 0 <= i < |r| ==> r[i] in emails && r[i].id != id
    ensures forall i :: 0 <= i < |emails| && emails[i].id != id ==> emails[i] in r
  {
    Filter(emails, (e: Item) => e.id != id)
  }

  /** Deletion keeps the surviving emails in their original order: it works part by part. */
  lemma DeleteEmailConcat(a: seq<Item>, b: seq<Item>, id: string)
    ensures DeleteEmail(a + b, id) == DeleteEmail(a, id) + DeleteEmail(b, id)
  {
    FilterConcat(a, b, (e: Item) => e.id != id);
  }

  /** Deleting an email after marking it complete is the same as deleting it straight away:
      marking touches nothing but the emails that deletion removes. */
  lemma {:induction false} DeleteAfterMarkComplete(emails: seq<Item>, id: string)
    ensures DeleteEmail(MarkComplete(emails, id), id) == DeleteEmail(emails, id)
  {
    if emails != [] {
      var head := MarkComplete(emails, id)[0];
      assert MarkComplete(emails, id) == [head] + MarkComplete(emails[1..], id);
      assert emails == [emails[0]] + emails[1..];
      DeleteEmailConcat([head], MarkComplete(emails[1..], id), id);
      DeleteEmailConcat([emails[0]], emails[1..], id);
      DeleteAfterMarkComplete(emails[1..], id);
      assert [head][1..] == [] && [emails[0]][1..] == [];
    }
  }

  // ---------------------------------------------------------------------------------------
  // Ingest of a new email

  /** `subject.toLowerCase().startsWith('re:')`: the subject starts with "re:" in any letter case. */
  function IsReply(subject: string): (b: bool)
    ensures b <==> |subject| >= 3 && subject[0] in "rR" && subject[1] in "eE" && subject[2] == ':'
  {
    assert |subject| >= 3 ==>
      ToLowerCase(subject)[..3] == [LowerChar(subject[0]), LowerChar(subject[1]), LowerChar(subject[2])];
    "re:" <= ToLowerCase(subject)
  }

  /** The reply marker `replace` strips from an existing subject before comparing. */
  const ReplyMarker: string := "Re: "

  /** `subject.includes(e.subject.replace('Re: ', ''))`: the new subject contains the existing
      email's subject with its first "Re: " (case-sensitive, anywhere) taken out. */
  function SameThread(subject: string, e: Item): (b: bool)
    ensures b <==> exists i :: OccursAt(subject, RemoveFirst(e.subject, ReplyMarker), i)
    ensures !Includes(e.subject, ReplyMarker) ==> (b <==> Includes(subject, e.subject))
  {
    if Includes(subject, RemoveFirst(e.subject, ReplyMarker)) then
      assert OccursAt(subject, RemoveFirst(e.subject, ReplyMarker), IndexOf(subject, RemoveFirst(e.subject, ReplyMarker)));
      true
    else
      false
  }

  /** The first existing email on the same thread, if any. */
  predicate FirstOfThread(emails: seq<Item>, subject: string, i: int) {
    0 <= i < |emails| && SameThread(subject, emails[i])
    && forall j :: 0 <= j < i ==> !SameThread(subject, emails[j])
  }

  /** The thread of the first existing email on the same thread, or the fresh id when there is none. */
  function ThreadIdFor(emails: seq<Item>, subject: string, freshThreadId: string): (t: string)
    ensures (forall i :: 0 <= i < |emails| ==> !SameThread(subject, emails[i])) ==> t == freshThreadId
    ensures (exists i :: 0 <= i < |emails| && SameThread(subject, emails[i])) ==>
      exists i :: FirstOfThread(emails, subject, i) && t == emails[i].threadId
  {
    match FindIndex(emails, (e: Item) => SameThread(subject, e))
    case Some(i) =>
      assert FirstOfThread(emails, subject, i);
      emails[i].threadId
    case None => freshThreadId
  }

  /** A reply "Re: <s>" to an email whose subject s has no "Re: " in it joins an existing thread. */
  lemma ReplyJoinsExistingThread(emails: seq<Item>, k: nat, freshThreadId: string)
    requires k < |emails| && !Includes(emails[k].subject, ReplyMarker)
    ensures exists i :: 0 <= i <= k && ThreadIdFor(emails, ReplyMarker + emails[k].subject, freshThreadId) == emails[i].threadId
  {
    var s := emails[k].subject;
    var subject := ReplyMarker + s;
    assert RemoveFirst(s, ReplyMarker) == s;
    assert OccursAt(subject, s, |ReplyMarker|) by {
      assert subject[|ReplyMarker|..|ReplyMarker| + |s|] == s;
    }
    assert SameThread(subject, emails[k]);
    var t := ThreadIdFor(emails, subject, freshThreadId);
    var i :| FirstOfThread(emails, subject, i) && t == emails[i].threadId;
    assert i <= k;
  }

  /** `classification.isCompleted ? 'Completed' : (isReply ? 'New Reply' : 'New Issue')`. */
  function StatusFor(isCompleted: bool, isReply: bool): (s: IssueStatus)
    ensures s == Completed <==> isCompleted
    ensures s == NewReply <==> !isCompleted && isReply
    ensures s == NewIssue <==> !isCompleted && !isReply
  {
    if isCompleted then Completed else if isReply then NewReply else NewIssue
  }

  /** The email list after `processNewEmail`: the classified email, unread, goes in front of
      the emails there were. When the classifier's answer parses to `null`, reading
      `classification.assignedTo` throws, the `catch` swallows the error and the list stays as
      it was. `call` and `parse` stand for the semantic classifier (see `Classifier.Analyze`);
      `freshThreadId`, `freshId` and `now` for the random ids and the clock. */
  function Ingest(emails: seq<Item>, rules: seq<Rule>, subject: string, body: string, sender: string,
                  call: Classifier.CallOutcome, parse: string -> Classifier.ParseOutcome,
                  freshThreadId: string, freshId: string, now: int): (r: seq<Item>)
    ensures Classifier.Analyze(Message(subject, body, sender, IsReply(subject)), rules, call, parse).None? ==>
      r == emails
    ensures var a := Classifier.Analyze(Message(subject, body, sender, IsReply(subject)), rules, call, parse);
      a.Some? ==>
      var c := a.value;
      && |r| == |emails| + 1 && r[1..] == emails
      && r[0].id == freshId && r[0].sender == sender && r[0].subject == subject && r[0].body == body
      && r[0].timestamp == now && !r[0].isRead
      && r[0].threadId == ThreadIdFor(emails, subject, freshThreadId)
      && (r[0].isReply <==> IsReply(subject))
      && r[0].assignedTo == c.assignedTo && r[0].classificationReason == Some(c.reason)
      && (r[0].status == Completed <==> c.isCompleted)
      && (r[0].status == NewReply <==> !c.isCompleted && IsReply(subject))
  {
    var isReply := IsReply(subject);
    var threadId := ThreadIdFor(emails, subject, freshThreadId);
    match Classifier.Analyze(Message(subject, body, sender, isReply), rules, call, parse)
    case None => emails
    case Some(c) =>
      var item := Item(freshId, sender, subject, body, now, threadId, isReply,
                       c.assignedTo, StatusFor(c.isCompleted, isReply), false, Some(c.reason));
      [item] + emails
  }

  /** When the semantic classifier fails, the email is still added: `analyzeEmail` catches the
      failure itself, so the new email carries the keyword fallback's assignment and reason and
      the emails already there stay as they were, behind it. */
  lemma IngestOnFailure(emails: seq<Item>, rules: seq<Rule>, subject: string, body: string, sender: string,
                        parse: string -> Classifier.ParseOutcome,
                        freshThreadId: string, freshId: string, now: int)
    ensures var r := Ingest(emails, rules, subject, body, sender, Classifier.Threw, parse, freshThreadId, freshId, now);
      var f := Classifier.Fallback(Message(subject, body, sender, IsReply(subject)), rules);
      && |r| == |emails| + 1 && r[1..] == emails
      && r[0].assignedTo == f.assignedTo
      && r[0].classificationReason == Some(Classifier.FallbackReason)
      && (r[0].status == Completed <==> f.isCompleted)
  {
  }

  /** An answer that parses to `null` adds nothing: the email list is the one there was. */
  lemma IngestOfNullAnswer(emails: seq<Item>, rules: seq<Rule>, subject: string, body: string, sender: string,
                           text: string, parse: string -> Classifier.ParseOutcome,
                           freshThreadId: string, freshId: string, now: int)
    requires text != "" && parse(text) == Classifier.ParsedNull
    ensures Ingest(emails, rules, subject, body, sender, Classifier.Answered(text), parse, freshThreadId, freshId, now) == emails
  {
  }

  // ---------------------------------------------------------------------------------------
  // The component's state

  /** The state the `App` component keeps: rules, emails and the processing flag. */
  class App {
    var rules: seq<Rule>
    var emails: seq<Item>
    var isProcessing: bool

    constructor (initialRules: seq<Rule>, initialEmails: seq<Item>)
      ensures rules == initialRules && emails == initialEmails && !isProcessing
    {
      rules := initialRules;
      emails := initialEmails;
      isProcessing := false;
    }

    /** `handleAddRule`; `id` stands for the random id the source draws. */
    method HandleAddRule(owner: Owner, keyword: string, ruleType: RuleType, id: string)
      modifies this
      ensures rules == AppendRule(old(rules), owner, keyword, ruleType, id)
      ensures emails == old(emails) && isProcessing == old(isProcessing)
    {
      rules := AppendRule(rules, owner, keyword, ruleType, id);
    }

    /** `handleRemoveRule`. */
    method HandleRemoveRule(id: string)
      modifies this
      ensures rules == RemoveRule(old(rules), id)
      ensures emails == old(emails) && isProcessing == old(isProcessing)
    {
      rules := RemoveRule(rules, id);
    }

    /** `handleMarkComplete`. */
    method HandleMarkComplete(id: string)
      modifies this
      ensures emails == MarkComplete(old(emails), id)
      ensures rules == old(rules) && isProcessing == old(isProcessing)
    {
      emails := MarkComplete(emails, id);
    }

    /** `handleDeleteEmail`. */
    method HandleDeleteEmail(id: string)
      modifies this
      ensures emails == DeleteEmail(old(emails), id)
      ensures rules == old(rules) && isProcessing == old(isProcessing)
    {
      emails := DeleteEmail(emails, id);
    }

    /** `processNewEmail`: computes the reply flag and the thread from the emails at hand,
        classifies with the current rules, puts the new email in front unless the
        classification is `null`, and ends with the processing flag cleared. */
    method ProcessNewEmail(subject: string, body: string, sender: string,
                           call: Classifier.CallOutcome, parse: string -> Classifier.ParseOutcome,
                           freshThreadId: string, freshId: string, now: int)
      modifies this
      ensures emails == Ingest(old(emails), old(rules), subject, body, sender, call, parse, freshThreadId, freshId, now)
      ensures Classifier.Analyze(Message(subject, body, sender, IsReply(subject)), old(rules), call, parse).None? ==>
        emails == old(emails)
      ensures rules == old(rules) && !isProcessing
    {
      isProcessing := true;
      var isReply := IsReply(subject);
      var threadId := ThreadIdFor(emails, subject, freshThreadId);
      var classification := Classifier.Analyze(Message(subject, body, sender, isReply), rules, call, parse);
      if classification.Some? {
        var c := classification.value;
        var newEmail := Item(freshId, sender, subject, body, now, threadId, isReply, c.assignedTo,
                             StatusFor(c.isCompleted, isReply), false, Some(c.reason));
        emails := [newEmail] + emails;
      }
      isProcessing := false;
    }
  }
}
