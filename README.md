# NexusMail triage core, in Dafny

NexusMail is a small React inbox triager for two owners, Kevin and Vy. Each incoming email is
classified to Kevin, Vy, Both or Unassigned, and may be marked completed:

- The classifier first asks a semantic classifier (Gemini) with a prompt that lists each
  owner's rules.
- When that call fails, it falls back to deterministic keyword matching.

The inbox keeps a rule list and an email list. It adds and removes rules, marks emails complete,
deletes them, and ingests new ones. Ingesting detects replies, reuses thread ids, derives the
status and puts the new email on top. The dashboard shows the emails that pass a status filter
and an owner filter, newest first.

The project has seven modules:

- `Types` (`types.dfy`): the records and enumerations of `types.ts`. The owner set is a closed
  enumeration, and `Assignment` is `Single(owner) | Both | Unassigned`.
- `Text` (`text.dfy`): the JavaScript string operations used by the core. These are
  `toLowerCase` (ASCII letters), `indexOf`/`includes`, `replace` of a literal and `join`. The
  core never calls `split`. `Text.Split` is there only to state that a joined rule block can be
  taken apart again.
- `Seqs` (`seqs.dfy`): `filter` and `find` on arrays.
- `Classifier` (`classifier.dfy`): `analyzeEmail`. It covers the per-owner rule blocks, the
  keyword fallback, and the routing between the semantic classifier's answer and the fallback.
- `Inbox` (`inbox.dfy`): the handlers of `App.tsx`, as pure functions on the lists and as a class
  `App` whose fields are the component's state and whose methods replace them.
- `Dashboard` (`dashboard.dfy`): the `filteredEmails` filter and its newest-first sort.
- `Scenarios` (`scenarios.dfy`): concrete messages run through the model. Among them are the
  seeded rule "contracts" and the simulator's "Project Status" email.

The semantic classifier is a parameter:

- `CallOutcome` says whether the call threw or answered with a text. A missing text is the empty
  string, since the source treats both as falsy.
- A total function `parse` stands for `JSON.parse(...) as ClassificationResult`. It answers
  `Unparsable` where parsing throws, `ParsedNull` for the text `null`, and otherwise the parsed
  record.
- Random ids and the clock are parameters (`id`, `freshThreadId`, `freshId`, `now`). Timestamps
  are integers.

## Model

| member | source | states |
|---|---|---|
| `Classifier.RuleLines` | services/geminiService.ts:19 | one bullet line `- <keyword> (<type>)` per rule, in order |
| `Classifier.RuleBlock` | services/geminiService.ts:17-25 | an owner's rule block is empty exactly when that owner has no rule |
| `Classifier.RuleBlockAppend` | services/geminiService.ts:17-25 | adding a rule appends `"\n" + line` to its owner's block, or makes the block that line if it was empty; the other owner's block is unchanged, so each block lists its owner's rules in original order |
| `Classifier.RuleBlockLines` | services/geminiService.ts:17-25 | splitting a non-empty block at `"\n"` gives back exactly that owner's rule lines, when no keyword contains a newline |
| `Classifier.Corpus` | services/geminiService.ts:92-94 | the search text is lower-cased body, one space, lower-cased subject; its length is `|body| + 1 + |subject|` |
| `Classifier.RuleMatches` | services/geminiService.ts:96-97 | a rule matches iff its lower-cased keyword occurs somewhere in the corpus |
| `Classifier.OwnerMatched` | services/geminiService.ts:96-97 | an owner is matched iff some rule of that owner matches |
| `Classifier.AssignmentOf` | services/geminiService.ts:100-103 | Both iff both owners matched, Unassigned iff neither did, otherwise the one that did |
| `Classifier.Fallback` | services/geminiService.ts:92-109 | the reason is the fixed fallback string. `isCompleted` iff the corpus contains "done" and `|body| + 1 + |subject| < 50`. Both iff a Kevin rule and a Vy rule match. Unassigned iff no rule matches. A single owner only when every matching rule is that owner's. The rule type plays no part |
| `Classifier.FallbackFollowsMatchedOwners` | services/geminiService.ts:96-103 | Both iff at least two owners match, Unassigned iff none does, `Single(o)` iff the matched owners are exactly `{o}` |
| `Classifier.MatchedOwnersAddRule` | services/geminiService.ts:96-97 | adding a rule adds its owner to the matched owners when it matches, and otherwise changes nothing; no owner is ever removed |
| `Classifier.FallbackMonotone` | services/geminiService.ts:96-103 | more rules never lose a matched owner: Both stays Both, and Unassigned with more rules means Unassigned with fewer |
| `Classifier.FallbackIgnoresOrder` | services/geminiService.ts:96-97 | the fallback result does not depend on the order or repetition of rules |
| `Classifier.FallbackIgnoresCaseAndType` | services/geminiService.ts:92-97 | changing letter case in the message or the keywords, or any rule's type, does not change the fallback result |
| `Classifier.Analyze` | services/geminiService.ts:53-109 | a thrown call, an empty text or an unparsable text yields exactly the fallback result. A non-empty text that parses to a record yields that record unchecked. No result (a JSON `null`) comes back exactly when a non-empty text parses to `null` |
| `Classifier.AnalyzeReasonNonEmpty` | services/geminiService.ts:84-108 | whenever there is a result, its reason is non-empty, provided every parsed record has a non-empty reason. The code checks neither the enum nor the reason, so the proviso is needed |
| `Text.ToLowerCase` | services/geminiService.ts:92-93 | same length; each character lower-cased on its own |
| `Text.ToLowerCaseIdempotent` | services/geminiService.ts:96-97 | lower-casing twice is lower-casing once |
| `Text.Includes` | services/geminiService.ts:96-98 | `includes` holds iff the needle occurs at some index |
| `Text.IndexOf` | services/geminiService.ts:96-98 | -1 iff the needle occurs nowhere; otherwise an index where it occurs with no earlier occurrence |
| `Text.RemoveFirst` | App.tsx:50 | with no occurrence the string is unchanged; otherwise exactly the first occurrence is cut out |
| `Text.RemoveFirstLeading` | App.tsx:50 | a subject starting with the pattern loses exactly that copy |
| `Text.JoinSnoc` | services/geminiService.ts:20 | joining one more part appends the separator and that part (no separator before the first part) |
| `Text.SplitJoin` | services/geminiService.ts:20 | splitting at the separator undoes joining when no part contains it |
| `Seqs.Filter` | App.tsx:30 | every kept element is in the input and passes; every passing input element is kept; the kept multiset is within the input's |
| `Seqs.FilterConcat` | App.tsx:30 | filtering works part by part, so the survivors keep their order |
| `Seqs.FilterMultiset` | components/Dashboard.tsx:17 | a passing element keeps its count; a failing one has none |
| `Seqs.FindIndex` | App.tsx:50 | None iff no element satisfies the predicate; otherwise the first one that does |
| `Inbox.AppendRule` | App.tsx:24-27 | exactly one rule is added, at the end, with the given owner, keyword, type and new id; the old rules are the prefix |
| `Inbox.RemoveRule` | App.tsx:29-31 | no rule with that id remains; every other rule remains |
| `Inbox.RemoveRuleConcat` | App.tsx:29-31 | removal keeps the surviving rules in their original order |
| `Inbox.RemoveUndoesAppend` | App.tsx:24-31 | removing a just-added rule whose id was fresh restores the rule list |
| `Inbox.MarkComplete` | App.tsx:33-37 | same length; emails with that id become Completed and read with all other fields kept; every other email is unchanged |
| `Inbox.MarkCompleteIdempotent` | App.tsx:33-37 | marking twice is marking once |
| `Inbox.DeleteEmail` | App.tsx:39-41 | no email with that id remains; every other email remains |
| `Inbox.DeleteEmailConcat` | App.tsx:39-41 | deletion keeps the surviving emails in their original order |
| `Inbox.DeleteAfterMarkComplete` | App.tsx:33-41 | deleting after marking complete equals deleting directly |
| `Inbox.IsReply` | App.tsx:48 | a subject is a reply iff it starts with `r`/`R`, `e`/`E`, `:` |
| `Inbox.SameThread` | App.tsx:50 | an existing email is on the thread iff its subject, with its first "Re: " removed wherever it is, occurs in the new subject; a subject without "Re: " must occur as it is |
| `Inbox.ThreadIdFor` | App.tsx:50-51 | the fresh id when no existing email is on the thread; otherwise the thread id of the first email whose subject, minus its first "Re: ", is contained in the new subject |
| `Inbox.ReplyJoinsExistingThread` | App.tsx:50-51 | "Re: " + s joins the thread of the email with subject s, or of an earlier email, when s has no "Re: " in it |
| `Inbox.StatusFor` | App.tsx:65 | Completed iff completed; New Reply iff not completed and a reply; New Issue otherwise |
| `Inbox.Ingest` | App.tsx:44-74 | when the classifier gives a result, the new list is the new email followed by the old list. The new email has the given id, sender, subject, body and time, is unread, and has the thread id, reply flag, assignment, reason and status derived as above. When the result is a JSON `null`, reading `assignedTo` throws and the list is unchanged |
| `Inbox.IngestOnFailure` | App.tsx:53-72 | when the classifier call throws, the email is still prepended with the fallback's assignment, completion and reason; the old list stays behind it |
| `Inbox.IngestOfNullAnswer` | App.tsx:53-74 | a non-empty answer that parses to `null` leaves the email list exactly as it was |
| `Inbox.App.constructor` | App.tsx:14-16 | the state starts with the given rules and emails, not processing |
| `Inbox.App.HandleAddRule` | App.tsx:24-27 | the rules become `AppendRule` of the old rules; the emails and flag are unchanged |
| `Inbox.App.HandleRemoveRule` | App.tsx:29-31 | the rules become `RemoveRule` of the old rules; the emails and flag are unchanged |
| `Inbox.App.HandleMarkComplete` | App.tsx:33-37 | the emails become `MarkComplete` of the old emails; the rules and flag are unchanged |
| `Inbox.App.HandleDeleteEmail` | App.tsx:39-41 | the emails become `DeleteEmail` of the old emails; the rules and flag are unchanged |
| `Inbox.App.ProcessNewEmail` | App.tsx:44-78 | the emails become `Ingest` of the old emails and rules. When the classification is a JSON `null` the emails are unchanged (the `catch` at lines 71-72). In every case the rules are unchanged and the processing flag ends cleared (the `finally` at line 74) |
| `Dashboard.PassesStatus` | components/Dashboard.tsx:18-23 | Outstanding passes exactly New Issue and New Reply; Completed passes exactly the rest; All passes everything |
| `Dashboard.PassesOwner` | components/Dashboard.tsx:25-32 | the Kevin view shows Kevin and Both, and the Vy view shows Vy and Both. The Both view shows every assigned email. The Unassigned view shows only unassigned mail. All shows everything |
| `Dashboard.Shown` | components/Dashboard.tsx:17-32 | with owner All only the status filter decides; with status All only the owner filter decides |
| `Dashboard.Insert` | components/Dashboard.tsx:33 | inserting into a newest-first list keeps it newest first and adds exactly that element |
| `Dashboard.SortNewestFirst` | components/Dashboard.tsx:33 | the result is in non-increasing timestamp order and a permutation of the input |
| `Dashboard.FilteredEmails` | components/Dashboard.tsx:16-34 | newest first; an email is listed iff it is in the input and passes both filters |
| `Dashboard.FilteredEmailsCounts` | components/Dashboard.tsx:17-33 | each shown email appears as many times as in the input; no other email appears |
| `Dashboard.InitialViewIsOutstanding` | components/Dashboard.tsx:12-23 | the initial filters (owner All, status Outstanding) show exactly the emails that are not completed |
| `Scenarios.BodyMentions` | services/geminiService.ts:92-97 | a keyword occurring in the lower-cased body makes its rule match |
| `Scenarios.SubjectMentions` | services/geminiService.ts:92-97 | a keyword occurring in the lower-cased subject makes its rule match |
| `Scenarios.NoRulesMeansUnassigned` | services/geminiService.ts:96-103 | with an empty rule list every message is Unassigned |
| `Scenarios.LongMessagesNeverComplete` | services/geminiService.ts:98 | a message of 50 or more characters (body, space, subject) is never completed by the fallback |
| `Scenarios.UpperCaseBodyMatches` | services/geminiService.ts:92-103 | the rule "contract" assigns the body "The Contract" to Kevin |
| `Scenarios.BothOwnersMatch` | services/geminiService.ts:96-101 | a Kevin keyword as the body and a Vy keyword as the subject, in any case, give Both |
| `Scenarios.KeywordMatchesInsideLongerWord` | services/geminiService.ts:96-97 | "contract" matches the subject "Contracts" (no word boundaries) |
| `Scenarios.PluralKeywordMissesSingular` | constants.ts:4 | the seeded rule "contracts" (a plural keyword, matched as a substring) does not match a message whose subject is "Contract" and whose body is empty |
| `Scenarios.ShortDoneIsCompleted` | services/geminiService.ts:98 | a short message whose body starts with "Done" is completed |
| `Scenarios.SimulatedDoneEmailIsCompleted` | App.tsx:86 | the simulator's "Project Status" / "Done." email, ingested when the classifier call throws, is Completed, unread and not a reply |

## Left out

- The Gemini client is a parameter, not modelled: API key and client setup (services/geminiService.ts:5-9), the prompt prose (27-51), the response schema and the network call (54-82). Only the rule blocks that go into the prompt are modelled.
- `Classifier.Analyze`: the parsed answer's fields are used unchecked, exactly as the bare cast at services/geminiService.ts:85 does. The closed `Assignment` type cannot hold an out-of-range value that JavaScript would let through.
- `Text.ToLowerCase`: lower-cases ASCII letters only. JavaScript's Unicode case mapping, and string lengths counted in UTF-16 units, are not modelled.
- `Dashboard.SortNewestFirst`: states order and permutation but not stability. Emails with equal timestamps may appear in any order, although the insertion sort does keep them in input order.
- Timestamps are integers. ISO date strings, `Date` parsing and `NaN` for unparsable dates (components/Dashboard.tsx:33) are not modelled.
- `await`, React's batched state updates, the spinner, console logging and the simulator's input reset (App.tsx:45, 73-76) are left out. `ProcessNewEmail` runs its steps in order and clears the flag at the end.
- The `catch` of `processNewEmail` (App.tsx:71-72) is reached in one modelled way: an answer that parses to `null`, whose `assignedTo` cannot be read. The list then stays unchanged (`Inbox.IngestOfNullAnswer`). Failures inside `analyzeEmail` never reach it, since that function catches them and answers with the fallback. `Inbox.IngestOnFailure` states what the email then carries.
- Other JSON values the parse may give (a number, a string, a record with missing fields) are not modelled. JavaScript would read `undefined` fields from them and store an email with no assignment or reason; `parse` yields either `null` or a complete record.
- The random scenario pick (App.tsx:82-89) is not modelled; only the "Project Status" scenario is used, as a concrete witness.
- components/Settings.tsx is not part of this model. Its blank-after-trim check on new keywords is not a precondition of `Inbox.App.HandleAddRule`, which accepts any keyword, as `handleAddRule` itself does.
- Rendering, badges and navigation (components/Dashboard.tsx:37 onwards, the JSX of App.tsx) are not modelled.

Three behaviours of the code that are easy to misread:

- The thread lookup (App.tsx:50) tests whether the new subject *contains* an existing subject with its first "Re: " removed, wherever in that subject the "Re: " stands. It is not an equality, and the marker need not lead.
- The answer of the semantic classifier (services/geminiService.ts:84-85) is cast, not checked: neither the assignment value nor the reason is validated, and the reason may be empty. `Classifier.AnalyzeReasonNonEmpty` therefore needs its proviso about the parser.
- The dashboard's "Both" owner filter (components/Dashboard.tsx:27) shows every assigned email, not only those shared by both owners.
