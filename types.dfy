/** The records shared by the classifier, the inbox and the dashboard (types.ts). */
module Types {

  datatype Option<T> = None | Some(value: T)

  /** The two people a rule can route mail to (`Rule.owner`). */
  datatype Owner = Kevin | Vy

  /** `Assignment`: one owner, both owners, or nobody. */
  datatype Assignment = Single(owner: Owner) | Both | Unassigned

  /** `IssueStatus`: 'New Issue' | 'New Reply' | 'Completed'. */
  datatype IssueStatus = NewIssue | NewReply | Completed

  /** `Rule.type`: a literal keyword or a broader concept (only the semantic path tells them apart). */
  datatype RuleType = Keyword | Concept

  datatype Rule = Rule(id: string, owner: Owner, keyword: string, ruleType: RuleType)

  /** The part of an `Email` handed to the classifier: subject, body, sender and the reply flag. */
  datatype Message = Message(subject: string, body: string, sender: string, isReply: bool)

  /** `SortedItem`: an `Email` together with its triage state. The ISO timestamp string is
      represented by the instant it denotes, as an integer. */
  datatype Item = Item(
    id: string,
    sender: string,
    subject: string,
    body: string,
    timestamp: int,
    threadId: string,
    isReply: bool,
    assignedTo: Assignment,
    status: IssueStatus,
    isRead: bool,
    classificationReason: Option<string>)

  datatype ClassificationResult = ClassificationResult(assignedTo: Assignment, isCompleted: bool, reason: string)
}
