/** The dashboard's list (components/Dashboard.tsx): a status filter, an owner filter, and
    a sort that puts the newest email first. */
module Dashboard {
  import opened Types
  import opened Seqs

  /** `filterStatus`: 'All' | 'Outstanding' | 'Completed'. */
  datatype StatusFilter = AllStatuses | Outstanding | CompletedOnly

  /** `filterOwner`: 'All' or one `Assignment`. */
  datatype OwnerFilter = AllOwners | OnlyFor(assignment: Assignment)

  /** The filters the dashboard starts with. */
  const InitialOwnerFilter: OwnerFilter := AllOwners
  const InitialStatusFilter: StatusFilter := Outstanding

  /** The status filter: Outstanding keeps new issues and new replies, Completed keeps the
      completed emails, All keeps everything. */
  function PassesStatus(e: Item, f: StatusFilter): (b: bool)
    ensures f == Outstanding ==> (b <==> e.status in {NewIssue, NewReply})
    ensures f == CompletedOnly ==> (b <==> e.status !in {NewIssue, NewReply})
    ensures f == AllStatuses ==> b
  {
    match f
    case Outstanding => e.status != Completed
    case CompletedOnly => e.status == Completed
    case AllStatuses => true
  }

  /** The owner filter: an owner's view includes shared mail, the "Both" view includes every
      assigned email, the "Unassigned" view is strict, and All shows everything. No owner view
      shows unassigned mail. */
  function PassesOwner(e: Item, f: OwnerFilter): (b: bool)
    ensures f.OnlyFor? && f.assignment.Single? ==> (b <==> e.assignedTo in {f.assignment, Both})
    ensures f == OnlyFor(Both) ==> (b <==> e.assignedTo != Unassigned)
    ensures f == OnlyFor(Unassigned) ==> (b <==> e.assignedTo == Unassigned)
    ensures f == AllOwners ==> b
  {
    match f
    case AllOwners => true
    case OnlyFor(Both) =>
      assert e.assignedTo.Single? ==> e.assignedTo.owner.Kevin? || e.assignedTo.owner.Vy?;
      e.assignedTo == Both || e.assignedTo == Single(Kevin) || e.assignedTo == Single(Vy)
    case OnlyFor(Single(Kevin)) => e.assignedTo == Single(Kevin) || e.assignedTo == Both
    case OnlyFor(Single(Vy)) => e.assignedTo == Single(Vy) || e.assignedTo == Both
    case OnlyFor(a) => e.assignedTo == a
  }

  /** The predicate `emails.filter` applies: the status filter, then the owner filter. With the
      owner filter at All only the status counts, and with the status filter at All only the
      owner counts. */
  function Shown(e: Item, owner: OwnerFilter, status: StatusFilter): (b: bool)
    ensures owner == AllOwners ==> (b <==> PassesStatus(e, status))
    ensures status == AllStatuses ==> (b <==> PassesOwner(e, owner))
  {
    PassesStatus(e, status) && PassesOwner(e, owner)
  }

  /** Emails in non-increasing timestamp order. */
  ghost predicate NewestFirst(s: seq<Item>) {
    forall i, j :: 0 <= i < j < |s| ==> s[i].timestamp >= s[j].timestamp
  }

  /** Putting an element no older than any of `s` in front keeps the order. */
  lemma PrependNewest(h: Item, s: seq<Item>)
    requires NewestFirst(s)
    requires forall k :: 0 <= k < |s| ==> s[k].timestamp <= h.timestamp
    ensures NewestFirst([h] + s)
  {
    var r := [h] + s;
    forall i, j | 0 <= i < j < |r| ensures r[i].timestamp >= r[j].timestamp {
      assert r[j] == s[j - 1];
      if i > 0 { assert r[i] == s[i - 1]; }
    }
  }

  /** In a newest-first list the head is no older than the rest, nor than an element older
      than the head; so it is no older than anything built from the two. */
  lemma HeadIsNewest(s: seq<Item>, x: Item, rest: seq<Item>)
    requires NewestFirst(s) && s != [] && x.timestamp < s[0].timestamp
    requires forall k :: 0 <= k < |rest| ==> rest[k] == x || rest[k] in s[1..]
    ensures forall k :: 0 <= k < |rest| ==> rest[k].timestamp <= s[0].timestamp
  {
    forall k | 0 <= k < |rest| ensures rest[k].timestamp <= s[0].timestamp {
      if rest[k] != x {
        var j :| 0 <= j < |s[1..]| && s[1..][j] == rest[k];
        assert s[j + 1] == rest[k];
      }
    }
  }

  /** Places `x` in front of the first element that is not newer than it, so that among equal
      timestamps the earlier element stays first. */
  function Insert(x: Item, s: seq<Item>): (r: seq<Item>)
    requires NewestFirst(s)
    ensures NewestFirst(r)
    ensures multiset(r) == multiset(s) + multiset{x}
    ensures forall k :: 0 <= k < |r| ==> r[k] == x || r[k] in s
  {
    if s == [] || s[0].timestamp <= x.timestamp then
      assert forall k :: 0 <= k < |s| ==> s[k].timestamp <= x.timestamp by {
        forall k | 0 <= k < |s| ensures s[k].timestamp <= x.timestamp {
          if k > 0 { assert s[0].timestamp >= s[k].timestamp; }
        }
      }
      PrependNewest(x, s);
      [x] + s
    else
      var rest := Insert(x, s[1..]);
      HeadIsNewest(s, x, rest);
      PrependNewest(s[0], rest);
      assert s == [s[0]] + s[1..];
      [s[0]] + rest
  }

  /** `sort((a, b) => b.timestamp - a.timestamp)`: the same emails, newest first. */
  function SortNewestFirst(s: seq<Item>): (r: seq<Item>)
    ensures NewestFirst(r)
    ensures multiset(r) == multiset(s)
  {
    if s == [] then []
    else
      assert s == [s[0]] + s[1..];
      Insert(s[0], SortNewestFirst(s[1..]))
  }

  /** Sorting neither adds nor drops an email. */
  lemma SortKeepsElements(s: seq<Item>)
    ensures forall e :: e in SortNewestFirst(s) <==> e in s
  {
    forall e ensures e in SortNewestFirst(s) <==> e in s {
      assert e in SortNewestFirst(s) <==> e in multiset(SortNewestFirst(s));
    }
  }

  /** The filter keeps exactly the emails that are shown. */
  lemma KeptAreShown(emails: seq<Item>, owner: OwnerFilter, status: StatusFilter)
    ensures forall e :: e in Filter(emails, (x: Item) => Shown(x, owner, status)) <==>
      e in emails && Shown(e, owner, status)
  {
    var kept := Filter(emails, (x: Item) => Shown(x, owner, status));
    forall e ensures e in kept <==> e in emails && Shown(e, owner, status) {
      if e in emails && Shown(e, owner, status) {
        var i :| 0 <= i < |emails| && emails[i] == e;
      }
      if e in kept {
        var i :| 0 <= i < |kept| && kept[i] == e;
      }
    }
  }

  /** `filteredEmails`. */
  function FilteredEmails(emails: seq<Item>, owner: OwnerFilter, status: StatusFilter): (r: seq<Item>)
    ensures NewestFirst(r)
    ensures forall e :: e in r <==> e in emails && Shown(e, owner, status)
  {
    var kept := Filter(emails, (e: Item) => Shown(e, owner, status));
    var r := SortNewestFirst(kept);
    SortKeepsElements(kept);
    KeptAreShown(emails, owner, status);
    r
  }

  /** The list holds each shown email exactly as many times as the input does, and no other. */
  lemma FilteredEmailsCounts(emails: seq<Item>, owner: OwnerFilter, status: StatusFilter, e: Item)
    ensures multiset(FilteredEmails(emails, owner, status))[e] ==
      if Shown(e, owner, status) then multiset(emails)[e] else 0
  {
    FilterMultiset(emails, (x: Item) => Shown(x, owner, status), e);
  }

  /** The dashboard opens on every outstanding email, whoever it is assigned to. */
  lemma InitialViewIsOutstanding(emails: seq<Item>)
    ensures forall e :: e in FilteredEmails(emails, InitialOwnerFilter, InitialStatusFilter) <==>
      e in emails && e.status != Completed
  {
  }
}
