/**
 * The proposal list (Propostas): the record, the query that the table shows
 * (status filter, keyword search, sort), edit-save, status changes with the
 * actions the menu offers, and the creation of a draft with a fresh id.
 */
module Proposals {
  import opened Wrappers
  import opened Text
  import opened Collections
  import opened RecordDiff
  import opened ListView
  import opened Records

  datatype ProposalStatus = Draft | Sent | Accepted | Rejected | Expired

  function StatusName(s: ProposalStatus): string {
    match s
    case Draft => "Draft"
    case Sent => "Sent"
    case Accepted => "Accepted"
    case Rejected => "Rejected"
    case Expired => "Expired"
  }

  /** The total value is a JavaScript number; it is a real here. */
  datatype Proposal = Proposal(
    id: string,
    date: string,
    opportunity: string,
    customerName: string,
    observations: string,
    deliveryDeadline: string,
    status: ProposalStatus,
    machine: string,
    totalValue: real,
    salesperson: string)

  function Id(p: Proposal): string {
    p.id
  }

  /** The snapshot comparison of a sync, keyed by proposal id. */
  method CompareProposalData(oldData: seq<Proposal>, newData: seq<Proposal>) returns (d: Changes)
    ensures d == SnapshotDiff(oldData, newData, Id)
    ensures d.added == |KeysOf(newData, Id) - KeysOf(oldData, Id)|
    ensures d.removed == |KeysOf(oldData, Id) - KeysOf(newData, Id)|
    ensures d.updated <= |KeysOf(oldData, Id) * KeysOf(newData, Id)|
    ensures oldData == newData ==> d == Changes(0, 0, 0)
  {
    d := CountChanges(oldData, newData, Id);
    if oldData == newData {
      SelfDiffIsZero(oldData, Id);
    }
  }

  // ---------------------------------------------------------------------------
  // Sorting

  datatype ProposalKey =
    | IdKey | DateKey | OpportunityKey | CustomerNameKey | ObservationsKey
    | DeliveryDeadlineKey | StatusKey | MachineKey | TotalValueKey | SalespersonKey
  {
    predicate IsDate() {
      this == DateKey || this == DeliveryDeadlineKey
    }

    predicate IsText() {
      !IsDate() && this != TotalValueKey
    }
  }

  /** The table starts sorted by date, newest first. */
  const InitialSort: Option<SortConfig<ProposalKey>> := Some(SortConfig(DateKey, Descending))

  /** `String(p[key])` for the keys that hold text. */
  function TextOf(p: Proposal, key: ProposalKey): string
    requires key.IsText()
  {
    match key
    case IdKey => p.id
    case OpportunityKey => p.opportunity
    case CustomerNameKey => p.customerName
    case ObservationsKey => p.observations
    case StatusKey => StatusName(p.status)
    case MachineKey => p.machine
    case SalespersonKey => p.salesperson
  }

  function DateOf(p: Proposal, key: ProposalKey): string
    requires key.IsDate()
  {
    if key == DateKey then p.date else p.deliveryDeadline
  }

  /**
   * The date comparison: two unparseable dates tie, an unparseable date goes after a
   * valid one in both directions, and valid dates compare by time in the direction.
   */
  function DateOrder(d: Direction): (Option<int>, Option<int>) -> int {
    (a: Option<int>, b: Option<int>) =>
      if a.None? && b.None? then 0
      else if a.None? then 1
      else if b.None? then -1
      else if d == Ascending then a.value - b.value
      else b.value - a.value
  }

  lemma DateOrderIsComparator(d: Direction)
    ensures IsComparator(DateOrder(d))
  {
    var c := DateOrder(d);
    forall a, b, e | c(a, b) <= 0 && c(b, e) <= 0 ensures c(a, e) <= 0 {
      if a.None? {
        assert b.None? && e.None?;
      } else if b.None? {
        assert e.None?;
      }
    }
  }

  /** The sign of the difference, which is all the sort looks at. */
  function Sign(x: real): int {
    if x < 0.0 then -1 else if x > 0.0 then 1 else 0
  }

  function ValueOrder(): (real, real) -> int {
    (a: real, b: real) => Sign(a - b)
  }

  lemma ValueOrderIsComparator()
    ensures IsComparator(ValueOrder())
  {
    var c := ValueOrder();
    forall a, b ensures c(a, b) < 0 <==> c(b, a) > 0 {
      assert c(a, b) == Sign(a - b) && c(b, a) == Sign(b - a);
    }
    forall a, b, e | c(a, b) <= 0 && c(b, e) <= 0 ensures c(a, e) <= 0 {
      assert c(a, b) == Sign(a - b) && c(b, e) == Sign(b - e) && c(a, e) == Sign(a - e);
    }
  }

  /**
   * The comparator of the sort: by time for the two date keys, by number for the
   * total value, by the locale comparison of the text otherwise; descending negates
   * the number and text comparisons and reverses the valid dates.
   */
  function Comparator(config: SortConfig<ProposalKey>, parse: string -> Option<int>, cmp: (string, string) -> int): (Proposal, Proposal) -> int {
    var key := config.key;
    if key.IsDate() then ByKey((p: Proposal) => parse(DateOf(p, key)), DateOrder(config.direction))
    else if key == TotalValueKey then ByKey((p: Proposal) => p.totalValue, Directed(ValueOrder(), config.direction))
    else ByKey((p: Proposal) => TextOf(p, key), Directed(cmp, config.direction))
  }

  /** With a consistent locale comparison, every sort configuration gives a consistent comparator. */
  lemma ComparatorIsComparator(config: SortConfig<ProposalKey>, parse: string -> Option<int>, cmp: (string, string) -> int)
    requires IsComparator(cmp)
    ensures IsComparator(Comparator(config, parse, cmp))
  {
    var key := config.key;
    if key.IsDate() {
      DateOrderIsComparator(config.direction);
      ByKeyIsComparator((p: Proposal) => parse(DateOf(p, key)), DateOrder(config.direction));
    } else if key == TotalValueKey {
      ValueOrderIsComparator();
      DirectedIsComparator(ValueOrder(), config.direction);
      ByKeyIsComparator((p: Proposal) => p.totalValue, Directed(ValueOrder(), config.direction));
    } else {
      DirectedIsComparator(cmp, config.direction);
      ByKeyIsComparator((p: Proposal) => TextOf(p, key), Directed(cmp, config.direction));
    }
  }

  // ---------------------------------------------------------------------------
  // The query

  /** The search keywords: the lowercased term split on single spaces, blank pieces dropped. */
  function Keywords(term: string, lower: string -> string): (kws: seq<string>)
    ensures forall i | 0 <= i < |kws| :: kws[i] in Split(lower(term), ' ') && !IsBlank(kws[i]) && ' ' !in kws[i]
    ensures forall w | w in Split(lower(term), ' ') && !IsBlank(w) :: w in kws
  {
    var pieces := Split(lower(term), ' ');
    var kws := Filter(pieces, (w: string) => !IsBlank(w));
    forall i | 0 <= i < |kws| ensures !IsBlank(kws[i]) && ' ' !in kws[i] {
      assert kws[i] in pieces;
      var j :| 0 <= j < |pieces| && pieces[j] == kws[i];
    }
    kws
  }

  /** The text a proposal is searched in. */
  function SearchableText(p: Proposal, lower: string -> string): string {
    lower(Join([p.id, p.opportunity, p.customerName, p.machine, p.salesperson, p.observations], " "))
  }

  predicate HasAllKeywords(text: string, kws: seq<string>) {
    forall i | 0 <= i < |kws| :: Includes(text, kws[i])
  }

  /** A proposal passes the search when the term is empty, has no keyword, or every keyword occurs. */
  predicate MatchesSearch(p: Proposal, term: string, lower: string -> string) {
    term == "" || HasAllKeywords(SearchableText(p, lower), Keywords(term, lower))
  }

  predicate Selected(p: Proposal, filter: StatusFilter<ProposalStatus>, term: string, lower: string -> string) {
    Passes(filter, p.status) && MatchesSearch(p, term, lower)
  }

  function SelectedBy(filter: StatusFilter<ProposalStatus>, term: string, lower: string -> string): Proposal -> bool {
    (p: Proposal) => Selected(p, filter, term, lower)
  }

  /**
   * sortedAndFilteredProposals: the status filter, then the keyword search, then the
   * sort. The result holds exactly the selected proposals, each as often as in the
   * store; without a sort it is the store's subsequence of selected proposals.
   */
  function Project(
    s: seq<Proposal>, filter: StatusFilter<ProposalStatus>, term: string, config: Option<SortConfig<ProposalKey>>,
    lower: string -> string, parse: string -> Option<int>, cmp: (string, string) -> int): (r: seq<Proposal>)
    ensures multiset(r) == multiset(Filter(s, SelectedBy(filter, term, lower)))
    ensures forall p | p in r :: Selected(p, filter, term, lower)
    ensures config.None? ==> r == Filter(s, SelectedBy(filter, term, lower))
    ensures config.Some? ==> r == Sort(Filter(s, SelectedBy(filter, term, lower)), Comparator(config.value, parse, cmp))
  {
    var byStatus := if filter.All? then s else Filter(s, (p: Proposal) => p.status == filter.status);
    var searched :=
      if term != "" then
        var kws := Keywords(term, lower);
        if |kws| > 0 then Filter(byStatus, (p: Proposal) => HasAllKeywords(SearchableText(p, lower), kws))
        else byStatus
      else byStatus;
    ProjectFilters(s, filter, term, lower, byStatus, searched);
    var r := if config.None? then searched else Sort(searched, Comparator(config.value, parse, cmp));
    FilteredMembers(r, s, SelectedBy(filter, term, lower));
    r
  }

  lemma ProjectFilters(
    s: seq<Proposal>, filter: StatusFilter<ProposalStatus>, term: string, lower: string -> string,
    byStatus: seq<Proposal>, searched: seq<Proposal>)
    requires byStatus == if filter.All? then s else Filter(s, (p: Proposal) => p.status == filter.status)
    requires searched ==
      if term != "" && |Keywords(term, lower)| > 0
      then Filter(byStatus, (p: Proposal) => HasAllKeywords(SearchableText(p, lower), Keywords(term, lower)))
      else byStatus
    ensures searched == Filter(s, SelectedBy(filter, term, lower))
  {
    var statusTest := (p: Proposal) => Passes(filter, p.status);
    var searchTest := (p: Proposal) => MatchesSearch(p, term, lower);
    var both := SelectedBy(filter, term, lower);
    if filter.All? {
      FilterKeepsAll(s, statusTest);
    } else {
      FilterExt(s, (p: Proposal) => p.status == filter.status, statusTest);
    }
    assert byStatus == Filter(s, statusTest);
    if term != "" && |Keywords(term, lower)| > 0 {
      FilterExt(byStatus, (p: Proposal) => HasAllKeywords(SearchableText(p, lower), Keywords(term, lower)), searchTest);
    } else {
      assert forall i | 0 <= i < |byStatus| :: searchTest(byStatus[i]);
      FilterKeepsAll(byStatus, searchTest);
    }
    FilterTwice(s, statusTest, searchTest, both);
  }

  /** With a sort configured and a consistent locale comparison, the result is ordered by the comparator. */
  lemma ProjectSorted(
    s: seq<Proposal>, filter: StatusFilter<ProposalStatus>, term: string, config: SortConfig<ProposalKey>,
    lower: string -> string, parse: string -> Option<int>, cmp: (string, string) -> int)
    requires IsComparator(cmp)
    ensures SortedBy(Project(s, filter, term, Some(config), lower, parse, cmp), Comparator(config, parse, cmp))
  {
    ComparatorIsComparator(config, parse, cmp);
    var searched := Filter(s, SelectedBy(filter, term, lower));
    ComparatorConsistentOn(Comparator(config, parse, cmp), searched);
    SortSorted(searched, Comparator(config, parse, cmp));
  }

  /** On a date key the comparator compares the parsed dates. */
  lemma DateComparatorAt(config: SortConfig<ProposalKey>, parse: string -> Option<int>, cmp: (string, string) -> int, a: Proposal, b: Proposal)
    requires config.key.IsDate()
    ensures Comparator(config, parse, cmp)(a, b) == DateOrder(config.direction)(parse(DateOf(a, config.key)), parse(DateOf(b, config.key)))
  {
  }

  /** Sorted on a date key, in either direction, the proposals whose date does not parse come last. */
  lemma InvalidDatesLast(
    s: seq<Proposal>, filter: StatusFilter<ProposalStatus>, term: string, config: SortConfig<ProposalKey>,
    lower: string -> string, parse: string -> Option<int>, cmp: (string, string) -> int)
    requires IsComparator(cmp) && config.key.IsDate()
    ensures var r := Project(s, filter, term, Some(config), lower, parse, cmp);
      forall i, j | 0 <= i < j < |r| :: parse(DateOf(r[i], config.key)).None? ==> parse(DateOf(r[j], config.key)).None?
  {
    ProjectSorted(s, filter, term, config, lower, parse, cmp);
    var r := Project(s, filter, term, Some(config), lower, parse, cmp);
    var c := Comparator(config, parse, cmp);
    forall i, j | 0 <= i < j < |r| && parse(DateOf(r[i], config.key)).None?
      ensures parse(DateOf(r[j], config.key)).None?
    {
      assert c(r[i], r[j]) <= 0;
    }
  }

  /** Sorted by date descending, valid dates do not increase. */
  lemma NewestFirst(
    s: seq<Proposal>, filter: StatusFilter<ProposalStatus>, term: string,
    lower: string -> string, parse: string -> Option<int>, cmp: (string, string) -> int)
    requires IsComparator(cmp)
    ensures var r := Project(s, filter, term, InitialSort, lower, parse, cmp);
      forall i, j | 0 <= i < j < |r| && parse(r[i].date).Some? && parse(r[j].date).Some? ::
        parse(r[j].date).value <= parse(r[i].date).value
  {
    var config := SortConfig(DateKey, Descending);
    ProjectSorted(s, filter, term, config, lower, parse, cmp);
    var r := Project(s, filter, term, InitialSort, lower, parse, cmp);
    var c := Comparator(config, parse, cmp);
    forall i, j | 0 <= i < j < |r| && parse(r[i].date).Some? && parse(r[j].date).Some?
      ensures parse(r[j].date).value <= parse(r[i].date).value
    {
      assert c(r[i], r[j]) <= 0;
      DateComparatorAt(config, parse, cmp, r[i], r[j]);
    }
  }

  /** A term without any non-blank keyword filters nothing out. */
  lemma BlankTermKeepsAll(p: Proposal, term: string, lower: string -> string)
    requires forall w | w in Split(lower(term), ' ') :: IsBlank(w)
    ensures Keywords(term, lower) == []
    ensures MatchesSearch(p, term, lower)
  {
  }

  // ---------------------------------------------------------------------------
  // Updates

  /** handleSaveEdit: the edited proposal replaces the one with its id; nothing else changes. */
  function SaveEdit(s: seq<Proposal>, edited: Proposal): (r: seq<Proposal>)
    ensures |r| == |s|
    ensures forall i | 0 <= i < |s| :: r[i] == if s[i].id == edited.id then edited else s[i]
    ensures (forall i | 0 <= i < |s| :: s[i].id != edited.id) ==> r == s
  {
    ReplaceByKey(s, Id, edited)
  }

  /** handleStatusChange: the proposals with the id get the new status, and nothing else changes. */
  function ChangeStatus(s: seq<Proposal>, id: string, status: ProposalStatus): (r: seq<Proposal>)
    ensures |r| == |s|
    ensures forall i | 0 <= i < |s| :: s[i].id != id ==> r[i] == s[i]
    ensures forall i | 0 <= i < |s| :: s[i].id == id ==> r[i].status == status
    ensures forall i | 0 <= i < |s| :: r[i].(status := s[i].status) == s[i]
  {
    UpdateByKey(s, Id, id, (p: Proposal) => p.(status := status))
  }

  /** A status change adds and removes nothing and updates at most one proposal. */
  lemma ChangeStatusDiff(s: seq<Proposal>, id: string, status: ProposalStatus)
    ensures SnapshotDiff(s, ChangeStatus(s, id, status), Id).added == 0
    ensures SnapshotDiff(s, ChangeStatus(s, id, status), Id).removed == 0
    ensures SnapshotDiff(s, ChangeStatus(s, id, status), Id).updated <= 1
  {
    UpdateByKeyDiff(s, Id, id, (p: Proposal) => p.(status := status));
  }

  /** The status actions of the row menu and of the detail view, in their order. */
  function StatusActions(status: ProposalStatus): (r: seq<ProposalStatus>)
    ensures Sent in r <==> status != Sent && status != Accepted
    ensures Accepted in r <==> status != Accepted
    ensures Rejected in r <==> status != Rejected
    ensures Draft !in r && Expired !in r
  {
    (if status != Sent && status != Accepted then [Sent] else [])
    + (if status != Accepted then [Accepted] else [])
    + (if status != Rejected then [Rejected] else [])
  }

  /** Every offered action changes the status, and an accepted proposal can still be rejected. */
  lemma ActionsChangeStatus(status: ProposalStatus)
    ensures forall a | a in StatusActions(status) :: a != status
    ensures StatusActions(Accepted) == [Rejected]
    ensures |StatusActions(Draft)| == 3 && |StatusActions(Expired)| == 3
  {
  }

  // ---------------------------------------------------------------------------
  // Creation

  /** The fields of the creation form. */
  datatype ProposalForm = ProposalForm(
    opportunity: string,
    customerName: string,
    observations: string,
    deliveryDeadline: string,
    machine: string,
    totalValue: real,
    salesperson: string)

  const EmptyForm := ProposalForm("", "", "", "", "", 0.0, "João Chanoca")

  const IdPrefix := "PROP-2024-"

  /** `parseInt(id.split('-')[2], 10)`: None when there is no third segment or it does not parse. */
  function IdNumber(id: string): Option<int> {
    var parts := Split(id, '-');
    if |parts| < 3 then None else ParseInt(parts[2])
  }

  /**
   * The reduce of handleCreateProposal from `max`: a number replaces the maximum when it
   * is greater, an id without a number is skipped.
   */
  function HighestFrom(s: seq<Proposal>, max: int): (r: int)
    ensures r >= max
    ensures forall i | 0 <= i < |s| && IdNumber(s[i].id).Some? :: IdNumber(s[i].id).value <= r
    ensures r == max || exists i | 0 <= i < |s| :: IdNumber(s[i].id) == Some(r)
  {
    if |s| == 0 then max
    else
      var n := IdNumber(s[0].id);
      var next := if n.Some? && n.value > max then n.value else max;
      var r := HighestFrom(s[1..], next);
      HighestFromStep(s, max, next, r);
      r
  }

  /** One step of the reduce: what holds of the tail from `next` holds of the whole from `max`. */
  lemma HighestFromStep(s: seq<Proposal>, max: int, next: int, r: int)
    requires |s| > 0
    requires next == if IdNumber(s[0].id).Some? && IdNumber(s[0].id).value > max then IdNumber(s[0].id).value else max
    requires r >= next
    requires forall i | 0 <= i < |s[1..]| && IdNumber(s[1..][i].id).Some? :: IdNumber(s[1..][i].id).value <= r
    requires r == next || exists i | 0 <= i < |s[1..]| :: IdNumber(s[1..][i].id) == Some(r)
    ensures r >= max
    ensures forall i | 0 <= i < |s| && IdNumber(s[i].id).Some? :: IdNumber(s[i].id).value <= r
    ensures r == max || exists i | 0 <= i < |s| :: IdNumber(s[i].id) == Some(r)
  {
    forall i | 0 <= i < |s| && IdNumber(s[i].id).Some? ensures IdNumber(s[i].id).value <= r {
      if i > 0 {
        assert s[i] == s[1..][i - 1];
      }
    }
    if r != next {
      var j :| 0 <= j < |s[1..]| && IdNumber(s[1..][j].id) == Some(r);
      assert s[j + 1] == s[1..][j];
    } else if r != max {
      assert IdNumber(s[0].id) == Some(r);
    }
  }

  /** The highest id number in the store, or 0. */
  function HighestIdNumber(s: seq<Proposal>): (r: nat)
    ensures forall i | 0 <= i < |s| && IdNumber(s[i].id).Some? :: IdNumber(s[i].id).value <= r
    ensures r == 0 || exists i | 0 <= i < |s| :: IdNumber(s[i].id) == Some(r)
  {
    HighestFrom(s, 0)
  }

  /** The id after n: the prefix, then n + 1 padded with zeros to three digits. */
  function NextId(n: nat): (id: string)
    ensures StartsWith(id, IdPrefix)
    ensures AllDigits(id[|IdPrefix|..])
    ensures |id| == |IdPrefix| + (if |Decimal(n + 1)| >= 3 then |Decimal(n + 1)| else 3)
    ensures IdNumber(id) == Some(n + 1)
  {
    var digits := PadStart(Decimal(n + 1), 3, '0');
    var id := IdPrefix + digits;
    NextIdNumber(n, digits, id);
    PaddedDigits(Decimal(n + 1), digits);
    assert id[|IdPrefix|..] == digits;
    id
  }

  lemma PaddedDigits(d: string, digits: string)
    requires AllDigits(d)
    requires digits == PadStart(d, 3, '0')
    ensures AllDigits(digits)
  {
    var zs := digits[..|digits| - |d|];
    assert digits == zs + d;
    DigitsValueLeadingZeros(zs, d);
  }

  lemma PaddedHasNoDash(n: nat, digits: string)
    requires digits == PadStart(Decimal(n), 3, '0')
    ensures '-' !in digits
  {
    var d := Decimal(n);
    forall i | 0 <= i < |digits| ensures digits[i] != '-' {
      if i >= |digits| - |d| {
        assert digits[i] == d[i - (|digits| - |d|)];
      }
    }
  }

  lemma NextIdNumber(n: nat, digits: string, id: string)
    requires digits == PadStart(Decimal(n + 1), 3, '0')
    requires id == IdPrefix + digits
    ensures IdNumber(id) == Some(n + 1)
  {
    PaddedHasNoDash(n + 1, digits);
    IdSegments(digits, id);
    ParseIntOfPaddedDecimal(n + 1, 3);
  }

  lemma IdSegments(digits: string, id: string)
    requires '-' !in digits
    requires id == IdPrefix + digits
    ensures Split(id, '-') == ["PROP", "2024", digits]
  {
    var tail := "2024" + ['-'] + digits;
    assert id == "PROP" + ['-'] + tail;
    TailSegments(digits, tail);
    SplitAtSeparator("PROP", tail, '-');
    SplitWithoutSeparator("PROP", '-');
  }

  lemma TailSegments(digits: string, tail: string)
    requires '-' !in digits
    requires tail == "2024" + ['-'] + digits
    ensures Split(tail, '-') == ["2024", digits]
  {
    SplitAtSeparator("2024", digits, '-');
    SplitWithoutSeparator("2024", '-');
    SplitWithoutSeparator(digits, '-');
  }

  /** The generated id is not the id of any proposal in the store. */
  lemma NextIdIsFresh(s: seq<Proposal>)
    ensures forall i | 0 <= i < |s| :: s[i].id != NextId(HighestIdNumber(s))
  {
    var h := HighestIdNumber(s);
    assert IdNumber(NextId(h)) == Some(h + 1);
    forall i | 0 <= i < |s| ensures s[i].id != NextId(h) {
      assert IdNumber(s[i].id) != Some(h + 1);
    }
  }

  /**
   * handleCreateProposal: a draft dated today with the next id and the form's fields,
   * put in front of the store.
   */
  function Create(s: seq<Proposal>, form: ProposalForm, today: string): (r: seq<Proposal>)
    ensures |r| == |s| + 1 && r[1..] == s
    ensures r[0].status == Draft && r[0].date == today
    ensures r[0].id == NextId(HighestIdNumber(s))
    ensures forall i | 0 <= i < |s| :: s[i].id != r[0].id
    ensures r[0] == Proposal(r[0].id, today, form.opportunity, form.customerName, form.observations,
                             form.deliveryDeadline, Draft, form.machine, form.totalValue, form.salesperson)
  {
    NextIdIsFresh(s);
    var p := Proposal(NextId(HighestIdNumber(s)), today, form.opportunity, form.customerName, form.observations,
                      form.deliveryDeadline, Draft, form.machine, form.totalValue, form.salesperson);
    [p] + s
  }

  /** Compared with the store before, a creation is exactly one addition. */
  lemma CreateDiff(s: seq<Proposal>, form: ProposalForm, today: string)
    ensures SnapshotDiff(s, Create(s, form, today), Id) == Changes(1, 0, 0)
  {
    var r := Create(s, form, today);
    IndexKeys(s, Id);
    assert r[0].id !in KeysOf(s, Id);
    assert r == [r[0]] + s;
    DiffOfFreshPrepend(r[0], s, Id);
  }
}
