/**
 * The customer list (Empresas): the record with its contact people, the query
 * the table shows (status filter, then a substring search over the contact
 * fields, then the sort), the edit form with its primary-contact field, and
 * edit-save.
 */
module Customers {
  import opened Wrappers
  import opened Text
  import opened Collections
  import opened RecordDiff
  import opened ListView
  import opened Records

  datatype CustomerStatus = Active | Lead | Inactive

  function StatusName(s: CustomerStatus): string {
    match s
    case Active => "Active"
    case Lead => "Lead"
    case Inactive => "Inactive"
  }

  datatype Contact = Contact(name: string, role: string)

  datatype Customer = Customer(
    id: string,
    name: string,
    contactPeople: seq<Contact>,
    country: string,
    email: string,
    phone: string,
    salesperson: string,
    status: CustomerStatus)

  function Id(c: Customer): string {
    c.id
  }

  /** The snapshot comparison of a sync, keyed by customer id. */
  method CompareCustomerData(oldData: seq<Customer>, newData: seq<Customer>) returns (d: Changes)
    ensures d == SnapshotDiff(oldData, newData, Id)
    ensures d.added == |KeysOf(newData, Id) - KeysOf(oldData, Id)|
    ensures d.removed == |KeysOf(oldData, Id) - KeysOf(newData, Id)|
    ensures d.updated <= |KeysOf(oldData, Id) * KeysOf(newData, Id)|
    ensures oldData == newData ==> d == Changes(0, 0, 0)
  {
    d := CountChanges(oldData, newData, Id);
    if oldData == newData {
      SelfDiffIsZero(oldData, Id);
    }
  }

  // ---------------------------------------------------------------------------
  // The search

  /** Some contact person's lowercased name contains t. */
  predicate SomeContactIncludes(c: Customer, t: string, lower: string -> string) {
    exists i | 0 <= i < |c.contactPeople| :: Includes(lower(c.contactPeople[i].name), t)
  }

  /** The search test for the lowercased term t, field by field in the order of the table. */
  predicate MatchesText(c: Customer, t: string, lower: string -> string) {
    || Includes(lower(c.id), t)
    || Includes(lower(c.name), t)
    || SomeContactIncludes(c, t, lower)
    || Includes(lower(c.country), t)
    || Includes(lower(c.email), t)
    || Includes(lower(c.phone), t)
    || Includes(lower(c.salesperson), t)
  }

  /** The lowercased texts the search looks in: the fields, with one text per contact person. */
  function SearchableTexts(c: Customer, lower: string -> string): (texts: seq<string>)
    ensures |texts| == |c.contactPeople| + 6
  {
    [lower(c.id), lower(c.name)]
    + seq(|c.contactPeople|, i requires 0 <= i < |c.contactPeople| => lower(c.contactPeople[i].name))
    + [lower(c.country), lower(c.email), lower(c.phone), lower(c.salesperson)]
  }

  /** The search keeps a customer exactly when one of its searchable texts contains the term. */
  lemma MatchesTextIffSomeText(c: Customer, t: string, lower: string -> string)
    ensures MatchesText(c, t, lower) <==>
      exists i | 0 <= i < |SearchableTexts(c, lower)| :: Includes(SearchableTexts(c, lower)[i], t)
  {
    var texts := SearchableTexts(c, lower);
    var n := |c.contactPeople|;
    if MatchesText(c, t, lower) {
      if SomeContactIncludes(c, t, lower) {
        var i :| 0 <= i < n && Includes(lower(c.contactPeople[i].name), t);
        assert texts[2 + i] == lower(c.contactPeople[i].name);
      } else if Includes(lower(c.id), t) {
        assert texts[0] == lower(c.id);
      } else if Includes(lower(c.name), t) {
        assert texts[1] == lower(c.name);
      } else if Includes(lower(c.country), t) {
        assert texts[n + 2] == lower(c.country);
      } else if Includes(lower(c.email), t) {
        assert texts[n + 3] == lower(c.email);
      } else if Includes(lower(c.phone), t) {
        assert texts[n + 4] == lower(c.phone);
      } else {
        assert texts[n + 5] == lower(c.salesperson);
      }
    }
    if exists i | 0 <= i < |texts| :: Includes(texts[i], t) {
      var i :| 0 <= i < |texts| && Includes(texts[i], t);
      if 2 <= i < n + 2 {
        assert texts[i] == lower(c.contactPeople[i - 2].name);
      }
    }
  }

  /** A customer passes the status filter and, when a term is typed, the search. */
  predicate Selected(c: Customer, filter: StatusFilter<CustomerStatus>, term: string, lower: string -> string) {
    Passes(filter, c.status) && (term == "" || MatchesText(c, lower(term), lower))
  }

  function SelectedBy(filter: StatusFilter<CustomerStatus>, term: string, lower: string -> string): Customer -> bool {
    (c: Customer) => Selected(c, filter, term, lower)
  }

  /** A longer term whose lowercased form contains the shorter one's keeps no customer the shorter one drops. */
  lemma NarrowerTermSelectsFewer(c: Customer, filter: StatusFilter<CustomerStatus>, term: string, longer: string, lower: string -> string)
    requires term != "" && longer != ""
    requires Includes(lower(longer), lower(term))
    requires Selected(c, filter, longer, lower)
    ensures Selected(c, filter, term, lower)
  {
    var t, u := lower(term), lower(longer);
    if SomeContactIncludes(c, u, lower) {
      var i :| 0 <= i < |c.contactPeople| && Includes(lower(c.contactPeople[i].name), u);
      IncludesTransitive(lower(c.contactPeople[i].name), u, t);
    } else if Includes(lower(c.id), u) {
      IncludesTransitive(lower(c.id), u, t);
    } else if Includes(lower(c.name), u) {
      IncludesTransitive(lower(c.name), u, t);
    } else if Includes(lower(c.country), u) {
      IncludesTransitive(lower(c.country), u, t);
    } else if Includes(lower(c.email), u) {
      IncludesTransitive(lower(c.email), u, t);
    } else if Includes(lower(c.phone), u) {
      IncludesTransitive(lower(c.phone), u, t);
    } else {
      IncludesTransitive(lower(c.salesperson), u, t);
    }
  }

  // ---------------------------------------------------------------------------
  // Sorting

  datatype CustomerKey = IdKey | NameKey | ContactPeopleKey | CountryKey | EmailKey | PhoneKey | SalespersonKey | StatusKey

  /** The table starts unsorted. */
  const InitialSort: Option<SortConfig<CustomerKey>> := None

  /** The name of the first contact person, or "" when there is none. */
  function PrimaryContactName(c: Customer): string {
    if |c.contactPeople| > 0 then c.contactPeople[0].name else ""
  }

  /** `String(value)` of the sort key; the contact people compare by the primary contact's name. */
  function SortText(c: Customer, key: CustomerKey): string {
    match key
    case IdKey => c.id
    case NameKey => c.name
    case ContactPeopleKey => PrimaryContactName(c)
    case CountryKey => c.country
    case EmailKey => c.email
    case PhoneKey => c.phone
    case SalespersonKey => c.salesperson
    case StatusKey => StatusName(c.status)
  }

  /** The locale comparison of the key's text, negated when descending. */
  function Comparator(config: SortConfig<CustomerKey>, cmp: (string, string) -> int): (Customer, Customer) -> int {
    ByKey((c: Customer) => SortText(c, config.key), Directed(cmp, config.direction))
  }

  lemma ComparatorAt(config: SortConfig<CustomerKey>, cmp: (string, string) -> int, a: Customer, b: Customer)
    ensures Comparator(config, cmp)(a, b) == Directed(cmp, config.direction)(SortText(a, config.key), SortText(b, config.key))
  {
  }

  /** Sorted by the comparator means the key texts are in the order of the directed comparison. */
  lemma SortedOnKey(r: seq<Customer>, config: SortConfig<CustomerKey>, cmp: (string, string) -> int)
    requires SortedBy(r, Comparator(config, cmp))
    ensures forall i, j | 0 <= i < j < |r| ::
      Directed(cmp, config.direction)(SortText(r[i], config.key), SortText(r[j], config.key)) <= 0
  {
    forall i, j | 0 <= i < j < |r|
      ensures Directed(cmp, config.direction)(SortText(r[i], config.key), SortText(r[j], config.key)) <= 0
    {
      assert Comparator(config, cmp)(r[i], r[j]) <= 0;
      ComparatorAt(config, cmp, r[i], r[j]);
    }
  }

  lemma ComparatorIsComparator(config: SortConfig<CustomerKey>, cmp: (string, string) -> int)
    requires IsComparator(cmp)
    ensures IsComparator(Comparator(config, cmp))
  {
    DirectedIsComparator(cmp, config.direction);
    ByKeyIsComparator((c: Customer) => SortText(c, config.key), Directed(cmp, config.direction));
  }

  /**
   * Sorted on the contact people, the primary contact names are in the order of the
   * locale comparison in the direction, an empty contact list counting as "".
   */
  lemma ContactSortByPrimaryName(
    s: seq<Customer>, filter: StatusFilter<CustomerStatus>, term: string, d: Direction,
    lower: string -> string, cmp: (string, string) -> int)
    requires IsComparator(cmp)
    ensures var r := Project(s, filter, term, Some(SortConfig(ContactPeopleKey, d)), lower, cmp);
      forall i, j | 0 <= i < j < |r| :: Directed(cmp, d)(PrimaryContactName(r[i]), PrimaryContactName(r[j])) <= 0
  {
    var config := SortConfig(ContactPeopleKey, d);
    ProjectSorted(s, filter, term, config, lower, cmp);
    var r := Project(s, filter, term, Some(config), lower, cmp);
    PrimaryNamesSorted(r, d, cmp);
  }

  lemma PrimaryNamesSorted(r: seq<Customer>, d: Direction, cmp: (string, string) -> int)
    requires SortedBy(r, Comparator(SortConfig(ContactPeopleKey, d), cmp))
    ensures forall i, j | 0 <= i < j < |r| :: Directed(cmp, d)(PrimaryContactName(r[i]), PrimaryContactName(r[j])) <= 0
  {
    SortedOnKey(r, SortConfig(ContactPeopleKey, d), cmp);
  }

  // ---------------------------------------------------------------------------
  // The query

  /**
   * sortedAndFilteredCustomers: the status filter, then the search when a term is
   * typed, then the sort when one is configured.
   */
  function Project(
    s: seq<Customer>, filter: StatusFilter<CustomerStatus>, term: string, config: Option<SortConfig<CustomerKey>>,
    lower: string -> string, cmp: (string, string) -> int): (r: seq<Customer>)
    ensures multiset(r) == multiset(Filter(s, SelectedBy(filter, term, lower)))
    ensures forall c | c in r :: Selected(c, filter, term, lower)
    ensures config.None? ==> r == Filter(s, SelectedBy(filter, term, lower))
    ensures config.Some? ==> r == Sort(Filter(s, SelectedBy(filter, term, lower)), Comparator(config.value, cmp))
  {
    var byStatus := if filter.All? then s else Filter(s, (c: Customer) => c.status == filter.status);
    var searched := if term != "" then Filter(byStatus, (c: Customer) => MatchesText(c, lower(term), lower)) else byStatus;
    ProjectFilters(s, filter, term, lower, byStatus, searched);
    var r := if config.None? then searched else Sort(searched, Comparator(config.value, cmp));
    FilteredMembers(r, s, SelectedBy(filter, term, lower));
    r
  }

  lemma ProjectFilters(
    s: seq<Customer>, filter: StatusFilter<CustomerStatus>, term: string, lower: string -> string,
    byStatus: seq<Customer>, searched: seq<Customer>)
    requires byStatus == if filter.All? then s else Filter(s, (c: Customer) => c.status == filter.status)
    requires searched == if term != "" then Filter(byStatus, (c: Customer) => MatchesText(c, lower(term), lower)) else byStatus
    ensures searched == Filter(s, SelectedBy(filter, term, lower))
  {
    var statusTest := (c: Customer) => Passes(filter, c.status);
    var searchTest := (c: Customer) => term == "" || MatchesText(c, lower(term), lower);
    if filter.All? {
      FilterKeepsAll(s, statusTest);
    } else {
      FilterExt(s, (c: Customer) => c.status == filter.status, statusTest);
    }
    if term != "" {
      FilterExt(byStatus, (c: Customer) => MatchesText(c, lower(term), lower), searchTest);
    } else {
      FilterKeepsAll(byStatus, searchTest);
    }
    FilterTwice(s, statusTest, searchTest, SelectedBy(filter, term, lower));
  }

  /** With a sort configured and a consistent locale comparison, the result is ordered by the comparator. */
  lemma ProjectSorted(
    s: seq<Customer>, filter: StatusFilter<CustomerStatus>, term: string, config: SortConfig<CustomerKey>,
    lower: string -> string, cmp: (string, string) -> int)
    requires IsComparator(cmp)
    ensures SortedBy(Project(s, filter, term, Some(config), lower, cmp), Comparator(config, cmp))
  {
    ComparatorIsComparator(config, cmp);
    var searched := Filter(s, SelectedBy(filter, term, lower));
    ComparatorConsistentOn(Comparator(config, cmp), searched);
    SortSorted(searched, Comparator(config, cmp));
  }

  /** Sorted descending, the key texts do not increase under the locale comparison. */
  lemma ProjectDescending(
    s: seq<Customer>, filter: StatusFilter<CustomerStatus>, term: string, key: CustomerKey,
    lower: string -> string, cmp: (string, string) -> int)
    requires IsComparator(cmp)
    ensures var r := Project(s, filter, term, Some(SortConfig(key, Descending)), lower, cmp);
      forall i, j | 0 <= i < j < |r| :: cmp(SortText(r[j], key), SortText(r[i], key)) <= 0
  {
    var config := SortConfig(key, Descending);
    ProjectSorted(s, filter, term, config, lower, cmp);
    var r := Project(s, filter, term, Some(config), lower, cmp);
    forall i, j | 0 <= i < j < |r| ensures cmp(SortText(r[j], key), SortText(r[i], key)) <= 0 {
      assert Comparator(config, cmp)(r[i], r[j]) <= 0;
      ComparatorAt(config, cmp, r[i], r[j]);
    }
  }

  /** Without a term every customer the status filter keeps is shown. */
  lemma EmptyTermKeepsStatus(s: seq<Customer>, filter: StatusFilter<CustomerStatus>, lower: string -> string, cmp: (string, string) -> int)
    ensures forall c | c in s :: c in Project(s, filter, "", InitialSort, lower, cmp) <==> Passes(filter, c.status)
  {
  }

  /** A narrower term shows a subset of what the shorter term shows. */
  lemma NarrowerTermShowsSubset(
    s: seq<Customer>, filter: StatusFilter<CustomerStatus>, term: string, longer: string,
    config: Option<SortConfig<CustomerKey>>, lower: string -> string, cmp: (string, string) -> int)
    requires term != "" && longer != ""
    requires Includes(lower(longer), lower(term))
    ensures forall c | c in Project(s, filter, longer, config, lower, cmp) :: c in Project(s, filter, term, config, lower, cmp)
  {
    var shorter := Project(s, filter, term, config, lower, cmp);
    forall c | c in Project(s, filter, longer, config, lower, cmp) ensures c in shorter {
      NarrowerTermSelectsFewer(c, filter, term, longer, lower);
      assert c in multiset(Project(s, filter, longer, config, lower, cmp));
      assert c in s;
      assert c in Filter(s, SelectedBy(filter, term, lower));
      assert c in multiset(shorter);
    }
  }

  // ---------------------------------------------------------------------------
  // The edit form

  /** The inputs of the edit form; the primary contact stands for element 0 of the contact people. */
  datatype FormField = NameField | ContactPersonNameField | CountryField | PhoneField | EmailField | SalespersonField

  const DefaultContactRole := "Contacto Principal"

  /** The value an input shows for the customer being edited. */
  function FormValue(c: Customer, f: FormField): string {
    match f
    case NameField => c.name
    case ContactPersonNameField => PrimaryContactName(c)
    case CountryField => c.country
    case PhoneField => c.phone
    case EmailField => c.email
    case SalespersonField => c.salesperson
  }

  /** The contact people after typing v as the primary contact's name. */
  function SetPrimaryContactName(people: seq<Contact>, v: string): (r: seq<Contact>)
    ensures |r| == if |people| == 0 then 1 else |people|
    ensures r[0].name == v
    ensures r[0].role == if |people| == 0 then DefaultContactRole else people[0].role
    ensures r[1..] == if |people| == 0 then [] else people[1..]
  {
    if |people| == 0 then [Contact(v, DefaultContactRole)]
    else [people[0].(name := v)] + people[1..]
  }

  /**
   * handleEditFormChange: the typed value lands in its field; the primary contact's
   * name writes element 0 of the contact people, creating it with the default role
   * when the list is empty. Nothing else changes.
   */
  function EditFormChange(c: Customer, f: FormField, v: string): (r: Customer)
    ensures FormValue(r, f) == v
    ensures forall g | g != f :: FormValue(r, g) == FormValue(c, g)
    ensures r.id == c.id && r.status == c.status
    ensures f != ContactPersonNameField ==> r.contactPeople == c.contactPeople
    ensures f == ContactPersonNameField ==> r == c.(contactPeople := SetPrimaryContactName(c.contactPeople, v))
  {
    match f
    case NameField => c.(name := v)
    case ContactPersonNameField => c.(contactPeople := SetPrimaryContactName(c.contactPeople, v))
    case CountryField => c.(country := v)
    case PhoneField => c.(phone := v)
    case EmailField => c.(email := v)
    case SalespersonField => c.(salesperson := v)
  }

  /** Typing into the same input twice keeps only the last value. */
  lemma EditFormLastWins(c: Customer, f: FormField, v: string, w: string)
    ensures EditFormChange(EditFormChange(c, f, v), f, w) == EditFormChange(c, f, w)
  {
  }

  /** Typing into two different inputs gives the same customer in either order. */
  lemma EditFormCommutes(c: Customer, f: FormField, g: FormField, v: string, w: string)
    requires f != g
    ensures EditFormChange(EditFormChange(c, f, v), g, w) == EditFormChange(EditFormChange(c, g, w), f, v)
  {
  }

  /** Writing back the value an input shows changes nothing, except that an empty contact list gains its entry. */
  lemma EditFormUnchanged(c: Customer, f: FormField)
    requires f != ContactPersonNameField || |c.contactPeople| > 0
    ensures EditFormChange(c, f, FormValue(c, f)) == c
  {
    if f == ContactPersonNameField {
      assert SetPrimaryContactName(c.contactPeople, FormValue(c, f)) == c.contactPeople;
    }
  }

  /** The primary contact input and the contact sort read the same name. */
  lemma FormShowsSortedContact(c: Customer)
    ensures FormValue(c, ContactPersonNameField) == SortText(c, ContactPeopleKey)
  {
  }

  /** handleSaveEdit: the edited customer replaces the one with its id; nothing else changes. */
  function SaveEdit(s: seq<Customer>, edited: Customer): (r: seq<Customer>)
    ensures |r| == |s|
    ensures forall i | 0 <= i < |s| :: r[i] == if s[i].id == edited.id then edited else s[i]
    ensures (forall i | 0 <= i < |s| :: s[i].id != edited.id) ==> r == s
  {
    ReplaceByKey(s, Id, edited)
  }

  /** A save adds and removes no customer and updates at most the edited one. */
  lemma SaveEditDiff(s: seq<Customer>, edited: Customer)
    ensures SnapshotDiff(s, SaveEdit(s, edited), Id).added == 0
    ensures SnapshotDiff(s, SaveEdit(s, edited), Id).removed == 0
    ensures SnapshotDiff(s, SaveEdit(s, edited), Id).updated <= 1
  {
    ReplaceDiff(s, Id, edited);
  }

  /** An edit session opened on a stored customer and saved keeps every id of the store. */
  lemma EditSessionKeepsIds(s: seq<Customer>, i: nat, f: FormField, v: string)
    requires i < |s|
    ensures forall j | 0 <= j < |s| :: SaveEdit(s, EditFormChange(s[i], f, v))[j].id == s[j].id
    ensures SaveEdit(s, EditFormChange(s[i], f, v))[i] == EditFormChange(s[i], f, v)
  {
  }
}
