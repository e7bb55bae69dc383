/**
 * The installed-machine list (Maquinas): the record, the query the table shows
 * (a substring search over every field's text, then the sort) and the snapshot
 * comparison of its sync.
 */
module Machines {
  import opened Wrappers
  import opened Text
  import opened Collections
  import opened RecordDiff
  import opened ListView

  datatype MachineStatus = Operational | Maintenance | Offline

  function StatusName(s: MachineStatus): string {
    match s
    case Operational => "Operational"
    case Maintenance => "Maintenance"
    case Offline => "Offline"
  }

  datatype Machine = Machine(
    assetId: string,
    machineModel: string,
    machineBrand: string,
    customerName: string,
    contactPerson: string,
    customerCountry: string,
    customerEmail: string,
    customerPhone: string,
    salesperson: string,
    status: MachineStatus)

  function AssetId(m: Machine): string {
    m.assetId
  }

  /** The snapshot comparison of a sync, keyed by asset id. */
  method CompareMachineData(oldData: seq<Machine>, newData: seq<Machine>) returns (d: Changes)
    ensures d == SnapshotDiff(oldData, newData, AssetId)
    ensures d.added == |KeysOf(newData, AssetId) - KeysOf(oldData, AssetId)|
    ensures d.removed == |KeysOf(oldData, AssetId) - KeysOf(newData, AssetId)|
    ensures d.updated <= |KeysOf(oldData, AssetId) * KeysOf(newData, AssetId)|
    ensures oldData == newData ==> d == Changes(0, 0, 0)
  {
    d := CountChanges(oldData, newData, AssetId);
    if oldData == newData {
      SelfDiffIsZero(oldData, AssetId);
    }
  }

  // ---------------------------------------------------------------------------
  // Fields

  datatype MachineKey =
    | AssetIdKey | MachineModelKey | MachineBrandKey | CustomerNameKey | ContactPersonKey
    | CustomerCountryKey | CustomerEmailKey | CustomerPhoneKey | SalespersonKey | StatusKey

  /** `String(m[key])`. */
  function FieldText(m: Machine, key: MachineKey): string {
    match key
    case AssetIdKey => m.assetId
    case MachineModelKey => m.machineModel
    case MachineBrandKey => m.machineBrand
    case CustomerNameKey => m.customerName
    case ContactPersonKey => m.contactPerson
    case CustomerCountryKey => m.customerCountry
    case CustomerEmailKey => m.customerEmail
    case CustomerPhoneKey => m.customerPhone
    case SalespersonKey => m.salesperson
    case StatusKey => StatusName(m.status)
  }

  /** `Object.values(m).map(String)`, in the declaration order of the fields. */
  function Values(m: Machine): (vs: seq<string>)
    ensures |vs| == 10
  {
    [m.assetId, m.machineModel, m.machineBrand, m.customerName, m.contactPerson,
     m.customerCountry, m.customerEmail, m.customerPhone, m.salesperson, StatusName(m.status)]
  }

  /** The values are exactly the texts of the fields, one per key. */
  lemma ValuesAreFields(m: Machine)
    ensures forall key: MachineKey :: FieldText(m, key) in Values(m)
    ensures forall i | 0 <= i < |Values(m)| :: exists key: MachineKey :: Values(m)[i] == FieldText(m, key)
  {
    var vs := Values(m);
    assert vs[0] == FieldText(m, AssetIdKey) && vs[1] == FieldText(m, MachineModelKey);
    assert vs[2] == FieldText(m, MachineBrandKey) && vs[3] == FieldText(m, CustomerNameKey);
    assert vs[4] == FieldText(m, ContactPersonKey) && vs[5] == FieldText(m, CustomerCountryKey);
    assert vs[6] == FieldText(m, CustomerEmailKey) && vs[7] == FieldText(m, CustomerPhoneKey);
    assert vs[8] == FieldText(m, SalespersonKey) && vs[9] == FieldText(m, StatusKey);
  }

  // ---------------------------------------------------------------------------
  // The search

  /** Some value, lowercased, contains the lowercased term t. */
  predicate MatchesText(m: Machine, t: string, lower: string -> string) {
    exists i | 0 <= i < |Values(m)| :: Includes(lower(Values(m)[i]), t)
  }

  /** A machine passes the search when no term is typed, or when some value contains it. */
  predicate Selected(m: Machine, term: string, lower: string -> string) {
    term == "" || MatchesText(m, lower(term), lower)
  }

  function SelectedBy(term: string, lower: string -> string): Machine -> bool {
    (m: Machine) => Selected(m, term, lower)
  }

  /** The search keeps a machine exactly when the text of one of its fields contains the term. */
  lemma MatchesTextIffSomeField(m: Machine, t: string, lower: string -> string)
    ensures MatchesText(m, t, lower) <==> exists key: MachineKey :: Includes(lower(FieldText(m, key)), t)
  {
    ValuesAreFields(m);
    if MatchesText(m, t, lower) {
      var i :| 0 <= i < |Values(m)| && Includes(lower(Values(m)[i]), t);
      var key: MachineKey :| Values(m)[i] == FieldText(m, key);
      assert Includes(lower(FieldText(m, key)), t);
    }
    if exists key: MachineKey :: Includes(lower(FieldText(m, key)), t) {
      var key: MachineKey :| Includes(lower(FieldText(m, key)), t);
      var i :| 0 <= i < |Values(m)| && Values(m)[i] == FieldText(m, key);
      assert Includes(lower(Values(m)[i]), t);
    }
  }

  /** A longer term whose lowercased form contains the shorter one's keeps no machine the shorter one drops. */
  lemma NarrowerTermSelectsFewer(m: Machine, term: string, longer: string, lower: string -> string)
    requires term != "" && longer != ""
    requires Includes(lower(longer), lower(term))
    requires Selected(m, longer, lower)
    ensures Selected(m, term, lower)
  {
    var i :| 0 <= i < |Values(m)| && Includes(lower(Values(m)[i]), lower(longer));
    IncludesTransitive(lower(Values(m)[i]), lower(longer), lower(term));
  }

  // ---------------------------------------------------------------------------
  // Sorting and the query

  /** The table starts unsorted. */
  const InitialSort: Option<SortConfig<MachineKey>> := None

  /** The locale comparison of the key's text, negated when descending. */
  function Comparator(config: SortConfig<MachineKey>, cmp: (string, string) -> int): (Machine, Machine) -> int {
    ByKey((m: Machine) => FieldText(m, config.key), Directed(cmp, config.direction))
  }

  lemma ComparatorIsComparator(config: SortConfig<MachineKey>, cmp: (string, string) -> int)
    requires IsComparator(cmp)
    ensures IsComparator(Comparator(config, cmp))
  {
    DirectedIsComparator(cmp, config.direction);
    ByKeyIsComparator((m: Machine) => FieldText(m, config.key), Directed(cmp, config.direction));
  }

  /**
   * sortedAndFilteredMachines: the search when a term is typed, then the sort when
   * one is configured.
   */
  function Project(
    s: seq<Machine>, term: string, config: Option<SortConfig<MachineKey>>,
    lower: string -> string, cmp: (string, string) -> int): (r: seq<Machine>)
    ensures multiset(r) == multiset(Filter(s, SelectedBy(term, lower)))
    ensures forall m | m in r :: Selected(m, term, lower)
    ensures config.None? ==> r == Filter(s, SelectedBy(term, lower))
    ensures config.Some? ==> r == Sort(Filter(s, SelectedBy(term, lower)), Comparator(config.value, cmp))
    ensures term == "" ==> multiset(r) == multiset(s)
  {
    var searched := if term != "" then Filter(s, (m: Machine) => MatchesText(m, lower(term), lower)) else s;
    SearchFilter(s, term, lower, searched);
    var r := if config.None? then searched else Sort(searched, Comparator(config.value, cmp));
    FilteredMembers(r, s, SelectedBy(term, lower));
    r
  }

  lemma SearchFilter(s: seq<Machine>, term: string, lower: string -> string, searched: seq<Machine>)
    requires searched == if term != "" then Filter(s, (m: Machine) => MatchesText(m, lower(term), lower)) else s
    ensures searched == Filter(s, SelectedBy(term, lower))
  {
    if term != "" {
      FilterExt(s, (m: Machine) => MatchesText(m, lower(term), lower), SelectedBy(term, lower));
    } else {
      FilterKeepsAll(s, SelectedBy(term, lower));
    }
  }

  /** Sorted by the comparator means the key texts are in the order of the directed comparison. */
  lemma SortedOnKey(r: seq<Machine>, config: SortConfig<MachineKey>, cmp: (string, string) -> int)
    requires SortedBy(r, Comparator(config, cmp))
    ensures forall i, j | 0 <= i < j < |r| ::
      Directed(cmp, config.direction)(FieldText(r[i], config.key), FieldText(r[j], config.key)) <= 0
  {
    forall i, j | 0 <= i < j < |r|
      ensures Directed(cmp, config.direction)(FieldText(r[i], config.key), FieldText(r[j], config.key)) <= 0
    {
      assert Comparator(config, cmp)(r[i], r[j]) <= 0;
    }
  }

  /**
   * With a sort configured and a consistent locale comparison, the key texts of the
   * result are in the order of the comparison, reversed when descending.
   */
  lemma ProjectSorted(
    s: seq<Machine>, term: string, config: SortConfig<MachineKey>,
    lower: string -> string, cmp: (string, string) -> int)
    requires IsComparator(cmp)
    ensures var r := Project(s, term, Some(config), lower, cmp);
      forall i, j | 0 <= i < j < |r| ::
        if config.direction == Ascending then cmp(FieldText(r[i], config.key), FieldText(r[j], config.key)) <= 0
        else cmp(FieldText(r[j], config.key), FieldText(r[i], config.key)) <= 0
  {
    ComparatorIsComparator(config, cmp);
    var searched := Filter(s, SelectedBy(term, lower));
    ComparatorConsistentOn(Comparator(config, cmp), searched);
    SortSorted(searched, Comparator(config, cmp));
    var r := Project(s, term, Some(config), lower, cmp);
    SortedOnKey(r, config, cmp);
    DirectedOrder(r, config, cmp);
  }

  lemma DirectedOrder(r: seq<Machine>, config: SortConfig<MachineKey>, cmp: (string, string) -> int)
    requires IsComparator(cmp)
    requires forall i, j | 0 <= i < j < |r| ::
      Directed(cmp, config.direction)(FieldText(r[i], config.key), FieldText(r[j], config.key)) <= 0
    ensures forall i, j | 0 <= i < j < |r| ::
      if config.direction == Ascending then cmp(FieldText(r[i], config.key), FieldText(r[j], config.key)) <= 0
      else cmp(FieldText(r[j], config.key), FieldText(r[i], config.key)) <= 0
  {
    if config.direction == Descending {
      forall i, j | 0 <= i < j < |r| ensures cmp(FieldText(r[j], config.key), FieldText(r[i], config.key)) <= 0 {
        var a, b := FieldText(r[i], config.key), FieldText(r[j], config.key);
        assert Directed(cmp, Descending)(a, b) <= 0;
      }
    }
  }

  /** A narrower term shows a subset of what the shorter term shows. */
  lemma NarrowerTermShowsSubset(
    s: seq<Machine>, term: string, longer: string, config: Option<SortConfig<MachineKey>>,
    lower: string -> string, cmp: (string, string) -> int)
    requires term != "" && longer != ""
    requires Includes(lower(longer), lower(term))
    ensures forall m | m in Project(s, longer, config, lower, cmp) :: m in Project(s, term, config, lower, cmp)
  {
    var shorter := Project(s, term, config, lower, cmp);
    forall m | m in Project(s, longer, config, lower, cmp) ensures m in shorter {
      NarrowerTermSelectsFewer(m, term, longer, lower);
      assert m in multiset(Project(s, longer, config, lower, cmp));
      assert m in s;
      assert m in Filter(s, SelectedBy(term, lower));
      assert m in multiset(shorter);
    }
  }

  /** A machine whose asset id contains the term is always found. */
  lemma FoundByAssetId(s: seq<Machine>, term: string, config: Option<SortConfig<MachineKey>>,
    lower: string -> string, cmp: (string, string) -> int, m: Machine)
    requires m in s && Includes(lower(m.assetId), lower(term))
    ensures m in Project(s, term, config, lower, cmp)
  {
    assert Values(m)[0] == m.assetId;
    assert SelectedBy(term, lower)(m);
    assert m in Filter(s, SelectedBy(term, lower));
    assert m in multiset(Project(s, term, config, lower, cmp));
  }
}
