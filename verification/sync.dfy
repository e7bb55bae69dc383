/**
 * The sync flow shared by the proposal, customer and installed-machine lists
 * (handleSync and handleConfirmSync): a confirmation modal, then
 * idle -> syncing -> success -> idle, a re-entry guard while syncing, and a toast
 * that summarises the comparison of the old store with the fetched snapshot.
 *
 * The source's two `setTimeout` callbacks are explicit pending timers: starting a
 * sync schedules a fetch timer (the 1500 ms simulated fetch), and completing it
 * schedules an idle timer (the 3000 ms return to idle). The environment fires any
 * pending timer; the snapshot the fetch returns and the clock reading are
 * parameters of that event.
 */
module Sync {
  import opened Wrappers
  import opened Text
  import opened Collections
  import opened RecordDiff

  datatype Status = Idle | Syncing | Success

  datatype ToastKind = SuccessToast | InfoToast

  /** The toasts of the sync flow; the text each shows is ToastMessage below. */
  datatype Toast = Started | Completed(changes: Changes)
  {
    function Kind(): ToastKind {
      if Started? then InfoToast else SuccessToast
    }
  }

  /** A callback scheduled with `setTimeout` that has not run yet. */
  datatype Timer<R> =
    | FetchTimer(base: seq<R>)  // the fetch callback; base is the store it closed over
    | IdleTimer                 // the callback that sets the status back to idle

  datatype SyncView<R> = SyncView(
    status: Status,
    store: seq<R>,
    confirming: bool,           // the confirmation modal is open
    lastSync: Option<int>,
    toast: Option<Toast>,
    pending: seq<Timer<R>>)

  datatype Event<R> =
    | OpenConfirm                                   // the sync button
    | CancelConfirm                                 // "Cancelar" or closing the modal
    | Confirm                                       // "Confirmar e Sincronizar"
    | Fire(index: nat, fetched: seq<R>, now: int)   // pending timer number `index` runs
    | DismissToast                                  // the toast's close button or its 5000 ms timer
    | LocalChange(store: seq<R>)                    // an edit, status change or creation replaced the store

  /**
   * What the idle timer does when it fires. The source sets the status to idle
   * unconditionally; the corrected rule only leaves the success state.
   */
  datatype IdleRule = ResetUnconditionally | ResetFromSuccessOnly

  const StartedMessage := "Sincronização iniciada..."
  const DonePrefix := "Sincronização concluída: "
  const NoChangesMessage := "Sincronização concluída. Sem alterações."

  function Initial<R>(store: seq<R>): SyncView<R> {
    SyncView(Idle, store, false, None, None, [])
  }

  // ---------------------------------------------------------------------------
  // The summary message

  datatype Category = Added | Updated | Removed

  const Categories: seq<Category> := [Added, Updated, Removed]

  function Count(c: Changes, cat: Category): nat {
    match cat
    case Added => c.added
    case Updated => c.updated
    case Removed => c.removed
  }

  function Label(cat: Category): string {
    match cat
    case Added => "adicionada(s)"
    case Updated => "atualizada(s)"
    case Removed => "removida(s)"
  }

  /** The categories with a non-zero count, in the order added, updated, removed. */
  function Reported(c: Changes): (r: seq<Category>)
    ensures forall cat :: cat in r <==> Count(c, cat) > 0
    ensures forall i, j | 0 <= i < j < |r| :: Rank(r[i]) < Rank(r[j])
  {
    Keep(c.added > 0, Added) + Keep(c.updated > 0, Updated) + Keep(c.removed > 0, Removed)
  }

  function Keep<T>(b: bool, x: T): seq<T> {
    if b then [x] else []
  }

  function Rank(cat: Category): nat {
    match cat
    case Added => 0
    case Updated => 1
    case Removed => 2
  }

  /** One part of the message: the count, a space, the label. */
  function Part(c: Changes, cat: Category): string {
    Decimal(Count(c, cat)) + " " + Label(cat)
  }

  /** The part of each category, in the order given. */
  function PartsOf(c: Changes, cats: seq<Category>): seq<string> {
    seq(|cats|, i requires 0 <= i < |cats| => Part(c, cats[i]))
  }

  lemma PartsOfConcat(c: Changes, a: seq<Category>, b: seq<Category>)
    ensures PartsOf(c, a + b) == PartsOf(c, a) + PartsOf(c, b)
  {
  }

  lemma PartsOfKeep(c: Changes, b: bool, cat: Category)
    ensures PartsOf(c, Keep(b, cat)) == Keep(b, Part(c, cat))
  {
  }

  /**
   * The message parts: one part per reported category, in the order of Reported, so
   * only the non-zero counts appear and always in the same order.
   */
  function MessageParts(c: Changes): (parts: seq<string>)
    ensures parts == PartsOf(c, Reported(c))
  {
    var parts := Keep(c.added > 0, Part(c, Added))
      + Keep(c.updated > 0, Part(c, Updated))
      + Keep(c.removed > 0, Part(c, Removed));
    var a, u, r := Keep(c.added > 0, Added), Keep(c.updated > 0, Updated), Keep(c.removed > 0, Removed);
    PartsOfConcat(c, a, u);
    PartsOfConcat(c, a + u, r);
    PartsOfKeep(c, c.added > 0, Added);
    PartsOfKeep(c, c.updated > 0, Updated);
    PartsOfKeep(c, c.removed > 0, Removed);
    assert parts == PartsOf(c, Reported(c));
    parts
  }

  /** The toast shown when a sync completes; the fixed text exactly when nothing changed. */
  function SyncMessage(c: Changes): (m: string)
    ensures m == NoChangesMessage <==> c == Changes(0, 0, 0)
    ensures c != Changes(0, 0, 0) ==> m == DonePrefix + Join(MessageParts(c), ", ") + "."
  {
    var parts := MessageParts(c);
    if |parts| > 0 then
      DistinctAfterPrefix(Join(parts, ", "));
      DonePrefix + Join(parts, ", ") + "."
    else
      assert Count(c, Added) == 0 && Count(c, Updated) == 0 && Count(c, Removed) == 0;
      NoChangesMessage
  }

  lemma DistinctAfterPrefix(body: string)
    ensures DonePrefix + body + "." != NoChangesMessage
  {
    var m := DonePrefix + body + ".";
    assert m[23] == DonePrefix[23];
  }

  function ToastMessage(t: Toast): string {
    match t
    case Started => StartedMessage
    case Completed(c) => SyncMessage(c)
  }

  /** Two additions and one removal name both and leave updates out. */
  lemma MessageExample()
    ensures MessageParts(Changes(2, 0, 1)) == ["2 adicionada(s)", "1 removida(s)"]
  {
    var c := Changes(2, 0, 1);
    assert Decimal(2) == "2" && Decimal(1) == "1";
    assert Part(c, Added) == "2 adicionada(s)";
    assert Part(c, Removed) == "1 removida(s)";
  }

  // ---------------------------------------------------------------------------
  // Transitions

  function RemoveAt<T>(s: seq<T>, i: nat): (r: seq<T>)
    requires i < |s|
    ensures |r| == |s| - 1
  {
    s[..i] + s[i + 1..]
  }

  /** handleSync: a no-op while syncing, otherwise enter syncing and schedule the fetch. */
  function StartSync<R>(v: SyncView<R>): SyncView<R> {
    if v.status == Syncing then v
    else v.(status := Syncing,
            toast := Some(Started),
            pending := v.pending + [FetchTimer(v.store)])
  }

  /** The fetch callback: compare, replace the store, stamp the time, report, schedule idle. */
  function CompleteFetch<R(==), K(==)>(v: SyncView<R>, i: nat, base: seq<R>, fetched: seq<R>, now: int, key: R -> K): SyncView<R>
    requires i < |v.pending|
  {
    var changes := SnapshotDiff(base, fetched, key);
    v.(store := fetched,
       lastSync := Some(now),
       status := Success,
       toast := Some(Completed(changes)),
       pending := RemoveAt(v.pending, i) + [IdleTimer])
  }

  function FireIdle<R>(v: SyncView<R>, i: nat, rule: IdleRule): SyncView<R>
    requires i < |v.pending|
  {
    var status := match rule
      case ResetUnconditionally => Idle
      case ResetFromSuccessOnly => if v.status == Success then Idle else v.status;
    v.(status := status, pending := RemoveAt(v.pending, i))
  }

  /** The modal buttons only exist while the modal is open, and only pending timers fire. */
  predicate Enabled<R>(v: SyncView<R>, e: Event<R>) {
    match e
    case CancelConfirm => v.confirming
    case Confirm => v.confirming
    case Fire(i, _, _) => i < |v.pending|
    case _ => true
  }

  function Transition<R(==), K(==)>(v: SyncView<R>, e: Event<R>, key: R -> K, rule: IdleRule): SyncView<R>
    requires Enabled(v, e)
  {
    match e
    case OpenConfirm => if v.status == Syncing then v else v.(confirming := true)
    case CancelConfirm => v.(confirming := false)
    case Confirm => StartSync(v.(confirming := false))
    case Fire(i, fetched, now) =>
      (match v.pending[i]
       case FetchTimer(base) => CompleteFetch(v, i, base, fetched, now, key)
       case IdleTimer => FireIdle(v, i, rule))
    case DismissToast => v.(toast := None)
    case LocalChange(s) => v.(store := s)
  }

  /** Runs a sequence of events; None when one of them is not enabled when it comes. */
  function Run<R(==), K(==)>(v: SyncView<R>, es: seq<Event<R>>, key: R -> K, rule: IdleRule): Option<SyncView<R>>
    decreases |es|
  {
    if |es| == 0 then Some(v)
    else if !Enabled(v, es[0]) then None
    else Run(Transition(v, es[0], key, rule), es[1..], key, rule)
  }

  // ---------------------------------------------------------------------------
  // Properties of single transitions

  /** While syncing, the sync button does nothing and confirming only closes the modal. */
  lemma GuardWhileSyncing<R, K>(v: SyncView<R>, key: R -> K, rule: IdleRule)
    requires v.status == Syncing
    ensures Transition(v, OpenConfirm, key, rule) == v
    ensures v.confirming ==> Transition(v, Confirm, key, rule) == v.(confirming := false)
  {
  }

  /**
   * A completed fetch leaves the store equal to the fetched snapshot, in the success
   * state, with the time stamped and the summary of the comparison against the
   * store the sync started from.
   */
  lemma FetchCompletion<R, K>(v: SyncView<R>, i: nat, fetched: seq<R>, now: int, key: R -> K, rule: IdleRule)
    requires i < |v.pending| && v.pending[i].FetchTimer?
    ensures var w := Transition(v, Fire(i, fetched, now), key, rule);
      && w.store == fetched
      && w.status == Success
      && w.lastSync == Some(now)
      && w.toast == Some(Completed(SnapshotDiff(v.pending[i].base, fetched, key)))
      && w.pending == RemoveAt(v.pending, i) + [IdleTimer]
  {
  }

  /** Running a trace in two parts is running the first part, then the second from where it ended. */
  lemma {:induction false} RunAppend<R, K>(v: SyncView<R>, a: seq<Event<R>>, b: seq<Event<R>>, key: R -> K, rule: IdleRule)
    decreases |a|
    ensures Run(v, a + b, key, rule)
      == if Run(v, a, key, rule).Some? then Run(Run(v, a, key, rule).value, b, key, rule) else None
  {
    if |a| == 0 {
      assert a + b == b;
    } else {
      assert (a + b)[0] == a[0];
      assert (a + b)[1..] == a[1..] + b;
      if Enabled(v, a[0]) {
        RunAppend(Transition(v, a[0], key, rule), a[1..], b, key, rule);
      }
    }
  }

  /** Opening the modal and confirming, when not syncing, starts a sync. */
  lemma StartRun<R, K>(v: SyncView<R>, key: R -> K, rule: IdleRule)
    requires v.status != Syncing && !v.confirming
    ensures Run(v, [OpenConfirm, Confirm], key, rule) == Some(StartSync(v))
  {
    var v1 := v.(confirming := true);
    assert v1.(confirming := false) == v;
    var es: seq<Event<R>> := [OpenConfirm, Confirm];
    assert es[1..] == [Confirm];
    assert es[1..][1..] == [];
  }

  lemma FireRun<R, K>(v: SyncView<R>, i: nat, fetched: seq<R>, now: int, key: R -> K, rule: IdleRule)
    requires i < |v.pending|
    ensures Run(v, [Fire(i, fetched, now)], key, rule) == Some(Transition(v, Fire(i, fetched, now), key, rule))
  {
    assert [Fire(i, fetched, now)][1..] == [];
  }

  /**
   * The whole cycle from idle with nothing pending: open the modal, confirm, let the
   * fetch complete, let the idle timer run. The store ends equal to the snapshot,
   * the toast reports the comparison against the starting store, and the status goes
   * through success back to idle with nothing pending.
   */
  lemma SyncCycle<R, K>(s: seq<R>, fetched: seq<R>, now: int, key: R -> K, rule: IdleRule)
    ensures Run(Initial(s), [OpenConfirm, Confirm, Fire(0, fetched, now)], key, rule)
      == Some(SyncView(Success, fetched, false, Some(now),
           Some(Completed(SnapshotDiff(s, fetched, key))), [IdleTimer]))
    ensures Run(Initial(s), [OpenConfirm, Confirm, Fire(0, fetched, now), Fire(0, fetched, now)], key, rule)
      == Some(SyncView(Idle, fetched, false, Some(now),
           Some(Completed(SnapshotDiff(s, fetched, key))), []))
  {
    var start, fire := [OpenConfirm, Confirm], [Fire(0, fetched, now)];
    var v2 := StartSync(Initial(s));
    StartRun(Initial(s), key, rule);
    assert v2.pending == [FetchTimer(s)];
    FireRun(v2, 0, fetched, now, key, rule);
    RunAppend(Initial(s), start, fire, key, rule);
    assert start + fire == [OpenConfirm, Confirm, Fire(0, fetched, now)];
    var v3 := Transition(v2, Fire(0, fetched, now), key, rule);
    assert RemoveAt(v2.pending, 0) == [];
    assert v3.pending == [IdleTimer];
    FireRun(v3, 0, fetched, now, key, rule);
    RunAppend(Initial(s), start + fire, fire, key, rule);
    assert start + fire + fire == [OpenConfirm, Confirm, Fire(0, fetched, now), Fire(0, fetched, now)];
    assert RemoveAt(v3.pending, 0) == [];
  }

  // ---------------------------------------------------------------------------
  // At most one fetch in flight

  function FetchCount<R>(pending: seq<Timer<R>>): nat {
    if |pending| == 0 then 0
    else (if pending[0].FetchTimer? then 1 else 0) + FetchCount(pending[1..])
  }

  lemma {:induction false} FetchCountAppend<R>(a: seq<Timer<R>>, b: seq<Timer<R>>)
    ensures FetchCount(a + b) == FetchCount(a) + FetchCount(b)
  {
    if |a| > 0 {
      assert (a + b)[1..] == a[1..] + b;
      FetchCountAppend(a[1..], b);
    } else {
      assert a + b == b;
    }
  }

  lemma FetchCountRemove<R>(s: seq<Timer<R>>, i: nat)
    requires i < |s|
    ensures FetchCount(RemoveAt(s, i)) == FetchCount(s) - if s[i].FetchTimer? then 1 else 0
  {
    assert s == s[..i] + s[i..];
    FetchCountAppend(s[..i], s[i..]);
    FetchCountAppend(s[..i], s[i + 1..]);
    assert s[i..][1..] == s[i + 1..];
  }

  /** The guard's intent: a fetch is in flight exactly while syncing, and never two. */
  ghost predicate OneFetchWhileSyncing<R>(v: SyncView<R>) {
    && FetchCount(v.pending) <= 1
    && (v.status == Syncing <==> FetchCount(v.pending) == 1)
  }

  /** Under the corrected idle rule every transition keeps the guard's intent. */
  lemma TransitionKeepsOneFetch<R, K>(v: SyncView<R>, e: Event<R>, key: R -> K)
    requires OneFetchWhileSyncing(v) && Enabled(v, e)
    ensures OneFetchWhileSyncing(Transition(v, e, key, ResetFromSuccessOnly))
  {
    match e
    case Confirm =>
      if v.status != Syncing {
        FetchCountAppend(v.pending, [FetchTimer(v.store)]);
      }
    case Fire(i, fetched, now) =>
      FetchCountRemove(v.pending, i);
      if v.pending[i].FetchTimer? {
        FetchCountAppend(RemoveAt(v.pending, i), [IdleTimer]);
      }
    case _ =>
  }

  /** Under the corrected idle rule, every run from a fresh view keeps at most one fetch in flight. */
  lemma {:induction false} AtMostOneFetchInFlight<R, K>(v: SyncView<R>, es: seq<Event<R>>, key: R -> K)
    requires OneFetchWhileSyncing(v)
    decreases |es|
    ensures Run(v, es, key, ResetFromSuccessOnly).Some? ==>
      && FetchCount(Run(v, es, key, ResetFromSuccessOnly).value.pending) <= 1
      && OneFetchWhileSyncing(Run(v, es, key, ResetFromSuccessOnly).value)
  {
    if |es| > 0 && Enabled(v, es[0]) {
      TransitionKeepsOneFetch(v, es[0], key);
      AtMostOneFetchInFlight(Transition(v, es[0], key, ResetFromSuccessOnly), es[1..], key);
    }
  }

  /** A fresh view has nothing in flight. */
  lemma InitialHasNoFetch<R>(s: seq<R>)
    ensures OneFetchWhileSyncing(Initial(s))
    ensures FetchCount(Initial(s).pending) == 0
  {
  }

  /**
   * As written, the idle timer of a first sync is still pending when a second sync
   * starts from the success state, and it sets idle while the second fetch is in
   * flight.
   */
  lemma StaleIdleTimerAsWritten<R, K>(s: seq<R>, fetched: seq<R>, key: R -> K)
    ensures Run(Initial(s), [OpenConfirm, Confirm, Fire(0, fetched, 1), OpenConfirm, Confirm, Fire(0, fetched, 2)],
                key, ResetUnconditionally)
      == Some(SyncView(Idle, fetched, false, Some(1), Some(Started), [FetchTimer(fetched)]))
    ensures !OneFetchWhileSyncing(SyncView(Idle, fetched, false, Some(1), Some(Started), [FetchTimer(fetched)]))
  {
    var rule := ResetUnconditionally;
    var first, again := [OpenConfirm, Confirm, Fire(0, fetched, 1)], [OpenConfirm, Confirm];
    SyncCycle(s, fetched, 1, key, rule);
    var v3 := SyncView(Success, fetched, false, Some(1), Some(Completed(SnapshotDiff(s, fetched, key))), [IdleTimer]);
    StartRun(v3, key, rule);
    var v5 := StartSync(v3);
    assert v5.pending == [IdleTimer, FetchTimer(fetched)];
    FireRun(v5, 0, fetched, 2, key, rule);
    assert RemoveAt(v5.pending, 0) == [FetchTimer(fetched)];
    RunAppend(Initial(s), first, again, key, rule);
    RunAppend(Initial(s), first + again, [Fire(0, fetched, 2)], key, rule);
    assert first + again + [Fire(0, fetched, 2)]
      == [OpenConfirm, Confirm, Fire(0, fetched, 1), OpenConfirm, Confirm, Fire(0, fetched, 2)];
    assert [FetchTimer(fetched)][1..] == [];
  }

  /**
   * As written, the guard then lets a third start through while the second fetch
   * is still in flight, and two fetches are pending.
   */
  lemma GuardBypassedAsWritten<R, K>(s: seq<R>, fetched: seq<R>, key: R -> K)
    ensures var es := [OpenConfirm, Confirm, Fire(0, fetched, 1),
                       OpenConfirm, Confirm, Fire(0, fetched, 2),
                       OpenConfirm, Confirm];
      && Run(Initial(s), es, key, ResetUnconditionally).Some?
      && Run(Initial(s), es, key, ResetUnconditionally).value.status == Syncing
      && FetchCount(Run(Initial(s), es, key, ResetUnconditionally).value.pending) == 2
  {
    var rule := ResetUnconditionally;
    var first := [OpenConfirm, Confirm, Fire(0, fetched, 1), OpenConfirm, Confirm, Fire(0, fetched, 2)];
    var v6 := SyncView(Idle, fetched, false, Some(1), Some(Started), [FetchTimer(fetched)]);
    StaleIdleTimerAsWritten(s, fetched, key);
    StartRun(v6, key, rule);
    RunAppend(Initial(s), first, [OpenConfirm, Confirm], key, rule);
    var v8 := StartSync(v6);
    assert v8.pending == [FetchTimer(fetched), FetchTimer(fetched)];
    assert v8.pending[1..] == [FetchTimer(fetched)];
    assert v8.pending[1..][1..] == [];
    assert FetchCount(v8.pending[1..][1..]) == 0;
    assert FetchCount(v8.pending[1..]) == 1;
    assert first + [OpenConfirm, Confirm] == [OpenConfirm, Confirm, Fire(0, fetched, 1),
      OpenConfirm, Confirm, Fire(0, fetched, 2), OpenConfirm, Confirm];
  }
}
