/**
  The synchronized subject: a table of observers under a spin lock, and a counter of its entries
  that notifiers read without the lock to skip an empty table.

  A step is one access to the counter, or one access to the table by the lock holder; observers are
  freed at any moment.  Each notification carries as history the observers it owes the event: those
  registered when it began, unless they are freed, unregistered or no longer interested before it
  reaches them.
 */
module SyncSubject {
  import opened Wrappers

  type Thread = nat
  type Observer = nat
  type Event = nat
  type Filter = iset<Event>   // the events a filter accepts

  datatype Pc =
    | Idle
    | Inserted(o: Observer)   // holds the lock; a new entry is in the table, the counter is due
    | Removed(o: Observer)    // holds the lock; the entry is gone, the counter is due
    | Waiting(e: Event, owed: set<Observer>)
    | Scanning(e: Event, owed: set<Observer>, todo: set<Observer>, delivered: set<Observer>, freed: nat)
    | Returned(e: Event, owed: set<Observer>, delivered: set<Observer>)

  datatype Subject = Subject(
    table: map<Observer, Filter>,
    count: int,
    holder: Option<Thread>,
    dead: set<Observer>,
    pcs: map<Thread, Pc>)

  datatype Action =
    | Register(h: Thread, o: Observer, f: Filter)
    | CountUp(h: Thread)
    | Unregister(h: Thread, o: Observer)
    | CountDown(h: Thread)
    | Load(h: Thread, e: Event)
    | Lock(h: Thread)
    | Visit(h: Thread, o: Observer)
    | Finish(h: Thread)
    | Free(o: Observer)

  predicate Ready(s: Subject, h: Thread) { h in s.pcs && (s.pcs[h].Idle? || s.pcs[h].Returned?) }

  ghost predicate Enabled(s: Subject, a: Action) {
    match a
    case Register(h, o, _) => Ready(s, h) && s.holder.None?
    case CountUp(h) => h in s.pcs && s.pcs[h].Inserted?
    case Unregister(h, _) => Ready(s, h) && s.holder.None?
    case CountDown(h) => h in s.pcs && s.pcs[h].Removed?
    case Load(h, _) => Ready(s, h)
    case Lock(h) => h in s.pcs && s.pcs[h].Waiting? && s.holder.None?
    case Visit(h, o) => h in s.pcs && s.pcs[h].Scanning? && o in s.pcs[h].todo
    case Finish(h) => h in s.pcs && s.pcs[h].Scanning? && s.pcs[h].todo == {}
    case Free(_) => true
  }

  /** The registration of `o` has returned. */
  predicate Completed(s: Subject, o: Observer) {
    o in s.table && !(s.holder.Some? && s.holder.value in s.pcs && s.pcs[s.holder.value] == Inserted(o))
  }

  /** The observers a notification that begins now must reach. */
  ghost function OwedNow(s: Subject, e: Event): set<Observer> {
    set o | o in s.table && Completed(s, o) && o !in s.dead && e in s.table[o]
  }

  function Forget(pc: Pc, o: Observer): Pc {
    match pc
    case Waiting(e, owed) => Waiting(e, owed - {o})
    case Scanning(e, owed, todo, delivered, freed) => Scanning(e, owed - {o}, todo, delivered, freed)
    case _ => pc
  }

  /** No notification under way owes `o` anything any more. */
  function ForgetAll(pcs: map<Thread, Pc>, o: Observer): map<Thread, Pc> {
    map h | h in pcs :: Forget(pcs[h], o)
  }

  /** `o` now has filter `f`: notifications whose event it rejects owe `o` nothing. */
  ghost function Refilter(pcs: map<Thread, Pc>, o: Observer, f: Filter): map<Thread, Pc> {
    map h | h in pcs ::
      if (pcs[h].Waiting? || pcs[h].Scanning?) && pcs[h].e !in f then Forget(pcs[h], o) else pcs[h]
  }

  ghost function VisitOne(s: Subject, h: Thread, o: Observer): Subject
    requires h in s.pcs && s.pcs[h].Scanning? && o in s.pcs[h].todo
  {
    match s.pcs[h]
    case Scanning(e, owed, todo, delivered, freed) =>
      if o in s.dead || o !in s.table then
        s.(table := s.table - {o}, pcs := s.pcs[h := Scanning(e, owed, todo - {o}, delivered, freed + 1)])
      else if e in s.table[o] then
        s.(pcs := s.pcs[h := Scanning(e, owed, todo - {o}, delivered + {o}, freed)])
      else
        s.(pcs := s.pcs[h := Scanning(e, owed, todo - {o}, delivered, freed)])
  }

  ghost function Do(s: Subject, a: Action): Subject
    requires Enabled(s, a)
  {
    match a
    case Register(h, o, f) =>
      var pcs := Refilter(s.pcs, o, f);
      if o in s.table then s.(table := s.table[o := f], pcs := pcs[h := Idle])
      else s.(table := s.table[o := f], pcs := pcs[h := Inserted(o)], holder := Some(h))
    case CountUp(h) => s.(count := s.count + 1, holder := None, pcs := s.pcs[h := Idle])
    case Unregister(h, o) =>
      if o in s.table then
        s.(table := s.table - {o}, pcs := ForgetAll(s.pcs, o)[h := Removed(o)], holder := Some(h))
      else s.(pcs := s.pcs[h := Idle])
    case CountDown(h) => s.(count := s.count - 1, holder := None, pcs := s.pcs[h := Idle])
    case Load(h, e) =>
      var owed := OwedNow(s, e);
      s.(pcs := s.pcs[h := if s.count == 0 then Returned(e, owed, {}) else Waiting(e, owed)])
    case Lock(h) =>
      var pc := s.pcs[h];
      s.(holder := Some(h), pcs := s.pcs[h := Scanning(pc.e, pc.owed, s.table.Keys, {}, 0)])
    case Visit(h, o) => VisitOne(s, h, o)
    case Finish(h) =>
      var pc := s.pcs[h];
      s.(count := s.count - pc.freed, holder := None, pcs := s.pcs[h := Returned(pc.e, pc.owed, pc.delivered)])
    case Free(o) => s.(dead := s.dead + {o}, pcs := ForgetAll(s.pcs, o))
  }

  ghost predicate Init(s: Subject) {
    s.table == map[] && s.count == 0 && s.holder.None? && (forall h :: h in s.pcs ==> s.pcs[h].Idle?)
  }

  ghost predicate IsRun(trace: seq<Subject>, actions: seq<Action>) {
    && |trace| == |actions| + 1
    && Init(trace[0])
    && (forall i :: 0 <= i < |actions| ==>
          Enabled(trace[i], actions[i]) && trace[i + 1] == Do(trace[i], actions[i]))
  }

  // ----- The invariant -----

  /** How far the counter is from the size of the table, given what the lock holder still has to add. */
  ghost predicate CountOk(s: Subject) {
    match s.holder
    case None => s.count == |s.table|
    case Some(h) =>
      h in s.pcs &&
      match s.pcs[h]
      case Inserted(o) => o in s.table && s.count + 1 == |s.table|
      case Removed(_) => s.count == |s.table| + 1
      case Scanning(_, _, todo, _, freed) => todo <= s.table.Keys && s.count == |s.table| + freed
      case _ => false
  }

  ghost predicate HolderOk(s: Subject) {
    forall h :: h in s.pcs && (s.pcs[h].Inserted? || s.pcs[h].Removed? || s.pcs[h].Scanning?) ==> s.holder == Some(h)
  }

  /** `o` is registered, alive and interested in `e`. */
  ghost predicate Listens(s: Subject, o: Observer, e: Event) {
    o in s.table && o !in s.dead && e in s.table[o]
  }

  ghost predicate PcOk(s: Subject, pc: Pc) {
    match pc
    case Waiting(e, owed) => forall o :: o in owed ==> Listens(s, o, e)
    case Scanning(e, owed, todo, delivered, _) =>
      && (forall o :: o in owed ==> o in delivered || (o in todo && Listens(s, o, e)))
      && (forall o :: o in delivered ==> o in s.table && e in s.table[o] && o !in todo)
    case Returned(_, owed, delivered) => owed <= delivered
    case _ => true
  }

  ghost predicate Inv(s: Subject) {
    CountOk(s) && HolderOk(s) && forall h :: h in s.pcs ==> PcOk(s, s.pcs[h])
  }

  lemma SizeAdd(m: map<Observer, Filter>, o: Observer, f: Filter)
    ensures |m[o := f]| == |m| + if o in m then 0 else 1
  {
    assert m[o := f].Keys == m.Keys + {o};
  }

  lemma SizeRemove(m: map<Observer, Filter>, o: Observer)
    requires o in m
    ensures |m - {o}| == |m| - 1
  {
    assert (m - {o}).Keys == m.Keys - {o};
  }

  lemma RegisterInv(s: Subject, a: Action)
    requires Inv(s) && a.Register? && Enabled(s, a)
    ensures Inv(Do(s, a))
  {
    SizeAdd(s.table, a.o, a.f);
  }

  lemma UnregisterInv(s: Subject, a: Action)
    requires Inv(s) && a.Unregister? && Enabled(s, a)
    ensures Inv(Do(s, a))
  {
    if a.o in s.table { SizeRemove(s.table, a.o); }
  }

  /** The fast path is taken only when nothing is owed. */
  lemma FastPathOwesNothing(s: Subject, e: Event)
    requires CountOk(s) && s.count == 0
    ensures OwedNow(s, e) == {}
  {
    if s.holder.Some? && s.pcs[s.holder.value].Inserted? {
      SizeRemove(s.table, s.pcs[s.holder.value].o);
    }
  }

  lemma LoadInv(s: Subject, a: Action)
    requires Inv(s) && a.Load? && Enabled(s, a)
    ensures Inv(Do(s, a))
  {
    if s.count == 0 { FastPathOwesNothing(s, a.e); }
  }

  /** Visiting a freed observer. */
  lemma VisitDead(s: Subject, h: Thread, o: Observer)
    requires Inv(s) && Enabled(s, Visit(h, o)) && o in s.dead
    ensures Inv(Do(s, Visit(h, o)))
  {
    SizeRemove(s.table, o);
  }

  lemma VisitLive(s: Subject, h: Thread, o: Observer)
    requires Inv(s) && Enabled(s, Visit(h, o)) && o !in s.dead
    ensures Inv(Do(s, Visit(h, o)))
  {
  }

  lemma VisitInv(s: Subject, a: Action)
    requires Inv(s) && a.Visit? && Enabled(s, a)
    ensures Inv(Do(s, a))
  {
    if a.o in s.dead {
      VisitDead(s, a.h, a.o);
    } else {
      VisitLive(s, a.h, a.o);
    }
  }

  lemma OtherInv(s: Subject, a: Action)
    requires Inv(s) && (a.CountUp? || a.CountDown? || a.Lock? || a.Finish? || a.Free?) && Enabled(s, a)
    ensures Inv(Do(s, a))
  {
  }

  lemma ActionInv(s: Subject, a: Action)
    requires Inv(s) && Enabled(s, a)
    ensures Inv(Do(s, a))
  {
    match a
    case Register(_, _, _) => RegisterInv(s, a);
    case Unregister(_, _) => UnregisterInv(s, a);
    case Load(_, _) => LoadInv(s, a);
    case Visit(_, _) => VisitInv(s, a);
    case _ => OtherInv(s, a);
  }

  lemma {:induction false} RunInv(trace: seq<Subject>, actions: seq<Action>, i: nat)
    requires IsRun(trace, actions) && i < |trace|
    ensures Inv(trace[i])
    decreases i
  {
    if i > 0 {
      RunInv(trace, actions, i - 1);
      ActionInv(trace[i - 1], actions[i - 1]);
    }
  }

  // ----- What the subject guarantees -----

  /** The counter is exact whenever the lock is free, and no decrement underflows. */
  lemma CounterExact(trace: seq<Subject>, actions: seq<Action>, i: nat)
    requires IsRun(trace, actions) && i < |trace|
    ensures trace[i].count >= 0
    ensures trace[i].holder.None? ==> trace[i].count == |trace[i].table|
  {
    RunInv(trace, actions, i);
    var s := trace[i];
    if s.holder.Some? && s.pcs[s.holder.value].Inserted? {
      SizeRemove(s.table, s.pcs[s.holder.value].o);
    }
  }

  /** Thread `h` begins another call. */
  predicate Begins(a: Action, h: Thread) {
    (a.Register? || a.Unregister? || a.Load?) && a.h == h
  }

  /** Thread `h` is notifying, or has notified, `e`, and owes it to `o`. */
  ghost predicate Owes(s: Subject, h: Thread, e: Event, o: Observer) {
    h in s.pcs &&
    match s.pcs[h]
    case Waiting(e', owed) => e' == e && o in owed
    case Scanning(e', owed, _, _, _) => e' == e && o in owed
    case Returned(e', owed, _) => e' == e && o in owed
    case _ => false
  }

  lemma OwesOn(s: Subject, a: Action, h: Thread, e: Event, o: Observer)
    requires Enabled(s, a) && !Begins(a, h)
    requires Owes(s, h, e, o) && Listens(Do(s, a), o, e)
    ensures Owes(Do(s, a), h, e, o)
  {
  }

  lemma {:induction false} OwesUntil(
    trace: seq<Subject>, actions: seq<Action>, i: nat, j: nat, h: Thread, e: Event, o: Observer)
    requires IsRun(trace, actions) && i < j < |trace| && actions[i] == Load(h, e)
    requires Completed(trace[i], o)
    requires forall k :: i <= k <= j ==> Listens(trace[k], o, e)
    requires forall k :: i < k < j ==> !Begins(actions[k], h)
    ensures Owes(trace[j], h, e, o)
    decreases j
  {
    if j == i + 1 {
      assert Listens(trace[i], o, e);
    } else {
      OwesUntil(trace, actions, i, j - 1, h, e, o);
      assert Listens(trace[j], o, e) && trace[j - 1 + 1] == Do(trace[j - 1], actions[j - 1]);
      OwesOn(trace[j - 1], actions[j - 1], h, e, o);
    }
  }

  /**
    No event is dropped, in any interleaving: a notification that has returned, on the fast path or
    not, has reached every observer whose registration had returned when it began and that stayed
    registered, alive and interested.
   */
  lemma NotifyReaches(
    trace: seq<Subject>, actions: seq<Action>, i: nat, j: nat, h: Thread, e: Event, o: Observer)
    requires IsRun(trace, actions) && i < j < |trace| && actions[i] == Load(h, e)
    requires Completed(trace[i], o)
    requires forall k :: i <= k <= j ==> Listens(trace[k], o, e)
    requires forall k :: i < k < j ==> !Begins(actions[k], h)
    ensures h in trace[j].pcs && !trace[j].pcs[h].Idle?
    ensures trace[j].pcs[h].Returned? ==> o in trace[j].pcs[h].delivered
  {
    OwesUntil(trace, actions, i, j, h, e, o);
    RunInv(trace, actions, j);
  }
}
