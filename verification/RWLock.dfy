/** ReentrantRWLock as a state machine. Each step is one section run under the lock's
    mutex: entering lock() or lock_shared(), re-testing after a wake-up, unlock() and
    unlock_shared(). `inLock` and `inShared` are the threads inside a wait, of which the
    woken ones have left the condition variable and not yet re-tested; the others are asleep.
    notify_one picks any sleeper, and a sleeper may wake without a notification. */
module RWLockModel {
  import opened Common

  type Tid = int

  datatype State = State(
    writeLocked: bool,
    writer: Option<Tid>,
    writeHolds: int,
    readHolds: map<Tid, int>,
    waitingWriters: int,
    waitingReaders: int,
    inLock: set<Tid>,
    wokenWriters: set<Tid>,
    inShared: set<Tid>,
    wokenReaders: set<Tid>)

  const INITIAL := State(false, None, 0, map[], 0, 0, {}, {}, {}, {})

  // ---------------------------------------------------------------- the tests

  lemma EmptySet<T>(s: set<T>)
    requires forall t :: t !in s
    ensures s == {}
  {
  }

  lemma Inhabited(s: set<Tid>)
    requires s != {}
    ensures exists t :: t in s
  {
    if forall t :: t !in s {
      EmptySet(s);
    }
  }

  /** The sum canWriteLock computes over the hold map. */
  ghost function Total(m: map<Tid, int>): int
    decreases |m.Keys|
  {
    if m.Keys == {} then 0
    else
      Inhabited(m.Keys);
      var t :| t in m.Keys;
      assert (m - {t}).Keys == m.Keys - {t};
      m[t] + Total(m - {t})
  }

  lemma {:induction false} TotalWithout(m: map<Tid, int>, t: Tid)
    requires t in m
    ensures Total(m) == m[t] + Total(m - {t})
    decreases |m.Keys|
  {
    var u :| u in m.Keys && Total(m) == m[u] + Total(m - {u});
    if u != t {
      assert (m - {u}).Keys == m.Keys - {u};
      TotalWithout(m - {u}, t);
      assert m - {u} - {t} == m - {t} - {u};
      assert (m - {t}).Keys == m.Keys - {t};
      TotalWithout(m - {t}, u);
    }
  }

  ghost predicate Positive(m: map<Tid, int>) {
    forall t :: t in m ==> m[t] > 0
  }

  lemma {:induction false} TotalZero(m: map<Tid, int>)
    requires Positive(m)
    ensures Total(m) >= 0
    ensures Total(m) == 0 <==> m.Keys == {}
    decreases |m.Keys|
  {
    if m.Keys != {} {
      Inhabited(m.Keys);
      var t :| t in m.Keys;
      TotalWithout(m, t);
      assert (m - {t}).Keys == m.Keys - {t};
      TotalZero(m - {t});
    }
  }

  predicate HoldsWrite(s: State, t: Tid) {
    s.writeLocked && s.writer == Some(t)
  }

  predicate CanRead(s: State, t: Tid) {
    HoldsWrite(s, t) || (!s.writeLocked && s.waitingWriters == 0) || (!s.writeLocked && t in s.readHolds)
  }

  ghost predicate CanWrite(s: State, t: Tid) {
    HoldsWrite(s, t) || (!s.writeLocked && Total(s.readHolds) == 0)
  }

  // ---------------------------------------------------------------- the steps

  datatype Event =
    | EnterWrite(t: Tid)
    | RetestWrite(t: Tid)
    | EnterRead(t: Tid)
    | RetestRead(t: Tid)
    | Unlock(t: Tid, chosen: Tid)
    | UnlockShared(t: Tid, chosen: Tid)
    | Spurious(t: Tid)

  function Blocked(s: State): set<Tid> { s.inLock + s.inShared }

  predicate AsleepInLock(s: State, t: Tid) { t in s.inLock && t !in s.wokenWriters }

  predicate AsleepInShared(s: State, t: Tid) { t in s.inShared && t !in s.wokenReaders }

  predicate Choosable(s: State, chosen: Tid) {
    s.inLock - s.wokenWriters != {} ==> AsleepInLock(s, chosen)
  }

  /** A thread inside a wait can only re-test; notify_one needs a sleeper to choose. */
  predicate Enabled(s: State, e: Event) {
    match e
    case EnterWrite(t) => t !in Blocked(s)
    case RetestWrite(t) => t in s.wokenWriters
    case EnterRead(t) => t !in Blocked(s)
    case RetestRead(t) => t in s.wokenReaders
    case Unlock(t, chosen) => t !in Blocked(s) && Choosable(s, chosen)
    case UnlockShared(t, chosen) => t !in Blocked(s) && Choosable(s, chosen)
    case Spurious(t) => AsleepInLock(s, t) || AsleepInShared(s, t)
  }

  function NotifyOneWriter(s: State, chosen: Tid): State {
    if s.inLock - s.wokenWriters == {} then s else s.(wokenWriters := s.wokenWriters + {chosen})
  }

  function NotifyAllReaders(s: State): State {
    s.(wokenReaders := s.inShared)
  }

  /** The rest of lock() once the test holds. */
  function TakeWrite(s: State, t: Tid): State {
    s.(inLock := s.inLock - {t}, wokenWriters := s.wokenWriters - {t},
       waitingWriters := s.waitingWriters - 1,
       writeLocked := true, writer := Some(t), writeHolds := s.writeHolds + 1)
  }

  function Holds(s: State, t: Tid): int {
    if t in s.readHolds then s.readHolds[t] else 0
  }

  /** The rest of lock_shared() once the test holds. */
  function TakeRead(s: State, t: Tid): State {
    s.(inShared := s.inShared - {t}, wokenReaders := s.wokenReaders - {t},
       waitingReaders := s.waitingReaders - 1,
       readHolds := s.readHolds[t := Holds(s, t) + 1])
  }

  function ArriveWrite(s: State, t: Tid): State {
    s.(waitingWriters := s.waitingWriters + 1, inLock := s.inLock + {t})
  }

  function ArriveRead(s: State, t: Tid): State {
    s.(waitingReaders := s.waitingReaders + 1, inShared := s.inShared + {t})
  }

  function SleepWrite(s: State, t: Tid): State {
    s.(wokenWriters := s.wokenWriters - {t})
  }

  function SleepRead(s: State, t: Tid): State {
    s.(wokenReaders := s.wokenReaders - {t})
  }

  ghost function TestWrite(s: State, t: Tid): State {
    if CanWrite(s, t) then TakeWrite(s, t) else SleepWrite(s, t)
  }

  function TestRead(s: State, t: Tid): State {
    if CanRead(s, t) then TakeRead(s, t) else SleepRead(s, t)
  }

  function ReleaseWrite(s: State, t: Tid, chosen: Tid): State {
    if !HoldsWrite(s, t) then s
    else if s.writeHolds - 1 > 0 then s.(writeHolds := s.writeHolds - 1)
    else
      var s' := s.(writeHolds := s.writeHolds - 1, writeLocked := false, writer := None);
      if s'.waitingWriters > 0 then NotifyOneWriter(s', chosen)
      else if s'.waitingReaders > 0 then NotifyAllReaders(s')
      else s'
  }

  function DropHold(m: map<Tid, int>, t: Tid): map<Tid, int>
    requires t in m
  {
    if m[t] - 1 <= 0 then m - {t} else m[t := m[t] - 1]
  }

  function ReleaseRead(s: State, t: Tid, chosen: Tid): State {
    if t !in s.readHolds then s
    else
      var s' := s.(readHolds := DropHold(s.readHolds, t));
      if s'.waitingWriters > 0 && s'.readHolds.Keys == {} then NotifyOneWriter(s', chosen)
      else if s'.waitingReaders > 0 && s'.waitingWriters == 0 then NotifyAllReaders(s')
      else s'
  }

  ghost function Step(s: State, e: Event): State {
    match e
    case EnterWrite(t) => TestWrite(ArriveWrite(s, t), t)
    case RetestWrite(t) => TestWrite(s, t)
    case EnterRead(t) => TestRead(ArriveRead(s, t), t)
    case RetestRead(t) => TestRead(s, t)
    case Unlock(t, chosen) => ReleaseWrite(s, t, chosen)
    case UnlockShared(t, chosen) => ReleaseRead(s, t, chosen)
    case Spurious(t) =>
      if AsleepInLock(s, t) then s.(wokenWriters := s.wokenWriters + {t})
      else s.(wokenReaders := s.wokenReaders + {t})
  }

  ghost predicate Legal(s: State, es: seq<Event>)
    decreases |es|
  {
    es == [] || (Enabled(s, es[0]) && Legal(Step(s, es[0]), es[1..]))
  }

  ghost function After(s: State, es: seq<Event>): State
    decreases |es|
  {
    if es == [] then s else After(Step(s, es[0]), es[1..])
  }

  // ---------------------------------------------------------------- the invariant

  /** Queues, counters and hold counts agree. */
  ghost predicate Consistent(s: State) {
    && s.wokenWriters <= s.inLock && s.wokenReaders <= s.inShared && s.inLock !! s.inShared
    && s.waitingWriters == |s.inLock| && s.waitingReaders == |s.inShared|
    && Positive(s.readHolds)
    && s.inShared !! s.readHolds.Keys
    && (if s.writeLocked then s.writeHolds >= 1 && s.writer.Some? && s.writer.value !in Blocked(s)
        else s.writeHolds == 0 && s.writer == None)
  }

  /** Mutual exclusion: while the write lock is held, only its owner has read holds. */
  ghost predicate Exclusion(s: State) {
    s.writeLocked ==> forall t :: t in s.readHolds.Keys ==> s.writer == Some(t)
  }

  predicate Free(s: State) {
    !s.writeLocked && s.readHolds.Keys == {}
  }

  /** Nobody sleeps through its turn: with no writer holding or waiting every waiting reader
      is awake, and with no holder at all a waiting writer is. */
  ghost predicate Notified(s: State) {
    && (!s.writeLocked && s.waitingWriters == 0 ==> s.wokenReaders == s.inShared)
    && (Free(s) && s.inLock != {} ==> s.wokenWriters != {})
  }

  ghost predicate Inv(s: State) {
    Consistent(s) && Exclusion(s) && Notified(s)
  }

  /** No lost wake-up, as a caller sees it: no sleeping reader would be admitted, and if a
      sleeping writer would be then a woken one would be as well. */
  ghost predicate NoLostWakeup(s: State) {
    && (forall t :: AsleepInShared(s, t) ==> !CanRead(s, t))
    && (forall t :: AsleepInLock(s, t) && CanWrite(s, t) ==> exists u :: u in s.wokenWriters && CanWrite(s, u))
  }

  lemma InvNoLostWakeup(s: State)
    requires Inv(s)
    ensures NoLostWakeup(s)
  {
    TotalZero(s.readHolds);
    forall t | AsleepInLock(s, t) && CanWrite(s, t)
      ensures exists u :: u in s.wokenWriters && CanWrite(s, u)
    {
      Inhabited(s.wokenWriters);
      var u :| u in s.wokenWriters;
      assert CanWrite(s, u);
    }
  }

  lemma WriteTestKeepsInv(s: State, t: Tid)
    requires Inv(s) && t in s.wokenWriters
    ensures Inv(TestWrite(s, t))
  {
    TotalZero(s.readHolds);
  }

  lemma WriteEntryKeepsInv(s: State, t: Tid)
    requires Inv(s) && t !in Blocked(s)
    ensures Inv(TestWrite(ArriveWrite(s, t), t))
  {
    TotalZero(s.readHolds);
    assert s.inLock + {t} - {t} == s.inLock;
    assert s.wokenWriters - {t} == s.wokenWriters;
  }

  lemma ReadTestKeepsInv(s: State, t: Tid)
    requires Inv(s) && t in s.wokenReaders
    ensures Inv(TestRead(s, t))
  {
  }

  lemma ReadTaken(s: State, t: Tid)
    requires Inv(s) && t !in Blocked(s) && CanRead(s, t)
    ensures Inv(TakeRead(ArriveRead(s, t), t))
  {
    var s' := TakeRead(ArriveRead(s, t), t);
    assert s'.inShared == s.inShared && s'.wokenReaders == s.wokenReaders;
  }

  lemma ReadSleeps(s: State, t: Tid)
    requires Inv(s) && t !in Blocked(s) && !CanRead(s, t)
    ensures Inv(SleepRead(ArriveRead(s, t), t))
  {
    var s' := SleepRead(ArriveRead(s, t), t);
    assert s'.inShared == s.inShared + {t} && s'.wokenReaders == s.wokenReaders;
  }

  lemma ReadEntryKeepsInv(s: State, t: Tid)
    requires Inv(s) && t !in Blocked(s)
    ensures Inv(TestRead(ArriveRead(s, t), t))
  {
    if CanRead(s, t) {
      ReadTaken(s, t);
    } else {
      ReadSleeps(s, t);
    }
  }

  /** What a release leaves alone. */
  lemma ReleaseFrames(s: State, t: Tid, chosen: Tid)
    ensures
      var s' := ReleaseWrite(s, t, chosen);
      && s'.inLock == s.inLock && s'.inShared == s.inShared && s'.readHolds == s.readHolds
      && s'.waitingWriters == s.waitingWriters && s'.waitingReaders == s.waitingReaders
    ensures
      var s' := ReleaseRead(s, t, chosen);
      && s'.inLock == s.inLock && s'.inShared == s.inShared
      && s'.writeLocked == s.writeLocked && s'.writer == s.writer && s'.writeHolds == s.writeHolds
      && s'.waitingWriters == s.waitingWriters && s'.waitingReaders == s.waitingReaders
      && s'.readHolds == if t in s.readHolds then DropHold(s.readHolds, t) else s.readHolds
  {
  }

  lemma DropHoldKeys(m: map<Tid, int>, t: Tid)
    requires t in m && Positive(m)
    ensures DropHold(m, t).Keys <= m.Keys && Positive(DropHold(m, t))
  {
  }

  lemma UnlockKeepsInv(s: State, t: Tid, chosen: Tid)
    requires Inv(s) && Enabled(s, Unlock(t, chosen))
    ensures Inv(ReleaseWrite(s, t, chosen))
  {
    if HoldsWrite(s, t) && s.writeHolds - 1 <= 0 {
      assert s.waitingWriters == 0 ==> s.inLock == {};
      assert s.waitingReaders == 0 ==> s.inShared == {};
    }
  }

  lemma UnlockSharedKeepsInv(s: State, t: Tid, chosen: Tid)
    requires Inv(s) && Enabled(s, UnlockShared(t, chosen))
    ensures Inv(ReleaseRead(s, t, chosen))
  {
    if t in s.readHolds {
      assert s.waitingWriters == 0 ==> s.inLock == {};
      DropHoldKeys(s.readHolds, t);
      ReleaseFrames(s, t, chosen);
      var s' := ReleaseRead(s, t, chosen);
      assert Consistent(s');
      assert Exclusion(s');
    }
  }

  /** Every step keeps the invariant. */
  lemma StepKeepsInv(s: State, e: Event)
    requires Inv(s) && Enabled(s, e)
    ensures Inv(Step(s, e))
  {
    match e
    case EnterWrite(t) => WriteEntryKeepsInv(s, t);
    case RetestWrite(t) => WriteTestKeepsInv(s, t);
    case EnterRead(t) => ReadEntryKeepsInv(s, t);
    case RetestRead(t) => ReadTestKeepsInv(s, t);
    case Unlock(t, chosen) => UnlockKeepsInv(s, t, chosen);
    case UnlockShared(t, chosen) => UnlockSharedKeepsInv(s, t, chosen);
    case Spurious(t) =>
  }

  lemma {:induction false} RunKeepsInv(s: State, es: seq<Event>)
    requires Inv(s) && Legal(s, es)
    ensures Inv(After(s, es))
    decreases |es|
  {
    if es != [] {
      StepKeepsInv(s, es[0]);
      RunKeepsInv(Step(s, es[0]), es[1..]);
    }
  }

  /** Exclusion and no lost wake-up, in every state any run of the lock can reach. */
  lemma EveryReachableState(es: seq<Event>)
    requires Legal(INITIAL, es)
    ensures Exclusion(After(INITIAL, es)) && NoLostWakeup(After(INITIAL, es)) && Inv(After(INITIAL, es))
  {
    RunKeepsInv(INITIAL, es);
    InvNoLostWakeup(After(INITIAL, es));
  }

  // ---------------------------------------------------------------- progress

  /** The step lets a thread that was waiting leave its wait. */
  ghost predicate AdmitsWaiter(s: State, e: Event) {
    Enabled(s, e) && ((e.RetestWrite? && CanWrite(s, e.t)) || (e.RetestRead? && CanRead(s, e.t)))
  }

  /** When nobody holds the lock and somebody waits, a woken waiter is ready to take it. */
  lemma FreeLockProgresses(s: State) returns (e: Event)
    requires Inv(s) && Free(s) && Blocked(s) != {}
    ensures AdmitsWaiter(s, e)
  {
    TotalZero(s.readHolds);
    if s.inLock != {} {
      Inhabited(s.wokenWriters);
      var t :| t in s.wokenWriters;
      e := RetestWrite(t);
    } else {
      assert Blocked(s) == s.inShared;
      Inhabited(s.inShared);
      var t :| t in s.inShared;
      e := RetestRead(t);
    }
  }

  // ---------------------------------------------------------------- upgrading

  /** A thread waits for the write lock while it still has read holds of its own. */
  predicate Upgrading(s: State, t: Tid) {
    t in s.inLock && t in s.readHolds
  }

  predicate NoHolds(s: State, t: Tid) {
    !HoldsWrite(s, t) && t !in s.readHolds
  }

  lemma NobodyAdmitted(s: State, t: Tid)
    requires Inv(s) && Upgrading(s, t)
    ensures !s.writeLocked
    ensures forall u :: !CanWrite(s, u) && !CanWrite(ArriveWrite(s, u), u)
    ensures forall u :: CanRead(s, u) || CanRead(ArriveRead(s, u), u) ==> u in s.readHolds
  {
    TotalZero(s.readHolds);
    assert s.waitingWriters > 0;
  }

  /** An upgrading thread stays, no waiter is admitted, and no thread without holds gains one. */
  lemma UpgradeStepStuck(s: State, t: Tid, e: Event)
    requires Inv(s) && Upgrading(s, t) && Enabled(s, e)
    ensures Upgrading(Step(s, e), t) && !AdmitsWaiter(s, e)
    ensures forall u :: NoHolds(s, u) ==> NoHolds(Step(s, e), u)
  {
    NobodyAdmitted(s, t);
    match e
    case EnterWrite(v) =>
      assert Step(s, e) == SleepWrite(ArriveWrite(s, v), v);
    case RetestWrite(v) =>
      assert Step(s, e) == SleepWrite(s, v);
    case EnterRead(v) => ReadStuck(s, ArriveRead(s, v), v);
    case RetestRead(v) => ReadStuck(s, s, v);
    case Unlock(v, chosen) =>
      assert Step(s, e) == s;
    case UnlockShared(v, chosen) =>
      ReleaseFrames(s, v, chosen);
      if v in s.readHolds {
        DropStuck(s, t, v);
      }
    case Spurious(_) =>
  }

  lemma ReadStuck(s: State, arrived: State, v: Tid)
    requires CanRead(arrived, v) ==> v in s.readHolds
    requires arrived.readHolds == s.readHolds && arrived.inLock == s.inLock
    requires !s.writeLocked && !arrived.writeLocked
    ensures TestRead(arrived, v).inLock == s.inLock && !TestRead(arrived, v).writeLocked
    ensures TestRead(arrived, v).readHolds.Keys == s.readHolds.Keys
  {
  }

  lemma DropStuck(s: State, t: Tid, v: Tid)
    requires t in s.readHolds && v != t && v in s.readHolds && Positive(s.readHolds)
    ensures t in DropHold(s.readHolds, v)
    ensures forall u :: u !in s.readHolds ==> u !in DropHold(s.readHolds, v)
  {
  }

  /** A thread that enters lock() with read holds and without the write lock has to wait, and
      still has its holds. */
  lemma UpgradeEntry(s: State, t: Tid)
    requires Inv(s) && Enabled(s, EnterWrite(t)) && t in s.readHolds && !HoldsWrite(s, t)
    ensures Upgrading(Step(s, EnterWrite(t)), t) && Inv(Step(s, EnterWrite(t)))
  {
    TotalZero(s.readHolds);
    WriteEntryKeepsInv(s, t);
  }

  /** A thread that enters lock() holding only read holds never leaves it: whatever happens
      after, it is inside, no waiter is admitted, and no thread without holds gains one. */
  lemma UpgraderNeverLeaves(s: State, t: Tid, es: seq<Event>)
    requires Inv(s) && Enabled(s, EnterWrite(t)) && t in s.readHolds && !HoldsWrite(s, t)
    requires Legal(Step(s, EnterWrite(t)), es)
    ensures
      var s' := After(Step(s, EnterWrite(t)), es);
      && Upgrading(s', t) && (forall e :: !AdmitsWaiter(s', e))
      && forall u :: NoHolds(Step(s, EnterWrite(t)), u) ==> NoHolds(s', u)
  {
    UpgradeEntry(s, t);
    UpgradeNeverLeaves(Step(s, EnterWrite(t)), t, es);
  }

  /** The deadlock can be reached: one thread takes a read lock and then asks for the write
      lock. */
  lemma DeadlockReachable()
    ensures
      var es := [EnterRead(1), EnterWrite(1)];
      Legal(INITIAL, es) && Upgrading(After(INITIAL, es), 1) && !CanEverAdmit(After(INITIAL, es))
  {
    var es := [EnterRead(1), EnterWrite(1)];
    var s1 := Step(INITIAL, es[0]);
    assert es[1..] == [EnterWrite(1)] && es[1..][1..] == [];
    StepKeepsInv(INITIAL, es[0]);
    assert CanRead(ArriveRead(INITIAL, 1), 1);
    assert 1 in s1.readHolds && s1.inLock == {} && s1.inShared == {};
    UpgradeEntry(s1, 1);
    DeadlockExactlyOnUpgrade(Step(s1, es[1]));
    assert After(INITIAL, es) == Step(s1, es[1]);
  }

  lemma {:induction false} UpgradeNeverLeaves(s: State, t: Tid, es: seq<Event>)
    requires Inv(s) && Upgrading(s, t) && Legal(s, es)
    ensures Upgrading(After(s, es), t)
    ensures forall e :: !AdmitsWaiter(After(s, es), e)
    ensures forall u :: NoHolds(s, u) ==> NoHolds(After(s, es), u)
    decreases |es|
  {
    if es == [] {
      forall e ensures !AdmitsWaiter(s, e) {
        if Enabled(s, e) {
          UpgradeStepStuck(s, t, e);
        }
      }
    } else {
      UpgradeStepStuck(s, t, es[0]);
      StepKeepsInv(s, es[0]);
      UpgradeNeverLeaves(Step(s, es[0]), t, es[1..]);
    }
  }

  /** How far the lock is from being free. */
  ghost function Depth(s: State): nat
    requires Inv(s)
  {
    TotalZero(s.readHolds);
    s.writeHolds + Total(s.readHolds)
  }

  lemma DropHoldTotal(m: map<Tid, int>, t: Tid)
    requires t in m && Positive(m)
    ensures Total(DropHold(m, t)) == Total(m) - 1
  {
    TotalWithout(m, t);
    var m' := DropHold(m, t);
    if t in m' {
      TotalWithout(m', t);
      assert m' - {t} == m - {t};
    }
  }

  lemma SomeSleeper(s: State) returns (chosen: Tid)
    ensures Choosable(s, chosen)
  {
    chosen := 0;
    if s.inLock - s.wokenWriters != {} {
      Inhabited(s.inLock - s.wokenWriters);
      chosen :| chosen in s.inLock - s.wokenWriters;
    }
  }

  /** The step brings the lock closer to free and takes no waiter out of its wait. */
  ghost predicate Drains(s: State, e: Event)
    requires Inv(s)
  {
    && Enabled(s, e)
    && Inv(Step(s, e))
    && Depth(Step(s, e)) < Depth(s)
    && Blocked(Step(s, e)) == Blocked(s)
    && forall t :: !Upgrading(Step(s, e), t)
  }

  lemma WriterDrains(s: State, chosen: Tid)
    requires Inv(s) && s.writeLocked && (forall t :: !Upgrading(s, t)) && Choosable(s, chosen)
    ensures Drains(s, Unlock(s.writer.value, chosen))
  {
    var e := Unlock(s.writer.value, chosen);
    UnlockKeepsInv(s, s.writer.value, chosen);
    ReleaseFrames(s, s.writer.value, chosen);
    forall t ensures !Upgrading(Step(s, e), t) {
      assert !Upgrading(s, t);
    }
  }

  lemma ReaderDrains(s: State, t: Tid, chosen: Tid)
    requires Inv(s) && t in s.readHolds && !s.writeLocked && (forall u :: !Upgrading(s, u)) && Choosable(s, chosen)
    ensures Drains(s, UnlockShared(t, chosen))
  {
    var e := UnlockShared(t, chosen);
    assert !Upgrading(s, t);
    UnlockSharedKeepsInv(s, t, chosen);
    ReleaseFrames(s, t, chosen);
    DropHoldKeys(s.readHolds, t);
    DropHoldTotal(s.readHolds, t);
    forall u ensures !Upgrading(Step(s, e), u) {
      assert !Upgrading(s, u);
    }
  }

  /** Without an upgrading thread, some holder is free to release. */
  lemma SomeoneDrains(s: State) returns (e: Event)
    requires Inv(s) && !Free(s) && (forall t :: !Upgrading(s, t))
    ensures Drains(s, e)
  {
    var chosen := SomeSleeper(s);
    if s.writeLocked {
      WriterDrains(s, chosen);
      e := Unlock(s.writer.value, chosen);
    } else {
      Inhabited(s.readHolds.Keys);
      var t :| t in s.readHolds.Keys;
      ReaderDrains(s, t, chosen);
      e := UnlockShared(t, chosen);
    }
  }

  lemma {:induction false} WaiterCanBeAdmitted(s: State) returns (es: seq<Event>, e: Event)
    requires Inv(s) && Blocked(s) != {} && (forall t :: !Upgrading(s, t))
    ensures Legal(s, es) && AdmitsWaiter(After(s, es), e)
    decreases Depth(s)
  {
    if Free(s) {
      es := [];
      e := FreeLockProgresses(s);
    } else {
      var e0 := SomeoneDrains(s);
      var rest;
      rest, e := WaiterCanBeAdmitted(Step(s, e0));
      es := [e0] + rest;
      assert es[1..] == rest;
    }
  }

  ghost predicate CanEverAdmit(s: State) {
    exists es, e :: Legal(s, es) && AdmitsWaiter(After(s, es), e)
  }

  /** The lock deadlocks in exactly one way: some continuation admits a waiter if and only
      if no thread is waiting to upgrade its own read hold. */
  lemma DeadlockExactlyOnUpgrade(s: State)
    requires Inv(s) && Blocked(s) != {}
    ensures CanEverAdmit(s) <==> forall t :: !Upgrading(s, t)
  {
    if t :| Upgrading(s, t) {
      forall es, e | Legal(s, es)
        ensures !AdmitsWaiter(After(s, es), e)
      {
        UpgradeNeverLeaves(s, t, es);
      }
    } else {
      var es, e := WaiterCanBeAdmitted(s);
    }
  }

  // ---------------------------------------------------------------- who is admitted

  lemma ReadTestOn(a: State, t: Tid)
    requires t in a.inShared && (a.waitingWriters == 0 <==> a.inLock == {})
    ensures
      var s', admitted := TestRead(a, t), (a.writeLocked && a.writer == Some(t)) || (!a.writeLocked && (a.inLock == {} || t in a.readHolds));
      && (admitted ==> s'.readHolds == a.readHolds[t := Holds(a, t) + 1] && t !in s'.inShared)
      && (!admitted ==> s'.readHolds == a.readHolds && AsleepInShared(s', t))
  {
  }

  /** A read test admits the thread, by one hold more, exactly if it owns the write lock, or
      nobody writes and no writer is inside its wait, or nobody writes and it reads already;
      otherwise the thread is asleep inside its wait. */
  lemma ReadTestExactly(s: State, t: Tid, e: Event)
    requires Inv(s) && Enabled(s, e) && (e == EnterRead(t) || e == RetestRead(t))
    ensures
      var s', admitted := Step(s, e), (s.writeLocked && s.writer == Some(t)) || (!s.writeLocked && (s.inLock == {} || t in s.readHolds));
      && (admitted ==> s'.readHolds == s.readHolds[t := Holds(s, t) + 1] && t !in s'.inShared)
      && (!admitted ==> s'.readHolds == s.readHolds && AsleepInShared(s', t))
  {
    assert s.waitingWriters == 0 <==> s.inLock == {};
    ReadTestOn(if e.EnterRead? then ArriveRead(s, t) else s, t);
  }

  /** A write test admits the thread exactly if it owns the write lock or nobody holds anything. */
  lemma WriteTestExactly(s: State, t: Tid, e: Event)
    requires Inv(s) && Enabled(s, e) && (e == EnterWrite(t) || e == RetestWrite(t))
    ensures
      var s', admitted := Step(s, e), (s.writeLocked && s.writer == Some(t)) || Free(s);
      && (admitted ==> s'.writeLocked && s'.writer == Some(t) && s'.writeHolds == s.writeHolds + 1 && t !in s'.inLock)
      && (!admitted ==> s'.writeLocked == s.writeLocked && s'.writer == s.writer && s'.writeHolds == s.writeHolds && AsleepInLock(s', t))
  {
    TotalZero(s.readHolds);
  }

  /** What an unlock wakes: nothing unless it frees the write lock; then one sleeping writer if
      a writer waits, and all readers if none does. */
  lemma UnlockWakes(s: State, t: Tid, chosen: Tid)
    requires Inv(s) && Enabled(s, Unlock(t, chosen))
    ensures
      var s' := Step(s, Unlock(t, chosen));
      if !(s.writeLocked && s.writer == Some(t) && s.writeHolds == 1) then
        s'.wokenWriters == s.wokenWriters && s'.wokenReaders == s.wokenReaders
      else if s.inLock != {} then
        && s'.wokenReaders == s.wokenReaders
        && (s.inLock == s.wokenWriters ==> s'.wokenWriters == s.wokenWriters)
        && (s.inLock != s.wokenWriters ==> AsleepInLock(s, chosen) && s'.wokenWriters == s.wokenWriters + {chosen})
      else
        s'.wokenReaders == s.inShared && s'.wokenWriters == s.wokenWriters
  {
    assert s.waitingWriters == 0 <==> s.inLock == {};
    assert s.waitingReaders == 0 <==> s.inShared == {};
    Sleepers(s);
  }

  lemma Sleepers(s: State)
    requires Inv(s)
    ensures s.inLock - s.wokenWriters == {} <==> s.inLock == s.wokenWriters
  {
    if s.inLock - s.wokenWriters == {} {
      forall t | t in s.inLock ensures t in s.wokenWriters {
        assert t !in s.inLock - s.wokenWriters;
      }
    }
  }

  /** What an unlock_shared wakes: one sleeping writer if it was the last read hold of all and a
      writer waits, all readers if no writer waits, and otherwise nothing. */
  lemma UnlockSharedWakes(s: State, t: Tid, chosen: Tid)
    requires Inv(s) && Enabled(s, UnlockShared(t, chosen)) && t in s.readHolds
    ensures
      var s' := Step(s, UnlockShared(t, chosen));
      var last := s.readHolds.Keys == {t} && s.readHolds[t] == 1;
      if s.inLock != {} && last then
        && s'.wokenReaders == s.wokenReaders
        && (s.inLock == s.wokenWriters ==> s'.wokenWriters == s.wokenWriters)
        && (s.inLock != s.wokenWriters ==> AsleepInLock(s, chosen) && s'.wokenWriters == s.wokenWriters + {chosen})
      else if s.inLock == {} then
        s'.wokenReaders == s.inShared && s'.wokenWriters == s.wokenWriters
      else
        s'.wokenWriters == s.wokenWriters && s'.wokenReaders == s.wokenReaders
  {
    assert s.waitingWriters == 0 <==> s.inLock == {};
    assert s.waitingReaders == 0 <==> s.inShared == {};
    Sleepers(s);
    LastDrop(s.readHolds, t);
  }

  lemma LastDrop(m: map<Tid, int>, t: Tid)
    requires t in m && Positive(m)
    ensures DropHold(m, t).Keys == {} <==> m.Keys == {t} && m[t] == 1
  {
    var m' := DropHold(m, t);
    if m[t] == 1 {
      assert m'.Keys == m.Keys - {t};
      if m.Keys - {t} == {} {
        forall u | u in m.Keys ensures u == t {
          assert u !in m.Keys - {t};
        }
      }
    } else {
      assert t in m'.Keys;
    }
  }

  /** While a writer waits, no thread without holds gains a read hold. */
  lemma WaitingWriterKeepsReadersOut(s: State, e: Event, u: Tid)
    requires Inv(s) && Enabled(s, e) && s.inLock != {} && NoHolds(s, u)
    ensures u !in Step(s, e).readHolds
  {
    match e
    case EnterRead(t) => ReadTestExactly(s, t, e);
    case RetestRead(t) => ReadTestExactly(s, t, e);
    case EnterWrite(_) =>
    case RetestWrite(_) =>
    case Unlock(t, chosen) => ReleaseFrames(s, t, chosen);
    case UnlockShared(t, chosen) => ReleaseFrames(s, t, chosen);
    case Spurious(_) =>
  }

  /** At every step of the run a writer waits, and `u` never takes the write lock. */
  ghost predicate WritersWait(s: State, es: seq<Event>, u: Tid)
    decreases |es|
  {
    es == [] || (s.inLock != {} && !HoldsWrite(Step(s, es[0]), u) && WritersWait(Step(s, es[0]), es[1..], u))
  }

  /** Over every run through which writers wait, a thread that holds nothing and does not get
      the write lock reads nothing. */
  lemma {:induction false} WaitingWritersKeepReadersOut(s: State, es: seq<Event>, u: Tid)
    requires Inv(s) && Legal(s, es) && NoHolds(s, u) && WritersWait(s, es, u)
    ensures u !in After(s, es).readHolds
    decreases |es|
  {
    if es != [] {
      WaitingWriterKeepsReadersOut(s, es[0], u);
      StepKeepsInv(s, es[0]);
      WaitingWritersKeepReadersOut(Step(s, es[0]), es[1..], u);
    }
  }

  // ---------------------------------------------------------------- hold counts

  /** What a thread saw: its acquisitions returning and its releases being called. */
  datatype Call = GotWrite(t: Tid) | GaveWrite(t: Tid) | GotRead(t: Tid) | GaveRead(t: Tid)

  ghost function Observed(s: State, e: Event): seq<Call> {
    match e
    case EnterWrite(t) => if CanWrite(s, t) then [GotWrite(t)] else []
    case RetestWrite(t) => if CanWrite(s, t) then [GotWrite(t)] else []
    case EnterRead(t) => if CanRead(s, t) then [GotRead(t)] else []
    case RetestRead(t) => if CanRead(s, t) then [GotRead(t)] else []
    case Unlock(t, _) => [GaveWrite(t)]
    case UnlockShared(t, _) => [GaveRead(t)]
    case Spurious(_) => []
  }

  ghost function Log(s: State, es: seq<Event>): seq<Call>
    decreases |es|
  {
    if es == [] then [] else Observed(s, es[0]) + Log(Step(s, es[0]), es[1..])
  }

  /** Unmatched acquisitions of one thread; a release with nothing to match is ignored. */
  function WriteDepth(from: int, log: seq<Call>, t: Tid): int
    decreases |log|
  {
    if log == [] then from
    else
      var next := if log[0] == GotWrite(t) then from + 1
                  else if log[0] == GaveWrite(t) && from > 0 then from - 1 else from;
      WriteDepth(next, log[1..], t)
  }

  function ReadDepth(from: int, log: seq<Call>, t: Tid): int
    decreases |log|
  {
    if log == [] then from
    else
      var next := if log[0] == GotRead(t) then from + 1
                  else if log[0] == GaveRead(t) && from > 0 then from - 1 else from;
      ReadDepth(next, log[1..], t)
  }

  function WriteHoldsOf(s: State, t: Tid): int {
    if HoldsWrite(s, t) then s.writeHolds else 0
  }

  // What one call observed does to the depths of a thread.
  lemma DepthOfOne(w: int, r: int, c: Call, t: Tid)
    ensures WriteDepth(w, [c], t) == if c == GotWrite(t) then w + 1 else if c == GaveWrite(t) && w > 0 then w - 1 else w
    ensures ReadDepth(r, [c], t) == if c == GotRead(t) then r + 1 else if c == GaveRead(t) && r > 0 then r - 1 else r
  {
    assert [c][1..] == [];
  }

  lemma WriteTestCounts(s: State, u: Tid, t: Tid)
    requires Inv(s)
    ensures CanWrite(s, u) ==> WriteHoldsOf(TakeWrite(s, u), t) == WriteDepth(WriteHoldsOf(s, t), [GotWrite(u)], t)
    ensures CanWrite(s, u) ==> Holds(TakeWrite(s, u), t) == ReadDepth(Holds(s, t), [GotWrite(u)], t)
  {
    DepthOfOne(WriteHoldsOf(s, t), Holds(s, t), GotWrite(u), t);
  }

  lemma ReadTestCounts(s: State, u: Tid, t: Tid)
    ensures WriteHoldsOf(TakeRead(s, u), t) == WriteDepth(WriteHoldsOf(s, t), [GotRead(u)], t)
    ensures Holds(TakeRead(s, u), t) == ReadDepth(Holds(s, t), [GotRead(u)], t)
  {
    DepthOfOne(WriteHoldsOf(s, t), Holds(s, t), GotRead(u), t);
  }

  lemma UnlockCounts(s: State, u: Tid, chosen: Tid, t: Tid)
    requires Inv(s)
    ensures WriteHoldsOf(ReleaseWrite(s, u, chosen), t) == WriteDepth(WriteHoldsOf(s, t), [GaveWrite(u)], t)
    ensures Holds(ReleaseWrite(s, u, chosen), t) == ReadDepth(Holds(s, t), [GaveWrite(u)], t)
  {
    DepthOfOne(WriteHoldsOf(s, t), Holds(s, t), GaveWrite(u), t);
    ReleaseFrames(s, u, chosen);
  }

  lemma UnlockSharedCounts(s: State, u: Tid, chosen: Tid, t: Tid)
    requires Inv(s)
    ensures WriteHoldsOf(ReleaseRead(s, u, chosen), t) == WriteDepth(WriteHoldsOf(s, t), [GaveRead(u)], t)
    ensures Holds(ReleaseRead(s, u, chosen), t) == ReadDepth(Holds(s, t), [GaveRead(u)], t)
  {
    DepthOfOne(WriteHoldsOf(s, t), Holds(s, t), GaveRead(u), t);
    ReleaseFrames(s, u, chosen);
  }

  ghost predicate CountsHolds(s: State, s': State, o: seq<Call>, t: Tid) {
    && WriteHoldsOf(s', t) == WriteDepth(WriteHoldsOf(s, t), o, t)
    && Holds(s', t) == ReadDepth(Holds(s, t), o, t)
  }

  lemma EntriesCount(s: State, u: Tid, t: Tid)
    requires Inv(s)
    ensures CountsHolds(s, Step(s, EnterWrite(u)), Observed(s, EnterWrite(u)), t)
    ensures CountsHolds(s, Step(s, EnterRead(u)), Observed(s, EnterRead(u)), t)
  {
    WriteTestCounts(s, u, t);
    ReadTestCounts(s, u, t);
    assert CanWrite(ArriveWrite(s, u), u) == CanWrite(s, u);
    assert CanRead(ArriveRead(s, u), u) == CanRead(s, u);
  }

  lemma RetestsCount(s: State, u: Tid, t: Tid)
    requires Inv(s)
    ensures CountsHolds(s, Step(s, RetestWrite(u)), Observed(s, RetestWrite(u)), t)
    ensures CountsHolds(s, Step(s, RetestRead(u)), Observed(s, RetestRead(u)), t)
  {
    WriteTestCounts(s, u, t);
    ReadTestCounts(s, u, t);
  }

  lemma StepCountsHolds(s: State, e: Event, t: Tid)
    requires Inv(s) && Enabled(s, e)
    ensures CountsHolds(s, Step(s, e), Observed(s, e), t)
  {
    match e
    case EnterWrite(u) => EntriesCount(s, u, t);
    case RetestWrite(u) => RetestsCount(s, u, t);
    case EnterRead(u) => EntriesCount(s, u, t);
    case RetestRead(u) => RetestsCount(s, u, t);
    case Unlock(u, chosen) => UnlockCounts(s, u, chosen, t);
    case UnlockShared(u, chosen) => UnlockSharedCounts(s, u, chosen, t);
    case Spurious(_) =>
  }

  lemma {:induction false} DepthAppend(w: int, r: int, a: seq<Call>, b: seq<Call>, t: Tid)
    ensures WriteDepth(w, a + b, t) == WriteDepth(WriteDepth(w, a, t), b, t)
    ensures ReadDepth(r, a + b, t) == ReadDepth(ReadDepth(r, a, t), b, t)
    decreases |a|
  {
    if a == [] {
      assert a + b == b;
    } else {
      assert (a + b)[1..] == a[1..] + b;
      var w' := if a[0] == GotWrite(t) then w + 1 else if a[0] == GaveWrite(t) && w > 0 then w - 1 else w;
      var r' := if a[0] == GotRead(t) then r + 1 else if a[0] == GaveRead(t) && r > 0 then r - 1 else r;
      DepthAppend(w', r', a[1..], b, t);
    }
  }

  /** Over every run, the counts the lock keeps for a thread are that thread's unmatched
      acquisitions and depend on nothing any other thread did. */
  lemma {:induction false} HoldsMatchLog(s: State, es: seq<Event>, t: Tid)
    requires Inv(s) && Legal(s, es)
    ensures WriteHoldsOf(After(s, es), t) == WriteDepth(WriteHoldsOf(s, t), Log(s, es), t)
    ensures Holds(After(s, es), t) == ReadDepth(Holds(s, t), Log(s, es), t)
    decreases |es|
  {
    if es != [] {
      var e, s' := es[0], Step(s, es[0]);
      StepCountsHolds(s, e, t);
      StepKeepsInv(s, e);
      HoldsMatchLog(s', es[1..], t);
      DepthAppend(WriteHoldsOf(s, t), Holds(s, t), Observed(s, e), Log(s', es[1..]), t);
    }
  }
}
