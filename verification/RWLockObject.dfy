/** ReentrantRWLock as the program has it: fields changed under the mutex. Each method is
    one section run under that mutex and takes exactly one step of RWLockModel. The four
    sets stand for the queues inside the two condition variables. */
module RWLockObject {
  import opened Common
  import opened RWLockModel

  class ReentrantRWLock {
    var writeLocked: bool
    var writerThread: Option<Tid>
    var writeHoldCount: int
    var readHolds: map<Tid, int>
    var waitingWriters: int
    var waitingReaders: int
    var inLock: set<Tid>
    var wokenWriters: set<Tid>
    var inShared: set<Tid>
    var wokenReaders: set<Tid>

    ghost function S(): State
      reads this
    {
      State(writeLocked, writerThread, writeHoldCount, readHolds, waitingWriters, waitingReaders,
            inLock, wokenWriters, inShared, wokenReaders)
    }

    constructor ()
      ensures S() == INITIAL && Inv(S())
    {
      writeLocked, writerThread, writeHoldCount, readHolds := false, None, 0, map[];
      waitingWriters, waitingReaders := 0, 0;
      inLock, wokenWriters, inShared, wokenReaders := {}, {}, {}, {};
    }

    method CanReadLock(t: Tid) returns (r: bool)
      ensures r == CanRead(S(), t)
    {
      if writeLocked && writerThread == Some(t) {
        return true;
      }
      if !writeLocked && waitingWriters == 0 {
        return true;
      }
      if !writeLocked && t in readHolds {
        return true;
      }
      r := false;
    }

    method CanWriteLock(t: Tid) returns (r: bool)
      ensures r == CanWrite(S(), t)
    {
      if writeLocked && writerThread == Some(t) {
        return true;
      }
      if writeLocked {
        return false;
      }
      var totalReads := 0;
      var left := readHolds;
      while left.Keys != {}
        invariant totalReads + Total(left) == Total(readHolds)
        decreases |left.Keys|
      {
        Inhabited(left.Keys);
        var u :| u in left.Keys;
        TotalWithout(left, u);
        totalReads := totalReads + left[u];
        assert (left - {u}).Keys == left.Keys - {u};
        left := left - {u};
      }
      r := totalReads == 0;
    }

    /** lock(): the test made on entry and after each wake-up. A thread that fails it sleeps. */
    method TestForWrite(t: Tid) returns (acquired: bool)
      modifies this
      ensures S() == TestWrite(old(S()), t) && acquired == CanWrite(old(S()), t)
    {
      acquired := CanWriteLock(t);
      wokenWriters := wokenWriters - {t};
      if acquired {
        inLock := inLock - {t};
        waitingWriters := waitingWriters - 1;
        writeLocked := true;
        writerThread := Some(t);
        writeHoldCount := writeHoldCount + 1;
      }
    }

    method Lock(t: Tid) returns (acquired: bool)
      requires Enabled(S(), EnterWrite(t))
      modifies this
      ensures S() == Step(old(S()), EnterWrite(t)) && acquired == (t !in inLock)
      ensures old(Inv(S())) ==> Inv(S())
    {
      ghost var before := S();
      waitingWriters := waitingWriters + 1;
      inLock := inLock + {t};
      acquired := TestForWrite(t);
      if Inv(before) {
        StepKeepsInv(before, EnterWrite(t));
      }
    }

    method LockRetest(t: Tid) returns (acquired: bool)
      requires Enabled(S(), RetestWrite(t))
      modifies this
      ensures S() == Step(old(S()), RetestWrite(t)) && acquired == CanWrite(old(S()), t)
      ensures old(Inv(S())) ==> Inv(S())
    {
      ghost var before := S();
      acquired := TestForWrite(t);
      if Inv(before) {
        StepKeepsInv(before, RetestWrite(t));
      }
    }

    method TestForRead(t: Tid) returns (acquired: bool)
      modifies this
      ensures S() == TestRead(old(S()), t) && acquired == CanRead(old(S()), t)
    {
      acquired := CanReadLock(t);
      wokenReaders := wokenReaders - {t};
      if acquired {
        inShared := inShared - {t};
        waitingReaders := waitingReaders - 1;
        if t !in readHolds {
          readHolds := readHolds[t := 0];
        }
        readHolds := readHolds[t := readHolds[t] + 1];
        assert readHolds == old(readHolds)[t := Holds(old(S()), t) + 1];
      }
    }

    method LockShared(t: Tid) returns (acquired: bool)
      requires Enabled(S(), EnterRead(t))
      modifies this
      ensures S() == Step(old(S()), EnterRead(t)) && acquired == (t !in inShared)
      ensures old(Inv(S())) ==> Inv(S())
    {
      ghost var before := S();
      waitingReaders := waitingReaders + 1;
      inShared := inShared + {t};
      acquired := TestForRead(t);
      if Inv(before) {
        StepKeepsInv(before, EnterRead(t));
      }
    }

    method LockSharedRetest(t: Tid) returns (acquired: bool)
      requires Enabled(S(), RetestRead(t))
      modifies this
      ensures S() == Step(old(S()), RetestRead(t)) && acquired == CanRead(old(S()), t)
      ensures old(Inv(S())) ==> Inv(S())
    {
      ghost var before := S();
      acquired := TestForRead(t);
      if Inv(before) {
        StepKeepsInv(before, RetestRead(t));
      }
    }

    /** notify_one on the writers' condition variable: some sleeper, if there is one. */
    method NotifyOne() returns (chosen: Tid)
      modifies this`wokenWriters
      ensures Choosable(old(S()), chosen) && S() == NotifyOneWriter(old(S()), chosen)
    {
      chosen := 0;
      if inLock - wokenWriters != {} {
        Inhabited(inLock - wokenWriters);
        chosen :| chosen in inLock - wokenWriters;
        wokenWriters := wokenWriters + {chosen};
      }
    }

    method Unlock(t: Tid) returns (ghost chosen: Tid)
      requires t !in Blocked(S())
      modifies this
      ensures Enabled(old(S()), Event.Unlock(t, chosen)) && S() == Step(old(S()), Event.Unlock(t, chosen))
      ensures old(Inv(S())) ==> Inv(S())
    {
      ghost var before := S();
      chosen := SomeSleeper(before);
      if !writeLocked || writerThread != Some(t) {
      } else {
        writeHoldCount := writeHoldCount - 1;
        if writeHoldCount > 0 {
        } else {
          writeLocked := false;
          writerThread := None;
          if waitingWriters > 0 {
            chosen := NotifyOne();
          } else if waitingReaders > 0 {
            wokenReaders := inShared;
          }
        }
      }
      if Inv(before) {
        StepKeepsInv(before, Event.Unlock(t, chosen));
      }
    }

    /** One read hold less; the last one leaves the map. */
    method DropMine(t: Tid)
      requires t in readHolds
      modifies this`readHolds
      ensures readHolds == DropHold(old(readHolds), t)
    {
      if readHolds[t] - 1 <= 0 {
        readHolds := readHolds - {t};
      } else {
        readHolds := readHolds[t := readHolds[t] - 1];
      }
    }

    /** unlock_shared(), without the invariant. */
    method LeaveShared(t: Tid) returns (ghost chosen: Tid)
      modifies this`readHolds, this`wokenWriters, this`wokenReaders
      ensures Choosable(old(S()), chosen) && S() == ReleaseRead(old(S()), t, chosen)
    {
      chosen := SomeSleeper(S());
      if t in readHolds {
        DropMine(t);
        if waitingWriters > 0 && readHolds.Keys == {} {
          chosen := NotifyOne();
        } else if waitingReaders > 0 && waitingWriters == 0 {
          wokenReaders := inShared;
        }
      }
    }

    method UnlockShared(t: Tid) returns (ghost chosen: Tid)
      requires t !in Blocked(S())
      modifies this
      ensures Enabled(old(S()), Event.UnlockShared(t, chosen)) && S() == Step(old(S()), Event.UnlockShared(t, chosen))
      ensures old(Inv(S())) ==> Inv(S())
    {
      ghost var before := S();
      chosen := LeaveShared(t);
      if Inv(before) {
        StepKeepsInv(before, Event.UnlockShared(t, chosen));
      }
    }
  }
}
