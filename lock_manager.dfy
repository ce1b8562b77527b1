/**
 * Page-level two-phase lock tables: shared (read) locks held by sets of
 * transactions, exclusive (write) locks held by one transaction, and the
 * reverse index from a transaction to the pages it has locked.
 *
 * The value-level functions below give the effect of each operation on the
 * three tables; the class LockManager updates its maps in place and is proved
 * to agree with them.
 */
module Locking {
  import opened Common

  datatype LockTables = LockTables(
    readLocks: map<PageId, set<TransactionId>>,
    writeLocks: map<PageId, TransactionId>,
    tidLocks: map<TransactionId, set<PageId>>)

  const NoLocks := LockTables(map[], map[], map[])

  /** `tid` holds a shared or an exclusive lock on `pid`. */
  predicate Holds(s: LockTables, tid: TransactionId, pid: PageId) {
    || (pid in s.readLocks && tid in s.readLocks[pid])
    || (pid in s.writeLocks && s.writeLocks[pid] == tid)
  }

  /** No page is both read-locked and write-locked, and no read-lock entry is empty. */
  predicate Exclusive(s: LockTables) {
    forall pid :: pid in s.readLocks ==> pid !in s.writeLocks && s.readLocks[pid] != {}
  }

  /** Every lock held is recorded under its holder in tidLocks, and no tidLocks entry is empty. */
  ghost predicate Recorded(s: LockTables) {
    && (forall tid, pid :: Holds(s, tid, pid) ==> tid in s.tidLocks && pid in s.tidLocks[tid])
    && (forall tid :: tid in s.tidLocks ==> s.tidLocks[tid] != {})
  }

  ghost predicate Inv(s: LockTables) {
    Exclusive(s) && Recorded(s)
  }

  /** Only entries for `pid` differ between two lock tables (as seen by Holds). */
  ghost predicate SameElsewhere(s: LockTables, r: LockTables, pid: PageId) {
    forall q, t :: q != pid ==> (Holds(r, t, q) <==> Holds(s, t, q))
  }

  function ReadersOf(s: LockTables, pid: PageId): set<TransactionId> {
    if pid in s.readLocks then s.readLocks[pid] else {}
  }

  function PagesOf(s: LockTables, tid: TransactionId): set<PageId> {
    if tid in s.tidLocks then s.tidLocks[tid] else {}
  }

  /** `newLock`: record a fresh lock of kind `perm` for `tid` on `pid`. */
  function Granted(s: LockTables, tid: TransactionId, pid: PageId, perm: Permission): (r: LockTables)
    ensures Holds(r, tid, pid)
    ensures perm == ReadWrite ==> pid in r.writeLocks && r.writeLocks[pid] == tid && r.readLocks == s.readLocks
    ensures perm == ReadOnly ==> pid in r.readLocks && r.readLocks[pid] == ReadersOf(s, pid) + {tid}
                                 && r.readLocks - {pid} == s.readLocks - {pid} && r.writeLocks == s.writeLocks
    ensures tid in r.tidLocks && r.tidLocks[tid] == PagesOf(s, tid) + {pid}
    ensures r.tidLocks - {tid} == s.tidLocks - {tid}
    ensures SameElsewhere(s, r, pid)
  {
    var tl := s.tidLocks[tid := PagesOf(s, tid) + {pid}];
    match perm
    case ReadOnly => LockTables(s.readLocks[pid := ReadersOf(s, pid) + {tid}], s.writeLocks, tl)
    case ReadWrite => LockTables(s.readLocks, s.writeLocks[pid := tid], tl)
  }

  /** tidLocks entries only lose `pid`, and an entry disappears only if it held nothing but `pid`. */
  ghost predicate TidLocksShrunk(old_: map<TransactionId, set<PageId>>, new_: map<TransactionId, set<PageId>>, pid: PageId) {
    && (forall t :: t in new_ ==> t in old_ && (new_[t] == old_[t] || new_[t] == old_[t] - {pid}))
    && (forall t :: t in old_ && t !in new_ ==> old_[t] <= {pid})
  }

  lemma TidLocksShrunkTrans(a: map<TransactionId, set<PageId>>, b: map<TransactionId, set<PageId>>,
                            c: map<TransactionId, set<PageId>>, pid: PageId)
    requires TidLocksShrunk(a, b, pid) && TidLocksShrunk(b, c, pid)
    ensures TidLocksShrunk(a, c, pid)
  {
    forall t | t in a && t !in c ensures a[t] <= {pid} {
      if t in b {
        assert b[t] <= {pid};
        assert a[t] <= b[t] + {pid};
      }
    }
  }

  /**
   * `releasePage(tid, pid)`: drop tid's read lock, drop ANY write lock on pid
   * (whoever holds it), and forget pid under tid only once pid has no lock left.
   */
  function Released(s: LockTables, tid: TransactionId, pid: PageId): (r: LockTables)
    ensures !Holds(r, tid, pid) && pid !in r.writeLocks
    ensures r.writeLocks == s.writeLocks - {pid}
    ensures r.readLocks - {pid} == s.readLocks - {pid}
    ensures pid in r.readLocks <==> ReadersOf(s, pid) - {tid} != {}
    ensures pid in r.readLocks ==> r.readLocks[pid] == s.readLocks[pid] - {tid}
  {
    var rl := if pid in s.readLocks then DropMember(s.readLocks, pid, tid) else s.readLocks;
    var tl := if pid !in rl && tid in s.tidLocks then DropMember(s.tidLocks, tid, pid) else s.tidLocks;
    LockTables(rl, s.writeLocks - {pid}, tl)
  }

  /** Remove `x` from the set stored under `k`, dropping the entry once it is empty. */
  function DropMember<K, X>(m: map<K, set<X>>, k: K, x: X): (r: map<K, set<X>>)
    requires k in m
    ensures r - {k} == m - {k}
    ensures k in r <==> m[k] - {x} != {}
    ensures k in r ==> r[k] == m[k] - {x}
  {
    var rest := m[k] - {x};
    if rest == {} then m - {k} else m[k := rest]
  }

  /**
   * What `releasePage` does to tidLocks: only tid's entry changes, it loses pid
   * only when pid has no lock left, and it disappears when it becomes empty.
   */
  lemma ReleasedTidLocks(s: LockTables, tid: TransactionId, pid: PageId)
    ensures var r := Released(s, tid, pid);
      && r.tidLocks - {tid} == s.tidLocks - {tid}
      && (pid in r.readLocks ==> r.tidLocks == s.tidLocks)
      && (pid !in r.readLocks && tid in s.tidLocks ==>
            (tid in r.tidLocks <==> s.tidLocks[tid] - {pid} != {}) &&
            (tid in r.tidLocks ==> r.tidLocks[tid] == s.tidLocks[tid] - {pid}))
  {
  }

  /** `releasePage` leaves every other page's locks alone and only shrinks tidLocks by pid. */
  lemma ReleasedFrame(s: LockTables, tid: TransactionId, pid: PageId)
    ensures TidLocksShrunk(s.tidLocks, Released(s, tid, pid).tidLocks, pid)
    ensures SameElsewhere(s, Released(s, tid, pid), pid)
  {
    ReleasedTidLocks(s, tid, pid);
  }

  lemma SoleReader(r: set<TransactionId>, tid: TransactionId)
    requires tid in r && |r| == 1
    ensures r == {tid}
  {
    assert |r - {tid}| == 0;
    assert r - {tid} == {};
  }

  /** `acquireReadLock`: the grant decision and the resulting tables. */
  function ReadAttempt(s: LockTables, tid: TransactionId, pid: PageId): (r: (bool, LockTables))
    ensures r.0 <==> Holds(s, tid, pid) || pid !in s.writeLocks
    ensures Holds(s, tid, pid) ==> r.1 == s
    ensures !r.0 ==> r.1 == s
    ensures r.0 ==> Holds(r.1, tid, pid)
    ensures r.0 && !Holds(s, tid, pid) ==>
              && pid in r.1.readLocks && r.1.readLocks[pid] == ReadersOf(s, pid) + {tid}
              && r.1.readLocks - {pid} == s.readLocks - {pid}
              && r.1.writeLocks == s.writeLocks
              && tid in r.1.tidLocks && r.1.tidLocks[tid] == PagesOf(s, tid) + {pid}
              && r.1.tidLocks - {tid} == s.tidLocks - {tid}
    ensures SameElsewhere(s, r.1, pid)
  {
    if pid in s.readLocks && tid in s.readLocks[pid] then (true, s)
    else if pid in s.writeLocks then (s.writeLocks[pid] == tid, s)
    else (true, Granted(s, tid, pid, ReadOnly))
  }

  /** `acquireWriteLock`: the grant decision (with in-place upgrade of a sole reader) and the resulting tables. */
  function WriteAttempt(s: LockTables, tid: TransactionId, pid: PageId): (r: (bool, LockTables))
    ensures !r.0 ==> r.1 == s
    ensures r.0 ==> pid in r.1.writeLocks && r.1.writeLocks[pid] == tid
    ensures r.0 && Exclusive(s) ==> pid !in r.1.readLocks
    ensures pid !in s.writeLocks && pid in s.readLocks && s.readLocks[pid] == {tid} ==>
              r.0 && pid !in r.1.readLocks && r.1.writeLocks[pid] == tid
    ensures pid in s.writeLocks && s.writeLocks[pid] == tid ==> r == (true, s)
    ensures r.0 && Recorded(s) ==> tid in r.1.tidLocks && pid in r.1.tidLocks[tid]
    ensures r.0 && !(pid in s.writeLocks && s.writeLocks[pid] == tid) ==>
              tid in r.1.tidLocks && r.1.tidLocks[tid] == PagesOf(s, tid) + {pid}
    ensures SameElsewhere(s, r.1, pid)
  {
    if pid in s.writeLocks then (assert s.writeLocks[pid] == tid ==> Holds(s, tid, pid); (s.writeLocks[pid] == tid, s))
    else if pid !in s.readLocks then (true, Granted(s, tid, pid, ReadWrite))
    else if tid in s.readLocks[pid] && |s.readLocks[pid]| == 1 then
      SoleReader(s.readLocks[pid], tid);
      ReleasedFrame(s, tid, pid);
      (true, Granted(Released(s, tid, pid), tid, pid, ReadWrite))
    else
      (false, s)
  }

  lemma GrantedKeepsRecorded(s: LockTables, tid: TransactionId, pid: PageId, perm: Permission)
    requires Recorded(s)
    ensures Recorded(Granted(s, tid, pid, perm))
  {
    var r := Granted(s, tid, pid, perm);
    forall t, q | Holds(r, t, q) ensures t in r.tidLocks && q in r.tidLocks[t] {
      if !(t == tid && q == pid) {
        assert Holds(s, t, q);
      }
    }
  }

  lemma ReleasedKeepsInv(s: LockTables, tid: TransactionId, pid: PageId)
    requires Inv(s)
    ensures Inv(Released(s, tid, pid))
  {
    var r := Released(s, tid, pid);
    ReleasedTidLocks(s, tid, pid);
    forall t, q | Holds(r, t, q) ensures t in r.tidLocks && q in r.tidLocks[t] {
      if q == pid {
        assert t != tid && t in r.readLocks[pid];
        assert Holds(s, t, pid);
        assert r.tidLocks == s.tidLocks;
      } else {
        assert Holds(s, t, q);
        assert q in s.tidLocks[t];
        if t == tid && pid !in r.readLocks {
          assert q in s.tidLocks[tid] - {pid};
          assert r.tidLocks[tid] == s.tidLocks[tid] - {pid};
        } else {
          assert r.tidLocks[t] == s.tidLocks[t];
        }
      }
    }
  }

  /** A read attempt keeps the lock-table invariant. */
  lemma ReadAttemptKeepsInv(s: LockTables, tid: TransactionId, pid: PageId)
    requires Inv(s)
    ensures Inv(ReadAttempt(s, tid, pid).1)
  {
    if !(pid in s.readLocks && tid in s.readLocks[pid]) && pid !in s.writeLocks {
      GrantedKeepsRecorded(s, tid, pid, ReadOnly);
    }
  }

  /** A write attempt keeps the lock-table invariant (including the upgrade path). */
  lemma WriteAttemptKeepsInv(s: LockTables, tid: TransactionId, pid: PageId)
    requires Inv(s)
    ensures Inv(WriteAttempt(s, tid, pid).1)
  {
    if pid !in s.writeLocks {
      if pid !in s.readLocks {
        GrantedKeepsRecorded(s, tid, pid, ReadWrite);
      } else if tid in s.readLocks[pid] && |s.readLocks[pid]| == 1 {
        ReleasedKeepsInv(s, tid, pid);
        GrantedKeepsRecorded(Released(s, tid, pid), tid, pid, ReadWrite);
      }
    }
  }

  /**
   * Exclusive access: a write request is granted exactly when no other
   * transaction holds any lock on the page.
   */
  lemma WriteAttemptGrantedIff(s: LockTables, tid: TransactionId, pid: PageId)
    requires Exclusive(s)
    ensures WriteAttempt(s, tid, pid).0 <==> forall t :: t != tid ==> !Holds(s, t, pid)
  {
    if pid in s.writeLocks {
      var w := s.writeLocks[pid];
      assert Holds(s, w, pid);
    } else if pid in s.readLocks {
      var R := s.readLocks[pid];
      if tid in R && |R| == 1 {
        SoleReader(R, tid);
      } else if tid in R {
        assert R != {tid};
        var t :| t in R && t != tid;
        assert Holds(s, t, pid);
      } else {
        var t :| t in R;
        assert Holds(s, t, pid);
      }
    }
  }

  /** The outcome of `acquireLock`: a grant, or the abort its deadlock policy raises. */
  datatype LockOutcome = Acquired | TransactionAborted | AbortOthers

  function AcquireOutcome(s: LockTables, tid: TransactionId, pid: PageId, perm: Permission, selfAbort: bool): (r: (LockOutcome, LockTables))
    ensures r.0 == Acquired ==> Holds(r.1, tid, pid)
    ensures r.0 == Acquired && perm == ReadWrite ==> pid in r.1.writeLocks && r.1.writeLocks[pid] == tid
    ensures r.0 != Acquired ==> r.1 == s && (r.0 == TransactionAborted <==> selfAbort)
  {
    var (ok, s') := if perm == ReadOnly then ReadAttempt(s, tid, pid) else WriteAttempt(s, tid, pid);
    if ok then (Acquired, s')
    else if selfAbort then (TransactionAborted, s)
    else (AbortOthers, s)
  }

  /** Asking again for a lock just acquired is granted and changes nothing. */
  lemma ReacquireIsNoOp(s: LockTables, tid: TransactionId, pid: PageId, perm: Permission, selfAbort: bool)
    requires AcquireOutcome(s, tid, pid, perm, selfAbort).0 == Acquired
    ensures var s' := AcquireOutcome(s, tid, pid, perm, selfAbort).1;
            AcquireOutcome(s', tid, pid, perm, selfAbort) == (Acquired, s')
  {
  }

  /** Pages of `P` that lose every lock once tid's locks on all of `P` are released. */
  function FreedBy(s: LockTables, tid: TransactionId, P: set<PageId>): set<PageId> {
    set q | q in P && ReadersOf(s, q) - {tid} == {}
  }

  /** The tables after `releasePage(tid, q)` for every q in `P`, in any order. */
  function ReleasedAll(s: LockTables, tid: TransactionId, P: set<PageId>): (r: LockTables)
    ensures forall q :: q in P ==> !Holds(r, tid, q)
    ensures forall q, t :: q !in P ==> (Holds(r, t, q) <==> Holds(s, t, q))
    ensures forall q, t :: Holds(r, t, q) ==> Holds(s, t, q)
    ensures Exclusive(s) ==> Exclusive(r)
  {
    var rl := map q | q in s.readLocks && (q !in P || s.readLocks[q] - {tid} != {}) ::
                if q in P then s.readLocks[q] - {tid} else s.readLocks[q];
    var wl := map q | q in s.writeLocks && q !in P :: s.writeLocks[q];
    var tl :=
      if tid in s.tidLocks then
        (var rest := s.tidLocks[tid] - FreedBy(s, tid, P);
         if rest == {} then s.tidLocks - {tid} else s.tidLocks[tid := rest])
      else s.tidLocks;
    LockTables(rl, wl, tl)
  }

  lemma {:induction false} ReleasedAllEmpty(s: LockTables, tid: TransactionId)
    requires Recorded(s)
    ensures ReleasedAll(s, tid, {}) == s
  {
    var r := ReleasedAll(s, tid, {});
    assert r.readLocks == s.readLocks;
    assert r.writeLocks == s.writeLocks;
    if tid in s.tidLocks {
      assert FreedBy(s, tid, {}) == {};
      assert s.tidLocks[tid] - FreedBy(s, tid, {}) == s.tidLocks[tid];
      assert r.tidLocks == s.tidLocks;
    }
  }

  lemma {:induction false} ReleasedAllStepLocks(s: LockTables, tid: TransactionId, P: set<PageId>, p: PageId)
    requires p !in P
    ensures Released(ReleasedAll(s, tid, P), tid, p).readLocks == ReleasedAll(s, tid, P + {p}).readLocks
    ensures Released(ReleasedAll(s, tid, P), tid, p).writeLocks == ReleasedAll(s, tid, P + {p}).writeLocks
  {
    var a := ReleasedAll(s, tid, P);
    var b := Released(a, tid, p);
    var c := ReleasedAll(s, tid, P + {p});
    assert ReadersOf(a, p) == ReadersOf(s, p);
    forall q | q in b.readLocks ensures q in c.readLocks && b.readLocks[q] == c.readLocks[q] {
      if q != p { assert q in a.readLocks; }
    }
    forall q | q in c.readLocks ensures q in b.readLocks {
      if q != p { assert q in a.readLocks; }
    }
  }

  lemma {:induction false} ReleasedAllStepTids(s: LockTables, tid: TransactionId, P: set<PageId>, p: PageId)
    requires p !in P
    ensures Released(ReleasedAll(s, tid, P), tid, p).tidLocks == ReleasedAll(s, tid, P + {p}).tidLocks
  {
    var a := ReleasedAll(s, tid, P);
    var b := Released(a, tid, p);
    var c := ReleasedAll(s, tid, P + {p});
    ReleasedTidLocks(a, tid, p);
    assert ReadersOf(a, p) == ReadersOf(s, p);
    var freed := ReadersOf(s, p) - {tid} == {};
    assert freed <==> p !in b.readLocks;
    assert FreedBy(s, tid, P + {p}) == FreedBy(s, tid, P) + (if freed then {p} else {});
    if tid in s.tidLocks {
      var rest := s.tidLocks[tid] - FreedBy(s, tid, P);
      if rest == {} {
        assert tid !in a.tidLocks;
        assert s.tidLocks[tid] - FreedBy(s, tid, P + {p}) == {};
        assert b.tidLocks == a.tidLocks == s.tidLocks - {tid};
      } else if freed {
        assert a.tidLocks[tid] == rest;
        assert s.tidLocks[tid] - FreedBy(s, tid, P + {p}) == rest - {p};
      } else {
        assert a.tidLocks[tid] == rest;
        assert s.tidLocks[tid] - FreedBy(s, tid, P + {p}) == rest;
        assert b.tidLocks == a.tidLocks;
      }
    }
  }

  /** Releasing one more page extends a bulk release by that page. */
  lemma ReleasedAllStep(s: LockTables, tid: TransactionId, P: set<PageId>, p: PageId)
    requires p !in P
    ensures Released(ReleasedAll(s, tid, P), tid, p) == ReleasedAll(s, tid, P + {p})
  {
    ReleasedAllStepLocks(s, tid, P, p);
    ReleasedAllStepTids(s, tid, P, p);
  }

  /** `transactionComplete(tid)` of the lock manager: release every page recorded under tid. */
  function Completed(s: LockTables, tid: TransactionId): (r: LockTables)
    ensures forall q :: q in PagesOf(s, tid) ==> !Holds(r, tid, q)
    ensures forall q, t :: Holds(r, t, q) ==> Holds(s, t, q)
    ensures tid !in s.tidLocks ==> r == s
  {
    if tid in s.tidLocks && s.tidLocks[tid] != {} then ReleasedAll(s, tid, s.tidLocks[tid]) else s
  }

  /**
   * Under the invariant, a completed transaction holds no lock at all, and the
   * invariant survives. (Its tidLocks entry may keep pages that other readers
   * still hold: releasePage forgets a page only once it is wholly unlocked.)
   */
  lemma {:induction false} CompletedReleasesEverything(s: LockTables, tid: TransactionId)
    requires Inv(s)
    ensures forall q :: !Holds(Completed(s, tid), tid, q)
    ensures Inv(Completed(s, tid))
  {
    var r := Completed(s, tid);
    if tid in s.tidLocks {
      var P := s.tidLocks[tid];
      forall q ensures !Holds(r, tid, q) {
        if q !in P { assert !Holds(s, tid, q); }
      }
      forall q, t | Holds(r, t, q) ensures t in r.tidLocks && q in r.tidLocks[t] {
        assert Holds(s, t, q);
      }
      assert Recorded(r);
    }
  }

  /** Completing the transactions of `ts` one after another. */
  function CompletedAll(s: LockTables, ts: seq<TransactionId>): (r: LockTables)
    ensures forall q, t :: Holds(r, t, q) ==> Holds(s, t, q)
  {
    if ts == [] then s else Completed(CompletedAll(s, ts[..|ts| - 1]), ts[|ts| - 1])
  }

  /** Under the invariant, every transaction completed in turn ends up holding no lock, and the invariant survives. */
  lemma {:induction false} CompletedAllReleases(s: LockTables, ts: seq<TransactionId>)
    requires Inv(s)
    ensures Inv(CompletedAll(s, ts))
    ensures forall t, q | t in ts :: !Holds(CompletedAll(s, ts), t, q)
  {
    if ts != [] {
      var n := |ts| - 1;
      var prev := CompletedAll(s, ts[..n]);
      CompletedAllReleases(s, ts[..n]);
      CompletedReleasesEverything(prev, ts[n]);
      forall t, q | t in ts ensures !Holds(CompletedAll(s, ts), t, q) {
        if t != ts[n] {
          assert t in ts[..n];
          assert !Holds(prev, t, q);
        }
      }
    }
  }

  /** The lock manager: three maps updated in place. */
  class LockManager {
    var readLocks: map<PageId, set<TransactionId>>
    var writeLocks: map<PageId, TransactionId>
    var tidLocks: map<TransactionId, set<PageId>>

    function State(): LockTables
      reads this
    {
      LockTables(readLocks, writeLocks, tidLocks)
    }

    ghost predicate Valid()
      reads this
    {
      Inv(State())
    }

    constructor ()
      ensures Valid() && State() == NoLocks
    {
      readLocks, writeLocks, tidLocks := map[], map[], map[];
    }

    /** `holdsLock`: tid holds pid when it is among the readers or is the writer. */
    function HoldsLock(tid: TransactionId, pid: PageId): (b: bool)
      reads this
      ensures b <==> Holds(State(), tid, pid)
    {
      if pid in readLocks && tid in readLocks[pid] then true
      else pid in writeLocks && writeLocks[pid] == tid
    }

    method NewLock(tid: TransactionId, pid: PageId, perm: Permission)
      modifies this
      ensures State() == Granted(old(State()), tid, pid, perm)
    {
      match perm {
        case ReadOnly =>
          var readers := if pid in readLocks then readLocks[pid] else {};
          readLocks := readLocks[pid := readers + {tid}];
        case ReadWrite =>
          writeLocks := writeLocks[pid := tid];
      }
      var held := if tid in tidLocks then tidLocks[tid] else {};
      tidLocks := tidLocks[tid := held + {pid}];
    }

    method AcquireReadLock(tid: TransactionId, pid: PageId) returns (granted: bool)
      requires Valid()
      modifies this
      ensures Valid()
      ensures (granted, State()) == ReadAttempt(old(State()), tid, pid)
    {
      ReadAttemptKeepsInv(State(), tid, pid);
      if pid in readLocks && tid in readLocks[pid] {
        return true;
      }
      if pid in writeLocks {
        return writeLocks[pid] == tid;
      }
      NewLock(tid, pid, ReadOnly);
      granted := true;
    }

    method AcquireWriteLock(tid: TransactionId, pid: PageId) returns (granted: bool)
      requires Valid()
      modifies this
      ensures Valid()
      ensures (granted, State()) == WriteAttempt(old(State()), tid, pid)
    {
      WriteAttemptKeepsInv(State(), tid, pid);
      if pid in writeLocks {
        return writeLocks[pid] == tid;
      }
      if pid !in readLocks {
        NewLock(tid, pid, ReadWrite);
        return true;
      }
      if tid in readLocks[pid] && |readLocks[pid]| == 1 {
        ReleasedKeepsInv(State(), tid, pid);
        ReleasePage(tid, pid);
        NewLock(tid, pid, ReadWrite);
        return true;
      }
      granted := false;
    }

    /**
     * `acquireLock` reduced to one grant attempt: the polling loop re-tries the
     * same check against unchanged tables, so in a sequential model a refusal
     * ends in the abort that `selfAbort` selects.
     */
    method AcquireLock(tid: TransactionId, pid: PageId, perm: Permission, selfAbort: bool) returns (outcome: LockOutcome)
      requires Valid()
      modifies this
      ensures Valid()
      ensures (outcome, State()) == AcquireOutcome(old(State()), tid, pid, perm, selfAbort)
    {
      var granted;
      match perm {
        case ReadOnly => granted := AcquireReadLock(tid, pid);
        case ReadWrite => granted := AcquireWriteLock(tid, pid);
      }
      if granted {
        outcome := Acquired;
      } else if selfAbort {
        outcome := TransactionAborted;
      } else {
        outcome := AbortOthers;
      }
    }

    method ReleasePage(tid: TransactionId, pid: PageId)
      modifies this
      ensures State() == Released(old(State()), tid, pid)
    {
      ghost var target := Released(State(), tid, pid);
      if pid in readLocks {
        var readers := readLocks[pid] - {tid};
        if readers == {} {
          readLocks := readLocks - {pid};
        } else {
          readLocks := readLocks[pid := readers];
        }
      }
      assert readLocks == target.readLocks;
      if pid in writeLocks {
        writeLocks := writeLocks - {pid};
      }
      if pid !in readLocks && pid !in writeLocks && tid in tidLocks {
        var held := tidLocks[tid] - {pid};
        if held == {} {
          tidLocks := tidLocks - {tid};
        } else {
          tidLocks := tidLocks[tid := held];
        }
      }
    }

    /**
     * `releaseDiscardPage`: release pid for each of its readers (over a snapshot
     * of the reader set), then for its writer. Afterwards nobody holds pid.
     */
    method ReleaseDiscardPage(pid: PageId)
      requires Valid()
      modifies this
      ensures Valid()
      ensures forall t :: !HoldsLock(t, pid)
      ensures readLocks == old(readLocks) - {pid}
      ensures writeLocks == old(writeLocks) - {pid}
      ensures TidLocksShrunk(old(tidLocks), tidLocks, pid)
    {
      if pid in readLocks {
        var rest := readLocks[pid];
        while rest != {}
          invariant Valid()
          invariant pid in readLocks <==> rest != {}
          invariant pid in readLocks ==> readLocks[pid] == rest
          invariant readLocks - {pid} == old(readLocks) - {pid}
          invariant writeLocks == old(writeLocks) && pid !in writeLocks
          invariant TidLocksShrunk(old(tidLocks), tidLocks, pid)
          decreases rest
        {
          var t :| t in rest;
          ghost var before := tidLocks;
          ReleasedKeepsInv(State(), t, pid);
          ReleasedFrame(State(), t, pid);
          ReleasePage(t, pid);
          TidLocksShrunkTrans(old(tidLocks), before, tidLocks, pid);
          rest := rest - {t};
        }
      }
      if pid in writeLocks {
        ghost var before := tidLocks;
        ReleasedKeepsInv(State(), writeLocks[pid], pid);
        ReleasedFrame(State(), writeLocks[pid], pid);
        ReleasePage(writeLocks[pid], pid);
        TidLocksShrunkTrans(old(tidLocks), before, tidLocks, pid);
      }
    }

    /**
     * `transactionComplete(tid)`: release every page recorded under tid, over a
     * snapshot of the recorded set; nothing happens when none is recorded.
     */
    method TransactionComplete(tid: TransactionId)
      requires Valid()
      modifies this
      ensures Valid()
      ensures State() == Completed(old(State()), tid)
      ensures forall q :: !HoldsLock(tid, q)
    {
      CompletedReleasesEverything(State(), tid);
      if tid in tidLocks && tidLocks[tid] != {} {
        var pids := tidLocks[tid];
        var rest := pids;
        ghost var done: set<PageId> := {};
        ReleasedAllEmpty(old(State()), tid);
        while rest != {}
          invariant rest <= pids && done == pids - rest
          invariant State() == ReleasedAll(old(State()), tid, done)
          decreases rest
        {
          var p :| p in rest;
          ReleasedAllStep(old(State()), tid, done, p);
          ReleasePage(tid, p);
          rest := rest - {p};
          done := done + {p};
        }
        assert done == pids;
      }
    }
  }
}
