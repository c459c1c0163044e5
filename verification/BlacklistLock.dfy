/**
  The hand-made reader/writer protocol of the blacklists: two counters behind a short lock.
  Any number of processes run the read side (check_against_rule_list) and the write side
  (add_list_to_head, delete_expired); every access to shared memory is a step of its own.
*/
module BlacklistLock {
  import opened Words

  const BL_READONLY_LIST: bv32 := 1
  const BL_DO_EXPIRE: bv32 := 2

  /** Where a process is. Readers take the lock, test count_write, increment count_read (a
      load and a store), traverse, and decrement it the same way. Writers take the lock, claim
      count_write, wait for count_read to fall to zero, mutate, and clear count_write without
      the lock. */
  datatype Pc =
    | Idle
    | RAcquire | RTest | RBackOff | RLoad | RStore(v: int) | RRelease | Reading
    | DAcquire | DLoad | DStore(v: int) | DRelease
    | FreeReading
    | WAcquire | WTest | WBackOff | WClaim | WDrain | WYield | WReacquire | WRelease | Writing | WClear

  datatype State = State(pcs: seq<Pc>, lock: Option<nat>, countRead: int, countWrite: int)

  /** `!flags & BL_READONLY_LIST`: the negation is a logical one, so the read side uses the
      counters only when no flag at all is set. */
  predicate ReadGuard(flags: bv32) {
    (if flags == 0 then 1 else 0) & BL_READONLY_LIST != 0
  }

  /** A list can be written unless it is read-only: additions are refused on read-only lists,
      and expiry only visits lists that expire. */
  predicate Writable(flags: bv32) {
    flags & BL_READONLY_LIST == 0 || flags & BL_DO_EXPIRE != 0
  }

  /** create_bl_head refuses a list that is both read-only and expiring. */
  predicate Creatable(flags: bv32) {
    !(flags & BL_READONLY_LIST != 0 && flags & BL_DO_EXPIRE != 0)
  }

  /** The process owns the lock. */
  predicate Holds(pc: Pc) {
    pc.RTest? || pc.RBackOff? || pc.RLoad? || pc.RStore? || pc.RRelease? || pc.DLoad? || pc.DStore? || pc.DRelease?
    || pc.WTest? || pc.WBackOff? || pc.WClaim? || pc.WDrain? || pc.WYield? || pc.WRelease?
  }

  /** The process is included in count_read. */
  predicate Counted(pc: Pc) {
    pc.RRelease? || pc.Reading? || pc.DAcquire? || pc.DLoad? || pc.DStore?
  }

  /** The process has claimed count_write. */
  predicate Claimed(pc: Pc) {
    pc.WDrain? || pc.WYield? || pc.WReacquire? || pc.WRelease? || pc.Writing? || pc.WClear?
  }

  predicate Traversing(pc: Pc) {
    pc.Reading? || pc.FreeReading?
  }

  function Goto(s: State, p: nat, pc: Pc): State
    requires p < |s.pcs|
  {
    s.(pcs := s.pcs[p := pc])
  }

  /** One step of process p. */
  predicate Step(flags: bv32, s: State, p: nat, s': State) {
    p < |s.pcs| &&
    match s.pcs[p]
    case Idle =>
      || (s' == Goto(s, p, if ReadGuard(flags) then RAcquire else FreeReading))
      || (Writable(flags) && s' == Goto(s, p, WAcquire))
    case RAcquire => s.lock == None && s' == Goto(s.(lock := Some(p)), p, RTest)
    case RTest => s' == Goto(s, p, if s.countWrite != 0 then RBackOff else RLoad)
    case RBackOff => s' == Goto(s.(lock := None), p, RAcquire)
    case RLoad => s' == Goto(s, p, RStore(s.countRead))
    case RStore(v) => s' == Goto(s.(countRead := v + 1), p, RRelease)
    case RRelease => s' == Goto(s.(lock := None), p, Reading)
    case Reading => s' == Goto(s, p, DAcquire)
    case DAcquire => s.lock == None && s' == Goto(s.(lock := Some(p)), p, DLoad)
    case DLoad => s' == Goto(s, p, DStore(s.countRead))
    case DStore(v) => s' == Goto(s.(countRead := v - 1), p, DRelease)
    case DRelease => s' == Goto(s.(lock := None), p, Idle)
    case FreeReading => s' == Goto(s, p, Idle)
    case WAcquire => s.lock == None && s' == Goto(s.(lock := Some(p)), p, WTest)
    case WTest => s' == Goto(s, p, if s.countWrite != 0 then WBackOff else WClaim)
    case WBackOff => s' == Goto(s.(lock := None), p, WAcquire)
    case WClaim => s' == Goto(s.(countWrite := 1), p, WDrain)
    case WDrain => s' == Goto(s, p, if s.countRead != 0 then WYield else WRelease)
    case WYield => s' == Goto(s.(lock := None), p, WReacquire)
    case WReacquire => s.lock == None && s' == Goto(s.(lock := Some(p)), p, WDrain)
    case WRelease => s' == Goto(s.(lock := None), p, Writing)
    case Writing => s' == Goto(s, p, WClear)
    case WClear => s' == Goto(s.(countWrite := 0), p, Idle)
  }

  predicate Initial(s: State) {
    s.lock == None && s.countRead == 0 && s.countWrite == 0 && forall p :: 0 <= p < |s.pcs| ==> s.pcs[p] == Idle
  }

  predicate Next(flags: bv32, s: State, s': State) {
    exists p: nat :: p < |s.pcs| && Step(flags, s, p, s')
  }

  /** A run: any number of processes, any interleaving. */
  predicate Run(flags: bv32, run: seq<State>) {
    && run != [] && Initial(run[0])
    && forall i :: 0 <= i < |run| - 1 ==> Next(flags, run[i], run[i + 1])
  }

  /** No process traverses the list while another mutates it, and at most one mutates it. */
  predicate Exclusive(s: State) {
    forall p, q :: 0 <= p < |s.pcs| && 0 <= q < |s.pcs| && p != q && s.pcs[p].Writing? ==>
      !Traversing(s.pcs[q]) && !s.pcs[q].Writing?
  }

  // --- counting processes ---

  function CountedSet(pcs: seq<Pc>): set<nat> {
    set p: nat | p < |pcs| && Counted(pcs[p])
  }

  lemma CountChange(pcs: seq<Pc>, p: nat, pc: Pc)
    requires p < |pcs|
    ensures |CountedSet(pcs[p := pc])|
         == |CountedSet(pcs)| + (if Counted(pc) then 1 else 0) - (if Counted(pcs[p]) then 1 else 0)
  {
    hide Counted;
    var a, b := CountedSet(pcs), CountedSet(pcs[p := pc]);
    assert forall q: nat :: q != p ==> (q in a <==> q in b);
    if Counted(pc) && !Counted(pcs[p]) {
      assert b == a + {p};
    } else if !Counted(pc) && Counted(pcs[p]) {
      assert a == b + {p};
    } else {
      assert a == b;
    }
  }

  lemma CountZero(pcs: seq<Pc>, p: nat)
    requires p < |pcs| && Counted(pcs[p])
    ensures |CountedSet(pcs)| > 0
  {
    assert p in CountedSet(pcs);
  }

  // --- the invariant ---

  predicate LockInv(s: State) {
    forall p :: 0 <= p < |s.pcs| ==> (s.lock == Some(p) <==> Holds(s.pcs[p]))
  }

  /** count_write is 1 exactly while some process has claimed it, and only one can have. */
  predicate WriteInv(s: State) {
    && (s.countWrite == 0 || s.countWrite == 1)
    && (s.countWrite == 0 <==> forall p :: 0 <= p < |s.pcs| ==> !Claimed(s.pcs[p]))
    && (forall p, q :: 0 <= p < |s.pcs| && 0 <= q < |s.pcs| && Claimed(s.pcs[p]) && Claimed(s.pcs[q]) ==> p == q)
    && (forall p :: 0 <= p < |s.pcs| && (s.pcs[p].WClaim? || s.pcs[p].RLoad? || s.pcs[p].RStore?) ==> s.countWrite == 0)
  }

  /** count_read is the number of counted readers, loaded values are current, and a writer
      past the drain sees it at zero. */
  predicate ReadInv(s: State) {
    && s.countRead == |CountedSet(s.pcs)|
    && (forall p :: 0 <= p < |s.pcs| ==>
          && (s.pcs[p].RStore? || s.pcs[p].DStore? ==> s.pcs[p].v == s.countRead)
          && (s.pcs[p].WRelease? || s.pcs[p].Writing? || s.pcs[p].WClear? ==> s.countRead == 0))
  }

  /** Nobody reads past the counters. */
  predicate GuardInv(s: State) {
    forall p :: 0 <= p < |s.pcs| ==> !s.pcs[p].FreeReading?
  }

  predicate Inv(s: State) {
    LockInv(s) && WriteInv(s) && ReadInv(s) && GuardInv(s)
  }

  lemma InitialInv(s: State)
    requires Initial(s)
    ensures Inv(s)
  {
  }

  lemma StepLock(flags: bv32, s: State, p: nat, s': State)
    requires LockInv(s) && Step(flags, s, p, s')
    ensures LockInv(s')
  {
  }

  lemma StepWrite(flags: bv32, s: State, p: nat, s': State)
    requires LockInv(s) && WriteInv(s) && Step(flags, s, p, s')
    ensures WriteInv(s')
  {
    StepClaim(flags, s, p, s');
    StepOwner(flags, s, p, s');
    StepUnique(flags, s, p, s');
    hide Step;
  }

  /** Whoever claims finds nobody else claiming. */
  lemma StepUnique(flags: bv32, s: State, p: nat, s': State)
    requires LockInv(s) && WriteInv(s) && Step(flags, s, p, s')
    ensures s'.countWrite == 0 || s'.countWrite == 1
    ensures forall q, r :: 0 <= q < |s'.pcs| && 0 <= r < |s'.pcs| && Claimed(s'.pcs[q]) && Claimed(s'.pcs[r]) ==> q == r
  {
    hide ReadGuard, Writable;
    assert forall q :: 0 <= q < |s.pcs| && q != p ==> s'.pcs[q] == s.pcs[q];
    if Claimed(s'.pcs[p]) && !Claimed(s.pcs[p]) {
      assert s.pcs[p].WClaim?;
    }
  }

  /** Nobody claims while somebody has; testers of count_write hold the lock. */
  lemma StepOwner(flags: bv32, s: State, p: nat, s': State)
    requires LockInv(s) && WriteInv(s) && Step(flags, s, p, s')
    ensures forall q :: 0 <= q < |s'.pcs| && (s'.pcs[q].WClaim? || s'.pcs[q].RLoad? || s'.pcs[q].RStore?) ==>
        s'.countWrite == 0
  {
  }

  /** Claiming and clearing count_write go with the process that does it. */
  lemma StepClaim(flags: bv32, s: State, p: nat, s': State)
    requires LockInv(s) && WriteInv(s) && Step(flags, s, p, s')
    ensures s'.countWrite == 0 <==> forall q :: 0 <= q < |s'.pcs| ==> !Claimed(s'.pcs[q])
  {
    hide ReadGuard, Writable;
    assert |s'.pcs| == |s.pcs|;
    if Claimed(s'.pcs[p]) {
      assert s'.countWrite == 1;
    } else if s.pcs[p].WClear? {
      assert forall q :: 0 <= q < |s.pcs| && q != p ==> !Claimed(s.pcs[q]) && s'.pcs[q] == s.pcs[q];
    } else {
      assert !Claimed(s.pcs[p]) && s'.countWrite == s.countWrite;
      assert forall q :: 0 <= q < |s.pcs| ==> (Claimed(s'.pcs[q]) <==> Claimed(s.pcs[q]));
    }
  }

  lemma StepRead(flags: bv32, s: State, p: nat, s': State)
    requires Inv(s) && Step(flags, s, p, s')
    ensures ReadInv(s')
  {
    CountChange(s.pcs, p, s'.pcs[p]);
    assert s'.pcs == s.pcs[p := s'.pcs[p]];
  }

  /** Every step of every process keeps the invariant. */
  lemma StepInv(flags: bv32, s: State, p: nat, s': State)
    requires flags == 0 && Inv(s) && Step(flags, s, p, s')
    ensures Inv(s')
  {
    StepLock(flags, s, p, s');
    StepWrite(flags, s, p, s');
    StepRead(flags, s, p, s');
  }

  lemma InvExclusive(s: State)
    requires Inv(s)
    ensures Exclusive(s)
  {
    forall p, q | 0 <= p < |s.pcs| && 0 <= q < |s.pcs| && p != q && s.pcs[p].Writing?
      ensures !Traversing(s.pcs[q]) && !s.pcs[q].Writing?
    {
      assert Claimed(s.pcs[p]);
      if Counted(s.pcs[q]) { CountZero(s.pcs, q); }
    }
  }

  lemma {:induction false} RunInv(flags: bv32, run: seq<State>, n: nat)
    requires Run(flags, run) && flags == 0 && n < |run|
    ensures Inv(run[n])
    decreases n
  {
    hide Inv, Step;
    if n == 0 {
      InitialInv(run[0]);
    } else {
      RunInv(flags, run, n - 1);
      assert Next(flags, run[n - 1], run[n - 1 + 1]);
      var p: nat :| p < |run[n - 1].pcs| && Step(flags, run[n - 1], p, run[n]);
      StepInv(flags, run[n - 1], p, run[n]);
    }
  }

  /** In every state of every run over a list without flags: readers and writers exclude each
      other, and count_read is the number of readers between their increment and decrement. */
  lemma FlaglessRuns(run: seq<State>, n: nat)
    requires Run(0, run) && n < |run|
    ensures Exclusive(run[n]) && run[n].countRead == |CountedSet(run[n].pcs)|
  {
    RunInv(0, run, n);
    InvExclusive(run[n]);
  }

  // --- exactly which lists are safe ---

  ghost predicate AlwaysExclusive(flags: bv32) {
    forall run: seq<State>, n: nat :: Run(flags, run) && n < |run| ==> Exclusive(run[n])
  }

  predicate Writer(pc: Pc) {
    pc.WAcquire? || pc.WTest? || pc.WBackOff? || pc.WClaim? || Claimed(pc)
  }

  /** Nobody ever writes a read-only list. */
  lemma {:induction false} ReadOnlyRuns(flags: bv32, run: seq<State>, n: nat)
    requires Run(flags, run) && !Writable(flags) && n < |run|
    ensures forall p :: 0 <= p < |run[n].pcs| ==> !Writer(run[n].pcs[p])
    decreases n
  {
    hide Writable, ReadGuard;
    if n > 0 {
      ReadOnlyRuns(flags, run, n - 1);
      assert Next(flags, run[n - 1], run[n - 1 + 1]);
      var p: nat :| p < |run[n - 1].pcs| && Step(flags, run[n - 1], p, run[n]);
    }
  }

  /** A list with some flag, not read-only: a reader walks in on a writer. */
  lemma UnguardedRun(flags: bv32) returns (run: seq<State>)
    requires Writable(flags) && !ReadGuard(flags)
    ensures Run(flags, run) && run != [] && !Exclusive(run[|run| - 1])
  {
    hide Run;
    run := WriterRun(flags);
    var s := State([FreeReading, Writing], None, 0, 1);
    run := RunStep(flags, run, 0, s);
    assert s.pcs[1].Writing? && Traversing(s.pcs[0]);
  }

  /** The second of two processes gets to write. */
  lemma WriterRun(flags: bv32) returns (run: seq<State>)
    requires Writable(flags)
    ensures Run(flags, run) && run != [] && run[|run| - 1] == State([Idle, Writing], None, 0, 1)
  {
    hide Run, ReadGuard;
    run := ClaimRun(flags);
    run := RunStep(flags, run, 1, State([Idle, WDrain], Some(1), 0, 1));
    run := RunStep(flags, run, 1, State([Idle, WRelease], Some(1), 0, 1));
    run := RunStep(flags, run, 1, State([Idle, Writing], None, 0, 1));
  }

  lemma ClaimRun(flags: bv32) returns (run: seq<State>)
    requires Writable(flags)
    ensures Run(flags, run) && run != [] && run[|run| - 1] == State([Idle, WClaim], Some(1), 0, 0)
  {
    hide Run, ReadGuard;
    var s := State([Idle, Idle], None, 0, 0);
    RunStart(flags, s);
    run := RunStep(flags, [s], 1, State([Idle, WAcquire], None, 0, 0));
    run := RunStep(flags, run, 1, State([Idle, WTest], Some(1), 0, 0));
    run := RunStep(flags, run, 1, State([Idle, WClaim], Some(1), 0, 0));
  }

  lemma RunStart(flags: bv32, s: State)
    requires Initial(s)
    ensures Run(flags, [s])
  {
  }

  lemma RunStep(flags: bv32, run: seq<State>, p: nat, s: State) returns (longer: seq<State>)
    requires Run(flags, run) && run != [] && Step(flags, run[|run| - 1], p, s)
    ensures Run(flags, longer) && longer != [] && longer[|longer| - 1] == s
  {
    hide Step;
    longer := run + [s];
    assert p < |run[|run| - 1].pcs| by { StepInRange(flags, run[|run| - 1], p, s); }
    forall i | 0 <= i < |longer| - 1
      ensures Next(flags, longer[i], longer[i + 1])
    {
      if i < |run| - 1 {
        assert longer[i] == run[i] && longer[i + 1] == run[i + 1];
      } else {
        assert longer[i] == run[|run| - 1] && longer[i + 1] == s;
      }
    }
  }

  lemma StepInRange(flags: bv32, s: State, p: nat, s': State)
    requires Step(flags, s, p, s')
    ensures p < |s.pcs|
  {
  }

  lemma GuardsByFlags(flags: bv32)
    requires Creatable(flags)
    ensures ReadGuard(flags) <==> flags == 0
    ensures Writable(flags) <==> flags & BL_READONLY_LIST == 0
  {
  }

  /** Readers and writers of a list exclude each other in every run exactly when the list has
      no flags or is read-only; in particular not when it expires. */
  lemma ExclusionByFlags(flags: bv32)
    requires Creatable(flags)
    ensures AlwaysExclusive(flags) <==> flags == 0 || flags & BL_READONLY_LIST != 0
  {
    GuardsByFlags(flags);
    hide Writable, ReadGuard, Run, Inv;
    if flags == 0 {
      forall run: seq<State>, n: nat | Run(flags, run) && n < |run|
        ensures Exclusive(run[n])
      {
        FlaglessRuns(run, n);
      }
    } else if flags & BL_READONLY_LIST != 0 {
      forall run: seq<State>, n: nat | Run(flags, run) && n < |run|
        ensures Exclusive(run[n])
      {
        ReadOnlyRuns(flags, run, n);
        assert forall p :: 0 <= p < |run[n].pcs| && run[n].pcs[p].Writing? ==> Writer(run[n].pcs[p]);
      }
    } else {
      var run := UnguardedRun(flags);
      assert Run(flags, run) && |run| - 1 < |run|;
    }
  }
}
