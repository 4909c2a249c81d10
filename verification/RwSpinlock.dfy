/** The reader/writer spinlock as a transition system: one 32-bit word, any
    number of threads, and one step for each load, compare-and-swap, fetch_sub
    and store. A weak compare-and-swap may fail although the word matches. */
module RwSpinlock {

  const EXCLUSIVE: nat := 0x8000_0000
  const PENDING: nat := 0x4000_0000
  const MAX_READERS: nat := 0x3FFF_FFFF

  predicate IsExclusive(word: nat) { word / EXCLUSIVE % 2 == 1 }
  predicate IsPending(word: nat) { word / PENDING % 2 == 1 }
  function ReaderBits(word: nat): nat { word % PENDING }
  function WithPending(word: nat): nat { if IsPending(word) then word else word + PENDING }

  /** Where a thread is; st is the word its last load saw. */
  datatype Pc =
    | Idle
    | LockSharedLoad | LockSharedCas(st: nat)
    | TryLockSharedLoad | TryLockSharedCas(st: nat)
    | Reading
    | TryLockLoad | TryLockCas(st: nat)
    | LockLoad | LockCas(st: nat) | PendingCas(st: nat)
    | Writing

  datatype State = State(word: nat, pcs: seq<Pc>)

  predicate InLock(pc: Pc) { pc.LockLoad? || pc.LockCas? || pc.PendingCas? }

  predicate Init(s: State) {
    s.word == 0 && forall i | 0 <= i < |s.pcs| :: s.pcs[i] == Idle
  }

  /** One atomic step of a thread at pc, with the word before and after it. */
  predicate PcStep(pc: Pc, word: nat, pc': Pc, word': nat) {
    match pc
    case Idle => word' == word && pc' in {LockSharedLoad, TryLockSharedLoad, TryLockLoad, LockLoad}
    case LockSharedLoad => word' == word && pc' == if word < MAX_READERS then LockSharedCas(word) else LockSharedLoad
    case LockSharedCas(st) =>
      || (word == st && word' == st + 1 && pc' == Reading)
      || (word' == word && pc' == LockSharedLoad)
    case TryLockSharedLoad => word' == word && pc' == if word < MAX_READERS then TryLockSharedCas(word) else Idle
    case TryLockSharedCas(st) =>
      if word == st then word' == st + 1 && pc' == Reading else word' == word && pc' == Idle
    case Reading => word' == (word + 0xFFFF_FFFF) % 0x1_0000_0000 && pc' == Idle
    case TryLockLoad =>
      word' == word && pc' == if IsExclusive(word) || ReaderBits(word) != 0 then Idle else TryLockCas(word)
    case TryLockCas(st) =>
      if word == st then word' == EXCLUSIVE && pc' == Writing else word' == word && pc' == Idle
    case LockLoad =>
      && word' == word
      && pc' == if IsExclusive(word) then LockLoad
                else if ReaderBits(word) == 0 then LockCas(word)
                else if IsPending(word) then LockLoad
                else PendingCas(word)
    case LockCas(st) =>
      || (word == st && word' == EXCLUSIVE && pc' == Writing)
      || (word' == word && pc' == LockLoad)
    case PendingCas(st) => pc' == LockLoad && (word' == word || (word == st && word' == WithPending(st)))
    case Writing => word' == 0 && pc' == Idle
  }

  predicate Step(s: State, i: nat, s': State) {
    && i < |s.pcs| == |s'.pcs|
    && s'.pcs == s.pcs[i := s'.pcs[i]]
    && PcStep(s.pcs[i], s.word, s'.pcs[i], s'.word)
  }

  ghost predicate Next(s: State, s': State) {
    exists i: nat :: Step(s, i, s')
  }

  /** A finite run: each state follows from the one before by one step of some thread. */
  ghost predicate Run(r: seq<State>) {
    |r| > 0 && forall j: nat | j + 1 < |r| :: Next(r[j], r[j + 1])
  }

  /** The number of threads at Reading, and at Writing. */
  function Readers(pcs: seq<Pc>): nat {
    if pcs == [] then 0 else (if pcs[0] == Reading then 1 else 0) + Readers(pcs[1..])
  }

  function Writers(pcs: seq<Pc>): nat {
    if pcs == [] then 0 else (if pcs[0] == Writing then 1 else 0) + Writers(pcs[1..])
  }

  lemma {:induction false} CountsAfter(pcs: seq<Pc>, i: nat, pc: Pc)
    requires i < |pcs|
    ensures var pcs' := pcs[i := pc];
            && Readers(pcs') + (if pcs[i] == Reading then 1 else 0) == Readers(pcs) + (if pc == Reading then 1 else 0)
            && Writers(pcs') + (if pcs[i] == Writing then 1 else 0) == Writers(pcs) + (if pc == Writing then 1 else 0)
  {
    if i == 0 {
    } else {
      CountsAfter(pcs[1..], i - 1, pc);
      assert pcs[i := pc][1..] == pcs[1..][i - 1 := pc];
    }
  }

  /** Every thread at Reading or Writing is counted. */
  lemma {:induction false} CountsAt(pcs: seq<Pc>, i: nat)
    requires i < |pcs|
    ensures pcs[i] == Reading ==> Readers(pcs) >= 1
    ensures pcs[i] == Writing ==> Writers(pcs) >= 1
  {
    CountsAfter(pcs, i, Idle);
  }

  lemma CountsAtTwo(pcs: seq<Pc>, i: nat, j: nat)
    requires i < |pcs| && j < |pcs| && i != j && pcs[i] == pcs[j] == Writing
    ensures Writers(pcs) >= 2
  {
    CountsAfter(pcs, i, Idle);
    CountsAt(pcs[i := Idle], j);
  }

  lemma {:induction false} NobodyCounted(pcs: seq<Pc>)
    requires forall i | 0 <= i < |pcs| :: pcs[i] != Reading && pcs[i] != Writing
    ensures Readers(pcs) == 0 && Writers(pcs) == 0
  {
    if pcs == [] {
    } else {
      NobodyCounted(pcs[1..]);
    }
  }

  lemma {:induction false} SomebodyCounted(pcs: seq<Pc>) returns (i: nat)
    requires Readers(pcs) + Writers(pcs) > 0
    ensures i < |pcs| && (pcs[i] == Reading || pcs[i] == Writing)
  {
    if pcs[0] == Reading || pcs[0] == Writing {
      i := 0;
    } else {
      var j := SomebodyCounted(pcs[1..]);
      i := j + 1;
    }
  }

  /** What a loaded word still means when the compare-and-swap that uses it runs. */
  predicate LoadOk(pc: Pc) {
    match pc
    case LockSharedCas(st) => st < MAX_READERS
    case TryLockSharedCas(st) => st < MAX_READERS
    case TryLockCas(st) => st == 0 || st == PENDING
    case LockCas(st) => st == 0 || st == PENDING
    case PendingCas(st) => 0 < st <= MAX_READERS
    case _ => true
  }

  /** The word is exactly the exclusive bit while one thread writes and none reads;
      otherwise it is the number of readers, plus the pending bit while some thread is in lock(). */
  ghost predicate Inv(s: State) {
    && (forall i | 0 <= i < |s.pcs| :: LoadOk(s.pcs[i]))
    && if s.word == EXCLUSIVE then Writers(s.pcs) == 1 && Readers(s.pcs) == 0
       else
         && Writers(s.pcs) == 0 && Readers(s.pcs) <= MAX_READERS
         && (s.word == Readers(s.pcs) || (s.word == PENDING + Readers(s.pcs) && SomeInLock(s.pcs)))
  }

  ghost predicate SomeInLock(pcs: seq<Pc>) {
    exists i :: 0 <= i < |pcs| && InLock(pcs[i])
  }

  lemma InitInv(s: State)
    requires Init(s)
    ensures Inv(s)
  {
    NobodyCounted(s.pcs);
  }

  lemma StepInv(s: State, i: nat, s': State)
    requires Inv(s) && Step(s, i, s')
    ensures Inv(s')
  {
    CountsAfter(s.pcs, i, s'.pcs[i]);
    CountsAt(s.pcs, i);
    WordBits(s);
    StepInLock(s, i, s');
    assert LoadOk(s.pcs[i]);
    hide SomeInLock;
    assert LoadOk(s'.pcs[i]);
  }

  /** A thread in lock() stays there until it has the lock. */
  lemma StepInLock(s: State, i: nat, s': State)
    requires Step(s, i, s')
    ensures InLock(s'.pcs[i]) ==> SomeInLock(s'.pcs)
    ensures SomeInLock(s.pcs) ==> SomeInLock(s'.pcs) || (s'.pcs[i] == Writing && s'.word == EXCLUSIVE)
  {
    if InLock(s'.pcs[i]) {
      assert SomeInLock(s'.pcs);
    } else if SomeInLock(s.pcs) {
      var j :| 0 <= j < |s.pcs| && InLock(s.pcs[j]);
      assert j != i ==> InLock(s'.pcs[j]);
    }
  }

  /** What the masks read off the word. */
  lemma WordBits(s: State)
    requires Inv(s)
    ensures s.word == EXCLUSIVE ==> IsExclusive(s.word) && !IsPending(s.word) && ReaderBits(s.word) == 0
    ensures s.word != EXCLUSIVE ==> !IsExclusive(s.word) && ReaderBits(s.word) == Readers(s.pcs)
    ensures IsPending(s.word) <==> s.word != EXCLUSIVE && s.word >= PENDING
  {
  }

  lemma {:induction false} RunInv(r: seq<State>, j: nat)
    requires Run(r) && Inv(r[0]) && j < |r|
    ensures Inv(r[j])
  {
    if j == 0 {
    } else {
      RunInv(r, j - 1);
      assert Next(r[j - 1], r[j - 1 + 1]);
      var i: nat :| Step(r[j - 1], i, r[j]);
      StepInv(r[j - 1], i, r[j]);
    }
  }

  /** In every run from the initial state: never two writers, never a writer beside a reader, and the
      low 30 bits of the word are the number of readers, which never reaches the flag bits. */
  lemma Safety(r: seq<State>, j: nat)
    requires Run(r) && Init(r[0]) && j < |r|
    ensures var s := r[j];
            && (forall a: nat, b: nat | a < |s.pcs| && b < |s.pcs| && a != b ::
                  s.pcs[a] == Writing ==> s.pcs[b] != Writing && s.pcs[b] != Reading)
            && ReaderBits(s.word) == Readers(s.pcs) <= MAX_READERS
            && (IsExclusive(s.word) <==> s.word == EXCLUSIVE)
            && (IsExclusive(s.word) <==> exists a :: 0 <= a < |s.pcs| && s.pcs[a] == Writing)
  {
    InitInv(r[0]);
    RunInv(r, j);
    var s := r[j];
    WordBits(s);
    forall a: nat, b: nat | a < |s.pcs| && b < |s.pcs| && a != b && s.pcs[a] == Writing
      ensures s.pcs[b] != Writing && s.pcs[b] != Reading
    {
      CountsAt(s.pcs, a);
      CountsAt(s.pcs, b);
      if s.pcs[b] == Writing {
        CountsAtTwo(s.pcs, a, b);
      }
    }
    if s.word == EXCLUSIVE {
      var a := SomebodyCounted(s.pcs);
      CountsAt(s.pcs, a);
    }
    forall a | 0 <= a < |s.pcs| && s.pcs[a] == Writing ensures s.word == EXCLUSIVE {
      CountsAt(s.pcs, a);
    }
  }

  /** Releasing loses nobody's hold: unlock's blind store of 0 meets a word that holds no reader and no
      pending bit, and unlock_shared's fetch_sub takes one reader and never borrows from the flags. */
  lemma ReleaseKeepsOthers(s: State, i: nat, s': State)
    requires Inv(s) && Step(s, i, s')
    ensures s.pcs[i] == Writing ==>
            s.word == EXCLUSIVE && Readers(s.pcs) == 0 && Writers(s.pcs) == 1 && Writers(s'.pcs) == 0
    ensures s.pcs[i] == Reading ==>
              && s'.word == s.word - 1 && ReaderBits(s'.word) == ReaderBits(s.word) - 1
              && IsPending(s'.word) == IsPending(s.word) && IsExclusive(s'.word) == IsExclusive(s.word) == false
  {
    CountsAfter(s.pcs, i, s'.pcs[i]);
    CountsAt(s.pcs, i);
    WordBits(s);
  }

  /** While the pending bit is set no step adds a reader; only a thread that becomes the writer clears
      it; and some thread is then inside lock(). */
  lemma PendingStep(s: State, i: nat, s': State)
    requires Inv(s) && Step(s, i, s') && IsPending(s.word)
    ensures Readers(s'.pcs) <= Readers(s.pcs) && SomeInLock(s.pcs)
    ensures !IsPending(s'.word) ==>
            Readers(s.pcs) == 0 && s'.pcs[i] == Writing && s.pcs[i] != Writing && s'.word == EXCLUSIVE
  {
    CountsAfter(s.pcs, i, s'.pcs[i]);
    CountsAt(s.pcs, i);
    WordBits(s);
  }

  /** Over any stretch of a run with the bit set, the readers only leave. */
  lemma {:induction false} PendingDrains(r: seq<State>, j: nat, k: nat)
    requires Run(r) && Inv(r[0]) && j <= k < |r|
    requires forall x | j <= x < k :: IsPending(r[x].word)
    ensures Readers(r[k].pcs) <= Readers(r[j].pcs)
  {
    if j >= k {
    } else {
      PendingDrains(r, j, k - 1);
      RunInv(r, k - 1);
      assert Next(r[k - 1], r[k - 1 + 1]);
      var i: nat :| Step(r[k - 1], i, r[k]);
      PendingStep(r[k - 1], i, r[k]);
    }
  }

  /** The threads that hold the lock. */
  function Holders(s: State): nat {
    Readers(s.pcs) + Writers(s.pcs)
  }

  /** Thread i takes a step of the given kind. */
  function Move(s: State, i: nat, word: nat, pc: Pc): State
    requires i < |s.pcs|
  {
    State(word, s.pcs[i := pc])
  }

  /** With no holder, the word is free for a thread in lock(), which needs a load and a swap. */
  lemma AcquireWhenFree(s: State, i: nat) returns (r: seq<State>)
    requires Inv(s) && Holders(s) == 0 && i < |s.pcs| && s.pcs[i] == LockLoad
    ensures Run(r) && |r| == 3 && r[0] == s && r[2].word == EXCLUSIVE && r[2].pcs == s.pcs[i := Writing]
  {
    WordBits(s);
    var s1 := Move(s, i, s.word, LockCas(s.word));
    var s2 := Move(s1, i, EXCLUSIVE, Writing);
    assert Step(s, i, s1) && Step(s1, i, s2);
    r := [s, s1, s2];
  }

  /** A holder can always release, whatever the other threads are doing. */
  lemma ReleaseOne(s: State) returns (s': State)
    requires Inv(s) && Holders(s) > 0
    ensures Next(s, s') && Inv(s') && Holders(s') == Holders(s) - 1 && |s'.pcs| == |s.pcs|
    ensures forall i | 0 <= i < |s.pcs| && InLock(s.pcs[i]) :: s'.pcs[i] == s.pcs[i]
  {
    var i := SomebodyCounted(s.pcs);
    s' := if s.pcs[i] == Reading then Move(s, i, (s.word + 0xFFFF_FFFF) % 0x1_0000_0000, Idle) else Move(s, i, 0, Idle);
    assert Step(s, i, s');
    StepInv(s, i, s');
    CountsAfter(s.pcs, i, Idle);
  }

  lemma JoinRuns(s: State, r: seq<State>) returns (r': seq<State>)
    requires Run(r) && Next(s, r[0])
    ensures Run(r') && r'[0] == s && |r'| == |r| + 1 && r'[|r|] == r[|r| - 1]
  {
    r' := [s] + r;
    forall j: nat | j + 1 < |r'| ensures Next(r'[j], r'[j + 1]) {
      if j > 0 {
        assert Next(r[j - 1], r[j - 1 + 1]);
      }
    }
  }

  /** The lock cannot get stuck: from every reachable state, the releases of the present holders and the
      steps of a thread inside lock() make a run that ends with that thread as the writer. */
  lemma {:induction false} LockCanBeTaken(s: State, i: nat) returns (r: seq<State>)
    requires Inv(s) && i < |s.pcs| && InLock(s.pcs[i])
    ensures Run(r) && r[0] == s
    ensures var last := r[|r| - 1]; last.word == EXCLUSIVE && |last.pcs| == |s.pcs| && last.pcs[i] == Writing
    decreases Holders(s), if s.pcs[i] == LockLoad then 0 else 1
  {
    var s': State;
    if s.pcs[i] != LockLoad {
      s' := Move(s, i, s.word, LockLoad);
      assert Step(s, i, s');
      StepInv(s, i, s');
      CountsAfter(s.pcs, i, LockLoad);
    } else if Holders(s) == 0 {
      r := AcquireWhenFree(s, i);
      return;
    } else {
      s' := ReleaseOne(s);
    }
    var rest := LockCanBeTaken(s', i);
    r := JoinRuns(s, rest);
  }

  /** A run in which only thread i takes steps. */
  ghost predicate AloneRun(r: seq<State>, i: nat) {
    |r| > 0 && forall j: nat | j + 1 < |r| :: Step(r[j], i, r[j + 1])
  }

  ghost predicate NobodyWrites(pcs: seq<Pc>) {
    forall a | 0 <= a < |pcs| :: pcs[a] != Writing
  }

  /** One more reader may enter: nobody writes, no writer is pending, and the reader count is not at its most. */
  ghost predicate SharedFree(s: State) {
    NobodyWrites(s.pcs) && s.word / 0x4000_0000 % 2 == 0 && Readers(s.pcs) < 0x3FFF_FFFF
  }

  lemma NobodyWritesExact(s: State)
    requires Inv(s)
    ensures NobodyWrites(s.pcs) <==> s.word != EXCLUSIVE
  {
    if s.word == EXCLUSIVE {
      var a := SomebodyCounted(s.pcs);
      CountsAt(s.pcs, a);
    } else {
      forall a | 0 <= a < |s.pcs| ensures s.pcs[a] != Writing {
        CountsAt(s.pcs, a);
      }
    }
  }

  /** The one comparison of the shared operations decides exactly that. */
  lemma SharedFreeExact(s: State)
    requires Inv(s)
    ensures SharedFree(s) <==> s.word < MAX_READERS
  {
    NobodyWritesExact(s);
    WordBits(s);
  }

  /** The step of thread i from s to s' is the only one it can take. */
  ghost predicate OnlyStep(s: State, i: nat, s': State) {
    Step(s, i, s') && forall s2 | Step(s, i, s2) :: s2 == s'
  }

  /** A run of such steps is the only one of its length. */
  lemma {:induction false} OnlyRun(r: seq<State>, r': seq<State>, i: nat, n: nat)
    requires |r| > 0 && forall j: nat | j + 1 < |r| :: OnlyStep(r[j], i, r[j + 1])
    requires AloneRun(r', i) && r'[0] == r[0] && |r'| == |r| && n < |r|
    ensures r'[..n + 1] == r[..n + 1]
  {
    hide Step;
    if n == 0 {
    } else {
      OnlyRun(r, r', i, n - 1);
      assert r'[n - 1] == r'[..n][n - 1] == r[..n][n - 1] == r[n - 1];
      assert Step(r'[n - 1], i, r'[n - 1 + 1]);
      assert OnlyStep(r[n - 1], i, r[n - 1 + 1]);
    }
  }

  lemma OnlyRuns(r: seq<State>, i: nat)
    requires |r| > 0 && forall j: nat | j + 1 < |r| :: OnlyStep(r[j], i, r[j + 1])
    ensures AloneRun(r, i) && forall r' | AloneRun(r', i) && r'[0] == r[0] && |r'| == |r| :: r' == r
  {
    hide Step;
    forall r' | AloneRun(r', i) && r'[0] == r[0] && |r'| == |r| ensures r' == r {
      OnlyRun(r, r', i, |r| - 1);
      assert r'[..|r|] == r' && r[..|r|] == r;
    }
  }

  /** try_lock_shared without interruption: it reads if and only if a reader may enter; else it returns with
      nothing changed. This is the only way it can go. */
  lemma TryLockSharedExact(s: State, i: nat) returns (r: seq<State>)
    requires Inv(s) && i < |s.pcs| && s.pcs[i] == TryLockSharedLoad
    ensures AloneRun(r, i) && r[0] == s
    ensures if SharedFree(s) then |r| == 3 && r[2].word == s.word + 1 && r[2].pcs == s.pcs[i := Reading]
            else |r| == 2 && r[1].word == s.word && r[1].pcs == s.pcs[i := Idle]
    ensures forall r' | AloneRun(r', i) && r'[0] == s && |r'| == |r| :: r' == r
  {
    SharedFreeExact(s);
    r := if SharedFree(s)
      then [s, Move(s, i, s.word, TryLockSharedCas(s.word)), Move(s, i, s.word + 1, Reading)]
      else [s, Move(s, i, s.word, Idle)];
    assert OnlyStep(r[0], i, r[0 + 1]);
    assert |r| == 3 ==> OnlyStep(r[1], i, r[1 + 1]);
    OnlyRuns(r, i);
  }

  /** try_lock without interruption: it writes if and only if nobody holds the lock. */
  lemma TryLockExact(s: State, i: nat) returns (r: seq<State>)
    requires Inv(s) && i < |s.pcs| && s.pcs[i] == TryLockLoad
    ensures AloneRun(r, i) && r[0] == s
    ensures if Holders(s) == 0 then |r| == 3 && r[2].word == 0x8000_0000 && r[2].pcs == s.pcs[i := Writing]
            else |r| == 2 && r[1].word == s.word && r[1].pcs == s.pcs[i := Idle]
    ensures forall r' | AloneRun(r', i) && r'[0] == s && |r'| == |r| :: r' == r
  {
    WordBits(s);
    r := if Holders(s) == 0
      then [s, Move(s, i, s.word, TryLockCas(s.word)), Move(s, i, EXCLUSIVE, Writing)]
      else [s, Move(s, i, s.word, Idle)];
    assert OnlyStep(r[0], i, r[0 + 1]);
    assert |r| == 3 ==> OnlyStep(r[1], i, r[1 + 1]);
    OnlyRuns(r, i);
  }

  /** One round of a thread alone: a load and, unless it loops at once, a swap. */
  ghost predicate Round(s: State, i: nat, s': State) {
    exists s1: State :: Step(s, i, s1) && Step(s1, i, s')
  }

  /** A round of lock_shared when a reader may enter: the thread reads beside the readers there are, or the weak
      swap fails and the round begins again. Both can happen, and nothing else. */
  lemma LockSharedRound(s: State, i: nat, s': State)
    requires Inv(s) && i < |s.pcs| && s.pcs[i] == LockSharedLoad && SharedFree(s)
    ensures Round(s, i, s') <==> s' == State(s.word + 1, s.pcs[i := Reading]) || s' == s
    ensures Readers(s.pcs[i := Reading]) == Readers(s.pcs) + 1
  {
    SharedFreeExact(s);
    CountsAfter(s.pcs, i, Reading);
    var s1 := Move(s, i, s.word, LockSharedCas(s.word));
    assert Step(s, i, s1) && forall s2 :: Step(s, i, s2) ==> s2 == s1;
    if s' == State(s.word + 1, s.pcs[i := Reading]) || s' == s {
      assert Step(s1, i, s');
    }
  }

  /** Otherwise no steps of lock_shared alone change anything. */
  lemma {:induction false} LockSharedWaits(r: seq<State>, i: nat, j: nat)
    requires AloneRun(r, i) && Inv(r[0]) && i < |r[0].pcs| && r[0].pcs[i] == LockSharedLoad && !SharedFree(r[0])
    requires j < |r|
    ensures r[j] == r[0]
  {
    if j == 0 {
    } else {
      LockSharedWaits(r, i, j - 1);
      SharedFreeExact(r[0]);
      assert Step(r[j - 1], i, r[j - 1 + 1]);
    }
  }

  /** A round of lock: with no holder it writes; beside readers it sets the pending bit; or the weak swap fails. */
  lemma LockRound(s: State, i: nat, s': State)
    requires Inv(s) && i < |s.pcs| && s.pcs[i] == LockLoad
    ensures Holders(s) == 0 ==> (Round(s, i, s') <==> s' == State(0x8000_0000, s.pcs[i := Writing]) || s' == s)
    ensures NobodyWrites(s.pcs) && Readers(s.pcs) > 0 && s.word / 0x4000_0000 % 2 == 0 ==>
              (Round(s, i, s') <==> s' == State(s.word + 0x4000_0000, s.pcs) || s' == s)
    ensures !NobodyWrites(s.pcs) || (Readers(s.pcs) > 0 && s.word / 0x4000_0000 % 2 == 1) ==>
              (Round(s, i, s') <==> s' == s)
  {
    WordBits(s);
    NobodyWritesExact(s);
    assert s.pcs[i := LockLoad] == s.pcs;
    var pc := if s.word == EXCLUSIVE then LockLoad
      else if Readers(s.pcs) == 0 then LockCas(s.word)
      else if s.word == Readers(s.pcs) then PendingCas(s.word)
      else LockLoad;
    var s1 := Move(s, i, s.word, pc);
    assert Step(s, i, s1) && forall s2 :: Step(s, i, s2) ==> s2 == s1;
    assert Round(s, i, s') <==> Step(s1, i, s');
  }

  /** While somebody holds the lock, no steps of lock alone take it. */
  lemma {:induction false} LockWaits(r: seq<State>, i: nat, j: nat)
    requires AloneRun(r, i) && Inv(r[0]) && i < |r[0].pcs| && r[0].pcs[i] == LockLoad && Holders(r[0]) > 0
    requires j < |r|
    ensures Inv(r[j]) && |r[j].pcs| == |r[0].pcs| && InLock(r[j].pcs[i]) && !r[j].pcs[i].LockCas?
    ensures r[j].pcs == r[0].pcs[i := r[j].pcs[i]] && Holders(r[j]) == Holders(r[0])
  {
    if j == 0 {
    } else {
      LockWaits(r, i, j - 1);
      assert Step(r[j - 1], i, r[j - 1 + 1]);
      StepInv(r[j - 1], i, r[j]);
      WordBits(r[j - 1]);
      CountsAfter(r[0].pcs, i, r[j].pcs[i]);
    }
  }

  lemma JoinEnd(r: seq<State>, s: State) returns (r': seq<State>)
    requires Run(r) && Next(r[|r| - 1], s)
    ensures Run(r') && r'[0] == r[0] && r'[|r'| - 1] == s
  {
    r' := r + [s];
    forall j: nat | j + 1 < |r'| ensures Next(r'[j], r'[j + 1]) {
      if j + 1 < |r| {
        assert Next(r[j], r[j + 1]);
      }
    }
  }

  /** Any number of readers up to the most that the word can count hold the lock at once, in a run from the start. */
  lemma {:induction false} ReadersShare(threads: nat, n: nat) returns (r: seq<State>)
    requires n <= threads && n <= 0x3FFF_FFFF
    ensures Run(r) && Init(r[0]) && |r[0].pcs| == threads
    ensures var last := r[|r| - 1];
            last.word == n && last.pcs == seq(threads, a => if a < n then Reading else Idle)
  {
    if n == 0 {
      r := [State(0, seq(threads, a => Idle))];
    } else {
      r := ReadersShare(threads, n - 1);
      var s := r[|r| - 1];
      var i := n - 1;
      var s1 := Move(s, i, s.word, LockSharedLoad);
      var s2 := Move(s, i, s.word, LockSharedCas(s.word));
      var s3 := Move(s, i, s.word + 1, Reading);
      assert Step(s, i, s1) && Step(s1, i, s2) && Step(s2, i, s3);
      r := JoinEnd(r, s1);
      r := JoinEnd(r, s2);
      r := JoinEnd(r, s3);
    }
  }
}
