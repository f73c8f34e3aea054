/**
 * The dining philosophers of user/tests/test20/philosophe.c over the token semaphores of
 * user/tests/lib/xlock.c. A semaphore is the number of messages waiting in its queue: xwait takes
 * one and blocks while there is none, xsignal adds one and asserts that fewer than two are there.
 * A step is one xwait, the work of one critical section, one xsignal of the mutex, or one wait loop.
 */
module Philosophers {
  import opened Arithmetic

  const ROUNDS: nat := 6

  /** The seven critical sections of a philosopher's program, in order. */
  datatype Section = Taking | MarkEating | ClearEating | Putting | MarkThinking | ClearThinking | Leaving

  datatype Phase =
    | Entering(section: Section)  // about to xwait(mutex_philo)
    | Inside(section: Section)    // holds the mutex, work still to do
    | Exiting(section: Section)   // work done, about to xsignal(mutex_philo)
    | AwaitingForks               // about to xwait(s[i])
    | Eating
    | Thinking
    | Finished

  /** The arrays that the critical sections of prendre_fourchettes and poser_fourchettes update. */
  datatype Forks = Forks(f: seq<bool>, bloque: seq<bool>, s: seq<nat>)

  datatype Philosopher = Philosopher(phase: Phase, round: nat)

  datatype State = State(forks: Forks, etat: seq<char>, mutex: nat, philos: seq<Philosopher>)

  function Next(i: nat, n: nat): (j: nat)
    requires i < n
    ensures j < n && j == (i + 1) % n
  {
    DivModUnique(i + 1, n, if i + 1 == n then 1 else 0, if i + 1 == n then 0 else i + 1);
    if i + 1 == n then 0 else i + 1
  }

  function Prev(i: nat, n: nat): (j: nat)
    requires i < n
    ensures j < n && j == (i + n - 1) % n
  {
    DivModUnique(i + n - 1, n, if i == 0 then 0 else 1, if i == 0 then n - 1 else i - 1);
    if i == 0 then n - 1 else i - 1
  }

  predicate Sized(k: Forks, n: nat) {
    |k.f| == |k.bloque| == |k.s| == n
  }

  // ---------------------------------------------------------------- the two critical sections on forks

  /** test(): both forks of philosopher i are free. */
  predicate Test(k: Forks, i: nat, n: nat)
    requires i < n && Sized(k, n)
  {
    !k.f[i] && !k.f[Next(i, n)]
  }

  function Signal(k: Forks, i: nat): Forks
    requires i < |k.s|
  {
    k.(s := k.s[i := k.s[i] + 1])
  }

  function TakeForks(k: Forks, i: nat, n: nat): (r: Forks)
    requires i < n && Sized(k, n)
    ensures Sized(r, n)
  {
    if Test(k, i, n) then Signal(k.(f := k.f[i := true][Next(i, n) := true]), i)
    else k.(bloque := k.bloque[i := true])
  }

  /** Hands fork j to a blocked philosopher p whose other fork, o, is free; else lays it down. */
  function Release(k: Forks, j: nat, p: nat, o: nat, n: nat): (r: Forks)
    requires j < n && p < n && o < n && Sized(k, n)
    ensures Sized(r, n)
  {
    if k.bloque[p] && !k.f[o] then Signal(Forks(k.f[o := true], k.bloque[p := false], k.s), p)
    else k.(f := k.f[j := false])
  }

  function PutForks(k: Forks, i: nat, n: nat): (r: Forks)
    requires i < n && Sized(k, n)
    ensures Sized(r, n)
  {
    var left, right := Prev(i, n), Next(i, n);
    Release(Release(k, i, left, left, n), right, right, Next(right, n), n)
  }

  /** The shared segment, updated in place by the philosophers. */
  class SharedForks {
    const f: array<bool>
    const bloque: array<bool>
    const s: array<nat>

    ghost predicate Valid()
      reads this
    {
      f.Length == bloque.Length == s.Length && f != bloque
    }

    ghost function Contents(): Forks
      reads this, f, bloque, s
    {
      Forks(f[..], bloque[..], s[..])
    }

    /** shm_create and the initialisation loop of test20.c */
    constructor (n: nat)
      ensures Valid() && fresh(f) && fresh(bloque) && fresh(s)
      ensures Contents() == InitialForks(n)
    {
      f := new bool[n](_ => false);
      bloque := new bool[n](_ => false);
      s := new nat[n](_ => 0);
      new;
      assert f[..] == InitialForks(n).f && bloque[..] == InitialForks(n).bloque && s[..] == InitialForks(n).s;
    }

    /** The critical section of prendre_fourchettes. */
    method TakeSection(i: nat)
      requires Valid() && i < f.Length
      modifies f, bloque, s
      ensures Contents() == TakeForks(old(Contents()), i, f.Length)
    {
      var n := f.Length;
      if !f[i] && !f[(i + 1) % n] {
        f[i] := true;
        f[(i + 1) % n] := true;
        s[i] := s[i] + 1;
      } else {
        bloque[i] := true;
      }
      ghost var r := TakeForks(old(Contents()), i, n);
      assert f[..] == r.f && bloque[..] == r.bloque && s[..] == r.s;
    }

    /** The critical section of poser_fourchettes. */
    method PutSection(i: nat)
      requires Valid() && i < f.Length
      modifies f, bloque, s
      ensures Contents() == PutForks(old(Contents()), i, f.Length)
    {
      var n := f.Length;
      var left := (i + n - 1) % n;
      ghost var k := Contents();
      assert left == Prev(i, n);
      if bloque[left] && !f[left] {
        f[left] := true;
        bloque[left] := false;
        s[left] := s[left] + 1;
      } else {
        f[i] := false;
      }
      ghost var k' := Release(k, i, left, left, n);
      assert f[..] == k'.f && bloque[..] == k'.bloque && s[..] == k'.s;
      var right := (i + 1) % n;
      var other := (i + 2) % n;
      TwoAhead(i, n);
      if bloque[right] && !f[other] {
        f[other] := true;
        bloque[right] := false;
        s[right] := s[right] + 1;
      } else {
        f[right] := false;
      }
      ghost var r := Release(k', right, right, other, n);
      assert f[..] == r.f && bloque[..] == r.bloque && s[..] == r.s;
    }
  }

  lemma TwoAhead(i: nat, n: nat)
    requires i < n
    ensures Next(Next(i, n), n) == (i + 2) % n
  {
    if i + 2 >= n {
      assert n > 1 ==> (i + 2) % n == i + 2 - n;
    }
  }

  // ---------------------------------------------------------------- the step system

  function InitialForks(n: nat): Forks {
    Forks(seq(n, _ => false), seq(n, _ => false), seq(n, _ => 0))
  }

  /** test20.c: forks free, nobody blocked, the mutex signalled once. */
  function Initial(n: nat): State {
    State(InitialForks(n), seq(n, _ => '-'), 1, seq(n, _ => Philosopher(Entering(Taking), 0)))
  }

  predicate WellSized(st: State, n: nat) {
    Sized(st.forks, n) && |st.etat| == |st.philos| == n
  }

  predicate Enabled(st: State, i: nat, n: nat)
    requires i < n && WellSized(st, n)
  {
    match st.philos[i].phase
    case Entering(_) => st.mutex > 0
    case AwaitingForks => st.forks.s[i] > 0
    case Finished => false
    case _ => true
  }

  function AfterSection(p: Philosopher, c: Section): Philosopher {
    match c
    case Taking => p.(phase := AwaitingForks)
    case MarkEating => p.(phase := Eating)
    case ClearEating => p.(phase := Entering(Putting))
    case Putting => p.(phase := Entering(MarkThinking))
    case MarkThinking => p.(phase := Thinking)
    case ClearThinking =>
      if p.round + 1 < ROUNDS then Philosopher(Entering(Taking), p.round + 1)
      else p.(phase := Entering(Leaving))
    case Leaving => p.(phase := Finished)
  }

  function Work(st: State, i: nat, n: nat, c: Section): State
    requires i < n && WellSized(st, n)
  {
    match c
    case Taking => st.(forks := TakeForks(st.forks, i, n))
    case Putting => st.(forks := PutForks(st.forks, i, n))
    case MarkEating => st.(etat := st.etat[i := 'm'])
    case MarkThinking => st.(etat := st.etat[i := 'p'])
    case _ => st.(etat := st.etat[i := '-'])
  }

  /** Where a philosopher's program goes next. */
  function Advance(p: Philosopher): Philosopher {
    match p.phase
    case Entering(c) => p.(phase := Inside(c))
    case Inside(c) => p.(phase := Exiting(c))
    case Exiting(c) => AfterSection(p, c)
    case AwaitingForks => p.(phase := Entering(MarkEating))
    case Eating => p.(phase := Entering(ClearEating))
    case Thinking => p.(phase := Entering(ClearThinking))
    case Finished => p
  }

  /** What its step does to the shared state. */
  function Effect(st: State, i: nat, n: nat): (r: State)
    requires i < n && WellSized(st, n) && Enabled(st, i, n)
    ensures WellSized(r, n) && r.philos == st.philos
  {
    match st.philos[i].phase
    case Entering(_) => st.(mutex := st.mutex - 1)
    case Inside(c) => Work(st, i, n, c)
    case Exiting(_) => st.(mutex := st.mutex + 1)
    case AwaitingForks => st.(forks := st.forks.(s := st.forks.s[i := st.forks.s[i] - 1]))
    case _ => st
  }

  function Step(st: State, i: nat, n: nat): (r: State)
    requires i < n && WellSized(st, n) && Enabled(st, i, n)
    ensures WellSized(r, n)
  {
    Effect(st, i, n).(philos := st.philos[i := Advance(st.philos[i])])
  }

  // ---------------------------------------------------------------- the invariant

  predicate Holds(p: Philosopher) {
    p.phase.Inside? || p.phase.Exiting?
  }

  predicate Waiting(p: Philosopher) {
    p.phase == Exiting(Taking) || p.phase.AwaitingForks?
  }

  /**
   * The philosopher has its forks: from the grant, made by itself or by a neighbour, until
   * poser_fourchettes has done its work. While it waits, it has them unless it is recorded as blocked.
   */
  predicate HasForks(p: Philosopher, blocked: bool) {
    match p.phase
    case Entering(c) => c.MarkEating? || c.ClearEating? || c.Putting?
    case Inside(c) => c.MarkEating? || c.ClearEating? || c.Putting?
    case Exiting(c) => c.MarkEating? || c.ClearEating? || (c.Taking? && !blocked)
    case AwaitingForks => !blocked
    case Eating => true
    case _ => false
  }

  ghost function Granted(st: State, n: nat): (g: seq<bool>)
    requires WellSized(st, n)
    ensures |g| == n && forall j :: 0 <= j < n ==> g[j] == HasForks(st.philos[j], st.forks.bloque[j])
  {
    seq(n, j requires 0 <= j < n => HasForks(st.philos[j], st.forks.bloque[j]))
  }

  /** A fork is marked taken exactly when one of its two neighbours has been granted it, never both. */
  ghost predicate Accounted(f: seq<bool>, g: seq<bool>, n: nat)
    requires |f| == |g| == n
  {
    && (forall j :: 0 <= j < n ==> (f[j] <==> g[j] || g[Prev(j, n)]))
    && (forall j :: 0 <= j < n ==> !(g[j] && g[Prev(j, n)]))
  }

  /** Whoever is recorded as blocked has a neighbour that holds one of its forks and will wake it. */
  ghost predicate BlockedBeside(b: seq<bool>, g: seq<bool>, n: nat)
    requires |b| == |g| == n
  {
    forall j :: 0 <= j < n && b[j] ==> !g[j] && (g[Prev(j, n)] || g[Next(j, n)])
  }

  ghost predicate ForksInv(st: State, n: nat)
    requires WellSized(st, n)
  {
    && Accounted(st.forks.f, Granted(st, n), n)
    && BlockedBeside(st.forks.bloque, Granted(st, n), n)
  }

  /** A private semaphore holds its one token from the grant until its philosopher goes on to eat. */
  predicate TokenOf(p: Philosopher, blocked: bool, s: nat) {
    (blocked ==> Waiting(p)) && s == if Waiting(p) && !blocked then 1 else 0
  }

  ghost predicate Tokens(st: State, n: nat)
    requires WellSized(st, n)
  {
    forall i :: 0 <= i < n ==> TokenOf(st.philos[i], st.forks.bloque[i], st.forks.s[i])
  }

  /** The letter shown for a philosopher is 'm' from the moment it is marked as eating until it is cleared. */
  predicate Displayed(p: Philosopher, etat: char) {
    var eating := p.phase == Exiting(MarkEating) || p.phase.Eating?
                  || p.phase == Entering(ClearEating) || p.phase == Inside(ClearEating);
    var thinking := p.phase == Exiting(MarkThinking) || p.phase.Thinking?
                    || p.phase == Entering(ClearThinking) || p.phase == Inside(ClearThinking);
    etat == if eating then 'm' else if thinking then 'p' else '-'
  }

  ghost predicate Display(st: State, n: nat)
    requires WellSized(st, n)
  {
    forall i :: 0 <= i < n ==> Displayed(st.philos[i], st.etat[i])
  }

  ghost predicate MutualExclusion(st: State, n: nat)
    requires WellSized(st, n)
  {
    && st.mutex <= 1
    && (forall i, j :: 0 <= i < j < n ==> !(Holds(st.philos[i]) && Holds(st.philos[j])))
    && (st.mutex == 0 <==> exists i :: 0 <= i < n && Holds(st.philos[i]))
  }

  ghost predicate Inv(st: State, n: nat) {
    && n >= 3 && WellSized(st, n)
    && (forall i :: 0 <= i < n ==> st.philos[i].round < ROUNDS)
    && ForksInv(st, n) && Tokens(st, n) && MutualExclusion(st, n) && Display(st, n)
  }

  lemma InitialInv(n: nat)
    requires n >= 3
    ensures Inv(Initial(n), n)
  {
    InitialDisplay(n);
    InitialForksInv(n);
  }

  lemma InitialDisplay(n: nat)
    ensures WellSized(Initial(n), n) && Display(Initial(n), n) && MutualExclusion(Initial(n), n)
  {
    forall i | 0 <= i < n
      ensures Displayed(Initial(n).philos[i], Initial(n).etat[i]) && !Holds(Initial(n).philos[i])
    {
      assert Initial(n).philos[i] == Philosopher(Entering(Taking), 0);
    }
  }

  lemma InitialForksInv(n: nat)
    requires n >= 3
    ensures WellSized(Initial(n), n) && ForksInv(Initial(n), n) && Tokens(Initial(n), n)
  {
  }

  lemma StepInv(st: State, i: nat, n: nat)
    requires Inv(st, n) && i < n && Enabled(st, i, n)
    ensures Inv(Step(st, i, n), n)
  {
    MutexStep(st, i, n);
    TokensStep(st, i, n);
    DisplayStep(st, i, n);
    if st.philos[i].phase == Inside(Taking) {
      TakeStep(st, i, n);
    } else if st.philos[i].phase == Inside(Putting) {
      PutStep(st, i, n);
    } else {
      QuietStep(st, i, n);
    }
  }

  lemma MutexStep(st: State, i: nat, n: nat)
    requires Inv(st, n) && i < n && Enabled(st, i, n)
    ensures MutualExclusion(Step(st, i, n), n)
    ensures forall j :: 0 <= j < n ==> Step(st, i, n).philos[j].round < ROUNDS
  {
    var r := Step(st, i, n);
    assert forall j :: 0 <= j < n && j != i ==> r.philos[j] == st.philos[j];
    match st.philos[i].phase {
      case Entering(_) => assert Holds(r.philos[i]);
      case Inside(_) => assert Holds(st.philos[i]) && Holds(r.philos[i]);
      case Exiting(_) => assert Holds(st.philos[i]) && !Holds(r.philos[i]);
      case AwaitingForks => assert !Holds(st.philos[i]) && !Holds(r.philos[i]);
      case Eating => assert !Holds(st.philos[i]) && !Holds(r.philos[i]);
      case Thinking => assert !Holds(st.philos[i]) && !Holds(r.philos[i]);
    }
    if r.mutex == 0 && !st.philos[i].phase.Entering? {
      var j :| 0 <= j < n && Holds(st.philos[j]);
      assert Holds(r.philos[j]);
    }
  }

  /** A step that leaves forks and grants alone. */
  lemma QuietStep(st: State, i: nat, n: nat)
    requires Inv(st, n) && i < n && Enabled(st, i, n)
    requires st.philos[i].phase != Inside(Taking) && st.philos[i].phase != Inside(Putting)
    ensures ForksInv(Step(st, i, n), n)
  {
    var r := Step(st, i, n);
    assert r.forks.f == st.forks.f && r.forks.bloque == st.forks.bloque;
    assert TokenOf(st.philos[i], st.forks.bloque[i], st.forks.s[i]);
    assert Granted(r, n) == Granted(st, n);
  }

  lemma PrevNext(i: nat, n: nat)
    requires i < n
    ensures Prev(Next(i, n), n) == i && Next(Prev(i, n), n) == i
    ensures n >= 2 ==> Next(i, n) != i && Prev(i, n) != i
    ensures n >= 3 ==> Next(i, n) != Prev(i, n) && Next(Next(i, n), n) != i && Prev(Prev(i, n), n) != i
  {
  }

  /** Taking both free forks, or being blocked because a neighbour has one. */
  lemma TakeForksAccounted(k: Forks, g: seq<bool>, i: nat, n: nat)
    requires n >= 3 && i < n && Sized(k, n) && |g| == n && !g[i]
    requires Accounted(k.f, g, n) && BlockedBeside(k.bloque, g, n)
    ensures var r, g' := TakeForks(k, i, n), g[i := Test(k, i, n)];
      Accounted(r.f, g', n) && BlockedBeside(r.bloque, g', n)
  {
    var r, g' := TakeForks(k, i, n), g[i := Test(k, i, n)];
    PrevNext(i, n);
    forall j | 0 <= j < n
      ensures r.f[j] <==> g'[j] || g'[Prev(j, n)]
      ensures !(g'[j] && g'[Prev(j, n)])
    {
      PrevNext(j, n);
    }
    forall j | 0 <= j < n && r.bloque[j]
      ensures !g'[j] && (g'[Prev(j, n)] || g'[Next(j, n)])
    {
      PrevNext(j, n);
    }
  }

  lemma TakeStep(st: State, i: nat, n: nat)
    requires Inv(st, n) && i < n && st.philos[i].phase == Inside(Taking)
    ensures ForksInv(Step(st, i, n), n)
  {
    var r := Step(st, i, n);
    assert TokenOf(st.philos[i], st.forks.bloque[i], st.forks.s[i]);
    TakeForksAccounted(st.forks, Granted(st, n), i, n);
    assert Granted(r, n) == Granted(st, n)[i := Test(st.forks, i, n)];
  }

  /** Whether poser_fourchettes hands forks to the left and to the right neighbour. */
  ghost predicate GivesLeft(k: Forks, i: nat, n: nat)
    requires i < n && Sized(k, n)
  {
    k.bloque[Prev(i, n)] && !k.f[Prev(i, n)]
  }

  ghost predicate GivesRight(k: Forks, i: nat, n: nat)
    requires i < n && Sized(k, n)
  {
    var left, right := Prev(i, n), Next(i, n);
    var k' := Release(k, i, left, left, n);
    k'.bloque[right] && !k'.f[Next(right, n)]
  }

  /** What poser_fourchettes leaves in cell j, also when three philosophers share the far fork. */
  lemma PutForksShape(k: Forks, i: nat, n: nat, j: nat)
    requires n >= 3 && i < n && j < n && Sized(k, n) && k.f[i] && k.f[Next(i, n)]
    ensures var left, right := Prev(i, n), Next(i, n);
      var toLeft, toRight := GivesLeft(k, i, n), GivesRight(k, i, n);
      var r := PutForks(k, i, n);
      && (r.f[j] <==>
          if j == i then toLeft else if j == right then toRight
          else k.f[j] || (j == left && toLeft) || (j == Next(right, n) && toRight))
      && (r.bloque[j] <==> k.bloque[j] && !(j == left && toLeft) && !(j == right && toRight))
      && r.s[j] == k.s[j] + if (j == left && toLeft) || (j == right && toRight) then 1 else 0
  {
    PrevNext(i, n);
    PrevNext(Next(i, n), n);
  }

  ghost predicate GrantAfterPut(k: Forks, was: bool, i: nat, n: nat, j: nat)
    requires i < n && Sized(k, n)
  {
    if j == i then false
    else if j == Prev(i, n) then GivesLeft(k, i, n)
    else if j == Next(i, n) then GivesRight(k, i, n)
    else was
  }

  ghost predicate GrantsAfterPut(k: Forks, g: seq<bool>, g': seq<bool>, i: nat, n: nat)
    requires i < n && Sized(k, n) && |g| == |g'| == n
  {
    forall j :: 0 <= j < n ==> g'[j] == GrantAfterPut(k, g[j], i, n, j)
  }

  /** Laying down two forks or handing them over: each fork still has one owner or none. */
  lemma ForkAccounted(k: Forks, g: seq<bool>, g': seq<bool>, i: nat, n: nat, j: nat)
    requires n >= 3 && i < n && j < n && Sized(k, n) && |g| == |g'| == n && g[i]
    requires Accounted(k.f, g, n) && GrantsAfterPut(k, g, g', i, n)
    ensures (PutForks(k, i, n).f[j] <==> g'[j] || g'[Prev(j, n)]) && !(g'[j] && g'[Prev(j, n)])
  {
    var toLeft, toRight := GivesLeft(k, i, n), GivesRight(k, i, n);
    var left, right := Prev(i, n), Next(i, n);
    var far := Next(right, n);
    PrevNext(i, n);
    PrevNext(left, n);
    PrevNext(right, n);
    PrevNext(j, n);
    assert !g[left] && !g[right] && k.f[i] && k.f[right];
    PutForksShape(k, i, n, j);
    assert toRight ==> !k.f[far] && (far == left ==> !toLeft);
    assert k.f[j] <==> g[j] || g[Prev(j, n)];
  }

  /** Whoever stays blocked still has a granted neighbour to wake it. */
  lemma StillBlockedBeside(k: Forks, g: seq<bool>, g': seq<bool>, i: nat, n: nat, j: nat)
    requires n >= 3 && i < n && j < n && Sized(k, n) && |g| == |g'| == n && g[i]
    requires Accounted(k.f, g, n) && BlockedBeside(k.bloque, g, n) && GrantsAfterPut(k, g, g', i, n)
    requires PutForks(k, i, n).bloque[j]
    ensures !g'[j] && (g'[Prev(j, n)] || g'[Next(j, n)])
  {
    var left, right := Prev(i, n), Next(i, n);
    PrevNext(i, n);
    PrevNext(left, n);
    PrevNext(right, n);
    PrevNext(j, n);
    assert k.f[i] && k.f[right] && !g[left] && !g[right];
    PutForksShape(k, i, n, j);
    assert !g[j] && (g[Prev(j, n)] || g[Next(j, n)]);
    if j == left {
      assert k.f[left] && g[Prev(left, n)];
    } else if j == right {
      assert g[Next(right, n)] || (Next(right, n) == left && GivesLeft(k, i, n));
    }
  }

  lemma PutStep(st: State, i: nat, n: nat)
    requires Inv(st, n) && i < n && st.philos[i].phase == Inside(Putting)
    ensures ForksInv(Step(st, i, n), n)
  {
    var r, k := Step(st, i, n), st.forks;
    var g, g' := Granted(st, n), Granted(r, n);
    assert r.forks == PutForks(k, i, n);
    GrantsFollow(st, i, n);
    forall j | 0 <= j < n
      ensures (r.forks.f[j] <==> g'[j] || g'[Prev(j, n)]) && !(g'[j] && g'[Prev(j, n)])
    {
      ForkAccounted(k, g, g', i, n, j);
    }
    forall j | 0 <= j < n && r.forks.bloque[j]
      ensures !g'[j] && (g'[Prev(j, n)] || g'[Next(j, n)])
    {
      StillBlockedBeside(k, g, g', i, n, j);
    }
  }

  /** Handing forks over and recording it in bloque[] grants exactly the neighbours served. */
  lemma GrantsFollow(st: State, i: nat, n: nat)
    requires Inv(st, n) && i < n && st.philos[i].phase == Inside(Putting)
    ensures GrantsAfterPut(st.forks, Granted(st, n), Granted(Step(st, i, n), n), i, n)
  {
    var r, k, g := Step(st, i, n), st.forks, Granted(st, n);
    PrevNext(i, n);
    assert g[i] && !g[Prev(i, n)] && !g[Next(i, n)] && k.f[i] && k.f[Next(i, n)];
    forall j | 0 <= j < n
      ensures Granted(r, n)[j] == GrantAfterPut(k, g[j], i, n, j)
    {
      GrantFollows(st, i, n, j);
    }
  }

  lemma GrantFollows(st: State, i: nat, n: nat, j: nat)
    requires Inv(st, n) && i < n && j < n && st.philos[i].phase == Inside(Putting)
    ensures Granted(Step(st, i, n), n)[j] == GrantAfterPut(st.forks, Granted(st, n)[j], i, n, j)
  {
    PrevNext(i, n);
    PutForksShape(st.forks, i, n, j);
    assert Granted(st, n)[i] && TokenOf(st.philos[j], st.forks.bloque[j], st.forks.s[j]);
    assert j != i ==> Step(st, i, n).philos[j] == st.philos[j];
  }

  lemma TokensStep(st: State, i: nat, n: nat)
    requires Inv(st, n) && i < n && Enabled(st, i, n)
    ensures Tokens(Step(st, i, n), n)
  {
    var r := Step(st, i, n);
    forall j | 0 <= j < n
      ensures TokenOf(r.philos[j], r.forks.bloque[j], r.forks.s[j])
    {
      if st.philos[i].phase == Inside(Putting) {
        TokenAfterPut(st, i, n, j);
      } else if st.philos[i].phase == Inside(Taking) {
        TokenAfterTake(st, i, n, j);
      } else {
        TokenOtherwise(st, i, n, j);
      }
    }
  }

  lemma TokenAfterPut(st: State, i: nat, n: nat, j: nat)
    requires Inv(st, n) && i < n && j < n && st.philos[i].phase == Inside(Putting)
    ensures var r := Step(st, i, n); TokenOf(r.philos[j], r.forks.bloque[j], r.forks.s[j])
  {
    var r := Step(st, i, n);
    PrevNext(i, n);
    assert Granted(st, n)[i];
    PutForksShape(st.forks, i, n, j);
    assert TokenOf(st.philos[j], st.forks.bloque[j], st.forks.s[j]);
    assert j != i ==> r.philos[j] == st.philos[j];
  }

  lemma TokenAfterTake(st: State, i: nat, n: nat, j: nat)
    requires Inv(st, n) && i < n && j < n && st.philos[i].phase == Inside(Taking)
    ensures var r := Step(st, i, n); TokenOf(r.philos[j], r.forks.bloque[j], r.forks.s[j])
  {
    assert TokenOf(st.philos[j], st.forks.bloque[j], st.forks.s[j]);
    assert TokenOf(st.philos[i], st.forks.bloque[i], st.forks.s[i]);
  }

  lemma TokenOtherwise(st: State, i: nat, n: nat, j: nat)
    requires Inv(st, n) && i < n && j < n && Enabled(st, i, n)
    requires st.philos[i].phase != Inside(Taking) && st.philos[i].phase != Inside(Putting)
    ensures var r := Step(st, i, n); TokenOf(r.philos[j], r.forks.bloque[j], r.forks.s[j])
  {
    var r := Step(st, i, n);
    assert TokenOf(st.philos[j], st.forks.bloque[j], st.forks.s[j]);
    if st.philos[i].phase.AwaitingForks? {
      assert r.forks.bloque == st.forks.bloque;
    } else {
      assert r.forks == st.forks;
    }
  }

  lemma DisplayOwn(st: State, i: nat, n: nat)
    requires Inv(st, n) && i < n && Enabled(st, i, n)
    ensures var r := Step(st, i, n); |r.philos| == |r.etat| == n && Displayed(r.philos[i], r.etat[i])
  {
    var r, p := Step(st, i, n), st.philos[i];
    assert Displayed(p, st.etat[i]);
    if !p.phase.Inside? {
      assert r.etat == st.etat;
    }
    assert Displayed(Advance(p), r.etat[i]);
  }

  lemma DisplayStep(st: State, i: nat, n: nat)
    requires Inv(st, n) && i < n && Enabled(st, i, n)
    ensures Display(Step(st, i, n), n)
  {
    var r := Step(st, i, n);
    DisplayOwn(st, i, n);
    assert forall j :: 0 <= j < n && j != i ==> r.etat[j] == st.etat[j];
    forall j | 0 <= j < n && j != i
      ensures Displayed(r.philos[j], r.etat[j])
    {
      assert Displayed(st.philos[j], st.etat[j]);
    }
  }

  // ---------------------------------------------------------------- safety and progress

  /** Two neighbours are never shown eating together, and whoever is shown eating has both its forks marked. */
  lemma NeighboursNeverEat(st: State, i: nat, n: nat)
    requires Inv(st, n) && i < n && st.etat[i] == 'm'
    ensures st.etat[Next(i, n)] != 'm' && st.etat[Prev(i, n)] != 'm'
    ensures st.forks.f[i] && st.forks.f[Next(i, n)]
  {
    PrevNext(i, n);
    assert Displayed(st.philos[i], st.etat[i]) && Granted(st, n)[i];
    assert Displayed(st.philos[Next(i, n)], st.etat[Next(i, n)]) && !Granted(st, n)[Next(i, n)];
    assert Displayed(st.philos[Prev(i, n)], st.etat[Prev(i, n)]) && !Granted(st, n)[Prev(i, n)];
  }

  /** Some step is enabled until every philosopher has finished. */
  lemma NoDeadlock(st: State, n: nat) returns (i: nat)
    requires Inv(st, n)
    requires exists j :: 0 <= j < n && !st.philos[j].phase.Finished?
    ensures i < n && Enabled(st, i, n)
  {
    if j :| 0 <= j < n && Holds(st.philos[j]) {
      i := j;
    } else if j :| 0 <= j < n && !st.philos[j].phase.AwaitingForks? && !st.philos[j].phase.Finished? {
      // nobody holds the mutex, so entering a section is possible too
      i := j;
    } else {
      var j :| 0 <= j < n && !st.philos[j].phase.Finished?;
      // if it is blocked, the neighbour with its fork has been granted both and has its token
      i := if !st.forks.bloque[j] then j else if Granted(st, n)[Prev(j, n)] then Prev(j, n) else Next(j, n);
      assert TokenOf(st.philos[i], st.forks.bloque[i], st.forks.s[i]);
    }
  }

  // ---------------------------------------------------------------- whole runs

  /** Steps left in a philosopher's program: 21 a round, and the three of the last section. */
  function PhaseLeft(p: Phase): nat {
    match p
    case Entering(c) => SectionLeft(c) + 2
    case Inside(c) => SectionLeft(c) + 1
    case Exiting(c) => SectionLeft(c)
    case AwaitingForks => 18
    case Eating => 14
    case Thinking => 4
    case Finished => 0
  }

  function SectionLeft(c: Section): nat {
    match c
    case Taking => 19
    case MarkEating => 15
    case ClearEating => 11
    case Putting => 8
    case MarkThinking => 5
    case ClearThinking => 1
    case Leaving => 1
  }

  function Left(p: Philosopher): nat
    requires p.round < ROUNDS
  {
    if p.phase.Finished? then 0
    else if p.phase == Entering(Leaving) || p.phase == Inside(Leaving)
      || p.phase == Exiting(Leaving) then PhaseLeft(p.phase)
    else 21 * (ROUNDS - 1 - p.round) + PhaseLeft(p.phase) + 3
  }

  function TotalLeft(ps: seq<Philosopher>): nat
    requires forall p :: p in ps ==> p.round < ROUNDS
  {
    if ps == [] then 0 else Left(ps[0]) + TotalLeft(ps[1..])
  }

  lemma {:induction false} TotalLeftUpdate(ps: seq<Philosopher>, i: nat, p: Philosopher)
    requires i < |ps| && p.round < ROUNDS
    requires forall q :: q in ps ==> q.round < ROUNDS
    ensures forall q :: q in ps[i := p] ==> q.round < ROUNDS
    ensures TotalLeft(ps[i := p]) + Left(ps[i]) == TotalLeft(ps) + Left(p)
  {
    if i == 0 {
      assert ps[0 := p][1..] == ps[1..];
    } else {
      TotalLeftUpdate(ps[1..], i - 1, p);
      assert ps[i := p][1..] == ps[1..][i - 1 := p];
    }
  }

  lemma AdvanceConsumes(p: Philosopher)
    requires p.round < ROUNDS && !p.phase.Finished?
    ensures Advance(p).round < ROUNDS && Left(Advance(p)) + 1 == Left(p)
  {
  }

  /** Every step of every philosopher brings the end one step nearer. */
  lemma StepConsumes(st: State, i: nat, n: nat)
    requires Inv(st, n) && i < n && Enabled(st, i, n)
    ensures Inv(Step(st, i, n), n)
    ensures TotalLeft(Step(st, i, n).philos) + 1 == TotalLeft(st.philos)
  {
    StepInv(st, i, n);
    AdvanceConsumes(st.philos[i]);
    TotalLeftUpdate(st.philos, i, Advance(st.philos[i]));
  }

  /** The schedule `run` can be followed from st: each chosen philosopher is enabled in its turn. */
  ghost predicate Runs(st: State, run: seq<nat>, n: nat)
    decreases |run|
  {
    WellSized(st, n)
    && (run == [] || (run[0] < n && Enabled(st, run[0], n) && Runs(Step(st, run[0], n), run[1..], n)))
  }

  ghost function After(st: State, run: seq<nat>, n: nat): State
    requires Runs(st, run, n)
    decreases |run|
  {
    if run == [] then st else After(Step(st, run[0], n), run[1..], n)
  }

  lemma {:induction false} RunFrom(st: State, run: seq<nat>, n: nat)
    requires Inv(st, n) && Runs(st, run, n)
    ensures Inv(After(st, run, n), n)
    ensures TotalLeft(After(st, run, n).philos) + |run| == TotalLeft(st.philos)
    decreases |run|
  {
    if run != [] {
      StepConsumes(st, run[0], n);
      RunFrom(Step(st, run[0], n), run[1..], n);
    }
  }

  lemma {:induction false} TotalLeftAtStart(n: nat, ps: seq<Philosopher>)
    requires |ps| == n && forall i :: 0 <= i < n ==> ps[i] == Philosopher(Entering(Taking), 0)
    ensures TotalLeft(ps) == 129 * n
  {
    if n != 0 {
      TotalLeftAtStart(n - 1, ps[1..]);
    }
  }

  lemma {:induction false} NothingLeft(ps: seq<Philosopher>)
    requires forall p :: p in ps ==> p.round < ROUNDS
    ensures TotalLeft(ps) == 0 <==> forall i :: 0 <= i < |ps| ==> ps[i].phase.Finished?
  {
    if ps != [] {
      NothingLeft(ps[1..]);
      assert forall i :: 1 <= i < |ps| ==> ps[i] == ps[1..][i - 1];
      assert forall i :: 0 <= i < |ps[1..]| ==> ps[1..][i] == ps[i + 1];
    }
  }

  /** In every interleaving, however the scheduler chooses, every state reached satisfies the invariant. */
  lemma EveryRunIsSafe(n: nat, run: seq<nat>)
    requires n >= 3 && Runs(Initial(n), run, n)
    ensures Inv(After(Initial(n), run, n), n)
  {
    InitialInv(n);
    RunFrom(Initial(n), run, n);
  }

  lemma CanMoveIff(st: State, n: nat)
    requires Inv(st, n)
    ensures TotalLeft(st.philos) > 0 <==> exists i :: 0 <= i < n && Enabled(st, i, n)
    ensures TotalLeft(st.philos) == 0 <==> forall i :: 0 <= i < n ==> st.philos[i].phase.Finished?
  {
    NothingLeft(st.philos);
    if TotalLeft(st.philos) > 0 {
      var i := NoDeadlock(st, n);
    }
  }

  /**
   * Every run has at most 129 steps a philosopher; it can be continued exactly when it is shorter,
   * and when it cannot, everyone has eaten six times and gone.
   */
  lemma EveryRunFinishes(n: nat, run: seq<nat>)
    requires n >= 3 && Runs(Initial(n), run, n)
    ensures WellSized(After(Initial(n), run, n), n) && |run| <= 129 * n
    ensures |run| == 129 * n <==> forall i :: 0 <= i < n ==> After(Initial(n), run, n).philos[i].phase.Finished?
    ensures |run| < 129 * n <==> exists i :: 0 <= i < n && Enabled(After(Initial(n), run, n), i, n)
  {
    InitialInv(n);
    TotalLeftAtStart(n, Initial(n).philos);
    RunLength(Initial(n), run, n, 129 * n);
  }

  /** A run from any state that satisfies the invariant, with this many steps left to all philosophers together. */
  lemma RunLength(st: State, run: seq<nat>, n: nat, total: nat)
    requires Inv(st, n) && Runs(st, run, n) && TotalLeft(st.philos) == total
    ensures WellSized(After(st, run, n), n) && |run| <= total
    ensures |run| == total <==> forall i :: 0 <= i < n ==> After(st, run, n).philos[i].phase.Finished?
    ensures |run| < total <==> exists i :: 0 <= i < n && Enabled(After(st, run, n), i, n)
  {
    RunFrom(st, run, n);
    CanMoveIff(After(st, run, n), n);
  }
}
