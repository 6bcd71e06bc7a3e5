/**
 The multi-level feedback queue scheduler's arithmetic: pintos-kaist/threads/fixed-point.c, the
 MLFQS functions of pintos-kaist/threads/thread.c and the tick handler of
 pintos-kaist/devices/timer.c.

 Every C `int` operation is checked: it gives `Overflow` when the exact result leaves 32 bits or
 when it divides by zero.  Following `all_list` to the block of an exited thread that was given
 back is a `Fault`, whether or not its page is in use again.  The main theorem says exactly which runs are free of both.
 */
module Mlfqs {
  import opened Arithmetic

  const F: int := 16384
  const FREQ: nat := 100
  const PRI_MIN: int := 0
  const PRI_MAX: int := 63
  const NICE_MAX: int := 20
  const LIMIT: int := 0x8000_0000

  // ---------------------------------------------------------------- 17.14 fixed point

  datatype Checked<+T> = Ok(value: T) | Overflow | Fault {
    predicate IsFailure() { !Ok? }
    function PropagateFailure<U>(): Checked<U> requires !Ok? { if Overflow? then Overflow else Fault }
    function Extract(): T requires Ok? { value }
  }

  predicate Fits(x: int) { -LIMIT <= x < LIMIT }

  function Int32(x: int): Checked<int> { if Fits(x) then Ok(x) else Overflow }

  function IntToFp(n: int): Checked<int> { Int32(n * F) }

  function FpToIntRound(x: int): Checked<int> {
    var y :- Int32(if x >= 0 then x + F / 2 else x - F / 2);
    Ok(TruncDiv(y, F))
  }

  function AddFp(x: int, y: int): Checked<int> { Int32(x + y) }

  function AddFpInt(x: int, n: int): Checked<int> {
    var y :- Int32(n * F);
    Int32(x + y)
  }

  /** The product is taken in 64 bits, where it always fits. */
  function MulFp(x: int, y: int): Checked<int> { Int32(TruncDiv(x * y, F)) }

  function MulFpInt(x: int, n: int): Checked<int> { Int32(x * n) }

  function DivFp(x: int, y: int): Checked<int> {
    if y == 0 then Overflow else Int32(TruncDiv(x * F, y))
  }

  function DivFpInt(x: int, n: int): Checked<int> {
    if n == 0 then Overflow else Int32(TruncDiv(x, n))
  }

  // ---------------------------------------------------------------- the formulas

  function NewLoad(load: int, runnable: nat): Checked<int> {
    var scaled :- MulFpInt(load, 59);
    var term1 :- DivFpInt(scaled, 60);
    var one :- IntToFp(1);
    var sixtieth :- DivFpInt(one, 60);
    var term2 :- MulFpInt(sixtieth, runnable);
    AddFp(term1, term2)
  }

  function Coefficient(load: int): Checked<int> {
    var twice :- MulFpInt(load, 2);
    var more :- AddFpInt(twice, 1);
    DivFp(twice, more)
  }

  function Decay(load: int, recent: int, nice: int): Checked<int> {
    var coeff :- Coefficient(load);
    var part :- MulFp(coeff, recent);
    var base :- IntToFp(nice);
    AddFp(part, base)
  }

  function Clamp(p: int): int {
    if p > PRI_MAX then PRI_MAX else if p < PRI_MIN then PRI_MIN else p
  }

  function NewPriority(recent: int, nice: int): Checked<int> {
    var quarter :- DivFpInt(recent, 4);
    var q :- FpToIntRound(quarter);
    var a :- Int32(PRI_MAX - q);
    var b :- Int32(nice * 2);
    var p :- Int32(a - b);
    Ok(Clamp(p))
  }

  // ---------------------------------------------------------------- the machine

  /** A thread block on `all_list`, which it never leaves: not when the thread exits, nor when the block is
      given back. */
  datatype Thread = Thread(nice: int, recent: int, priority: int, dying: bool, freed: bool)

  datatype State = State(all: seq<Thread>, idle: nat, cur: nat, ready: seq<nat>, load: int, ticks: nat)

  /** Between timer interrupts anything may be scheduled, threads come and go, and the current
      thread may change its nice value.  `next` runs after a thread exits, yields or blocks. */
  datatype Event =
    | Tick
    | SetNice(nice: int)
    | Create
    | Exit(next: nat, queue: seq<nat>)
    | Yield(next: nat, queue: seq<nat>)
    | Block(next: nat, queue: seq<nat>)

  /** `do_schedule` frees the blocks of the threads that have exited, the initial thread's excepted. */
  function Reclaimed(all: seq<Thread>): (r: seq<Thread>)
    ensures |r| == |all|
    ensures forall i :: 0 <= i < |all| ==> r[i] == if i > 0 && all[i].dying then all[i].(freed := true) else all[i]
  {
    seq(|all|, i requires 0 <= i < |all| => if i > 0 && all[i].dying then all[i].(freed := true) else all[i])
  }

  function Runnable(s: State): nat { |s.ready| + if s.cur != s.idle then 1 else 0 }

  predicate Skipped(s: State, i: nat) requires i < |s.all| { s.all[i].dying || i == s.idle }

  function ChargeTick(s: State): Checked<State>
    requires s.cur < |s.all|
  {
    var r :- AddFpInt(s.all[s.cur].recent, 1);
    Ok(s.(all := s.all[s.cur := s.all[s.cur].(recent := r)]))
  }

  function DecayOne(s: State, i: nat): Checked<State>
    requires i < |s.all|
  {
    if s.all[i].freed then Fault
    else if Skipped(s, i) then Ok(s)
    else
      var r :- Decay(s.load, s.all[i].recent, s.all[i].nice);
      Ok(s.(all := s.all[i := s.all[i].(recent := r)]))
  }

  function PriorityOne(s: State, i: nat): Checked<State>
    requires i < |s.all|
  {
    if s.all[i].freed then Fault
    else if Skipped(s, i) then Ok(s) else UpdatePriority(s, i)
  }

  function UpdatePriority(s: State, i: nat): Checked<State>
    requires i < |s.all|
  {
    if i == s.idle then Ok(s)
    else
      var p :- NewPriority(s.all[i].recent, s.all[i].nice);
      Ok(s.(all := s.all[i := s.all[i].(priority := p)]))
  }

  /** The first `n` threads of `all_list` decayed. */
  function DecayAll(s: State, n: nat): Checked<State>
    requires n <= |s.all|
    ensures DecayAll(s, n).Ok? ==> |DecayAll(s, n).value.all| == |s.all|
  {
    if n == 0 then Ok(s)
    else
      var t :- DecayAll(s, n - 1);
      DecayOne(t, n - 1)
  }

  function PriorityAll(s: State, n: nat): Checked<State>
    requires n <= |s.all|
    ensures PriorityAll(s, n).Ok? ==> |PriorityAll(s, n).value.all| == |s.all|
  {
    if n == 0 then Ok(s)
    else
      var t :- PriorityAll(s, n - 1);
      PriorityOne(t, n - 1)
  }

  function EverySecond(s: State): Checked<State> {
    if s.ticks % FREQ == 0 then
      var l :- NewLoad(s.load, Runnable(s));
      DecayAll(s.(load := l), |s.all|)
    else Ok(s)
  }

  function EveryFourth(s: State): Checked<State> {
    if s.ticks % 4 == 0 then PriorityAll(s, |s.all|) else Ok(s)
  }

  function Periodic(s: State): Checked<State> {
    var b :- EverySecond(s);
    EveryFourth(b)
  }

  function Step(s: State, e: Event): Checked<State>
    requires s.cur < |s.all|
  {
    match e
    case Tick =>
      var a :- ChargeTick(s.(ticks := s.ticks + 1));
      Periodic(a)
    case SetNice(nice) =>
      UpdatePriority(s.(all := s.all[s.cur := s.all[s.cur].(nice := nice)]), s.cur)
    case Create =>
      if s.all[|s.all| - 1].freed then Fault  // list_push_back writes into the last block
      else
        var parent := s.all[s.cur];
        var p :- NewPriority(parent.recent, parent.nice);
        Ok(s.(all := s.all + [Thread(parent.nice, parent.recent, p, false, false)], ready := s.ready + [|s.all|]))
    case Exit(next, queue) =>
      var all := Reclaimed(s.all);
      Ok(s.(all := all[s.cur := all[s.cur].(dying := true)], cur := next, ready := queue))
    case Yield(next, queue) =>
      Ok(s.(all := Reclaimed(s.all), cur := next, ready := queue))
    case Block(next, queue) =>
      Ok(s.(cur := next, ready := queue))
  }

  predicate HasFreed(all: seq<Thread>) { exists i :: 0 <= i < |all| && all[i].freed }

  /** The event walks, or is about to write, over a block that was freed: every fourth tick walks the whole list,
      and a new thread is linked behind the last one. */
  predicate Stale(s: State, e: Event) {
    match e
    case Tick => (s.ticks + 1) % 4 == 0 && HasFreed(s.all)
    case Create => s.all != [] && s.all[|s.all| - 1].freed
    case _ => false
  }

  /** The event charges the idle thread beyond the range of its counter. */
  predicate Full(s: State, e: Event) {
    e.Tick? && s.cur == s.idle && s.idle < |s.all| && s.all[s.idle].recent + F >= LIMIT
  }

  /** What the rest of the kernel may do: only live threads run, only ordinary threads exit, create
      or change their nice value (which stays in [-20, 20]), and no more than `R` are runnable. */
  predicate Enabled(s: State, e: Event, R: nat)
    requires s.cur < |s.all|
  {
    match e
    case Tick => true
    case SetNice(nice) => s.cur != s.idle && -NICE_MAX <= nice <= NICE_MAX
    case Create => s.cur != s.idle && Runnable(s) + 1 <= R
    case Exit(next, queue) =>
      s.cur != s.idle && next != s.cur && CanRun(s, next) && Runnable(s.(cur := next, ready := queue)) <= R
    case Yield(next, queue) => CanRun(s, next) && Runnable(s.(cur := next, ready := queue)) <= R
    case Block(next, queue) => CanRun(s, next) && Runnable(s.(cur := next, ready := queue)) <= R
  }

  predicate CanRun(s: State, t: nat) { t < |s.all| && !s.all[t].dying }

  /** Legality is asked step by step, and only as far as the run is defined. */
  predicate Legal(s: State, es: seq<Event>, R: nat)
    decreases |es|
  {
    es == [] ||
    (s.cur < |s.all| && Enabled(s, es[0], R) &&
     (Step(s, es[0]).Ok? ==> Legal(Step(s, es[0]).value, es[1..], R)))
  }

  /** No event of the run is stale: each is looked at in the state it happens in. */
  predicate Careful(s: State, es: seq<Event>)
    decreases |es|
  {
    es == [] || s.cur >= |s.all| ||
    (!Stale(s, es[0]) && (Step(s, es[0]).Ok? ==> Careful(Step(s, es[0]).value, es[1..])))
  }

  function Run(s: State, es: seq<Event>): Checked<State>
    decreases |es|
  {
    if es == [] then Ok(s)
    else if s.cur >= |s.all| then Overflow
    else
      var t :- Step(s, es[0]);
      Run(t, es[1..])
  }

  // ---------------------------------------------------------------- the invariant

  /** The bound on `recent_cpu`: 240R + 20 just after a decay, and one more for each tick since. */
  predicate ThreadOk(s: State, i: nat, R: nat, phase: nat)
    requires i < |s.all|
  {
    -NICE_MAX <= s.all[i].nice <= NICE_MAX &&
    (s.all[i].freed ==> s.all[i].dying) &&
    (!Skipped(s, i) ==>
       -(40 * R + 20) * F <= s.all[i].recent <= (240 * R + 20 + phase) * F)
  }

  ghost predicate AllOk(s: State, R: nat, phase: nat) {
    forall i: nat {:trigger ThreadOk(s, i, R, phase)} :: i < |s.all| ==> ThreadOk(s, i, R, phase)
  }

  ghost predicate Inv(s: State, R: nat) {
    s.idle < |s.all| &&
    CanRun(s, s.cur) &&
    !s.all[s.idle].dying &&
    0 <= s.load <= R * F &&
    Runnable(s) <= R &&
    0 <= s.all[s.idle].recent < LIMIT &&
    AllOk(s, R, s.ticks % FREQ)
  }

  /** How often the timer interrupts the idle thread during a run: it depends on the schedule alone. */
  function IdleTicks(cur: nat, idle: nat, es: seq<Event>): nat
    decreases |es|
  {
    if es == [] then 0
    else IdleTick(cur, idle, es[0]) + IdleTicks(Next(cur, es[0]), idle, es[1..])
  }

  function IdleTick(cur: nat, idle: nat, e: Event): nat {
    if e.Tick? && cur == idle then 1 else 0
  }

  function Next(cur: nat, e: Event): nat {
    if e.Exit? || e.Yield? || e.Block? then e.next else cur
  }

  function Boot(): State {
    State([Thread(0, 0, 31, false, false), Thread(0, 0, 0, false, false)], 1, 0, [], 0, 0)
  }

  lemma BootOk(R: nat)
    requires 1 <= R
    ensures Inv(Boot(), R)
  {
    assert ThreadOk(Boot(), 0, R, 0) && ThreadOk(Boot(), 1, R, 0);
  }

  // ---------------------------------------------------------------- bounds of one formula

  lemma TruncPos(n: int, d: int)
    requires n >= 0 && d > 0
    ensures TruncDiv(n, d) == n / d && IsQuot(n, d, n / d) && 0 <= n / d
  {
    DivIsQuot(n, d);
    if n / d < 0 { MulMono(n / d, -1, d); }
  }

  lemma TruncNeg(n: int, d: int)
    requires n < 0 && d > 0
    ensures TruncDiv(n, d) == -(-n / d) && IsQuot(-n, d, -n / d) && 0 <= -n / d
  {
    TruncPos(-n, d);
  }

  lemma CancelMono(a: int, b: int, c: int)
    requires a * c <= b * c && 0 < c
    ensures a <= b
  {
    if b < a { MulMono(b + 1, a, c); }
  }

  lemma NewLoadBound(load: int, runnable: nat, R: nat)
    requires R <= 545 && 0 <= load <= R * F && runnable <= R
    ensures NewLoad(load, runnable).Ok? && 0 <= NewLoad(load, runnable).value <= R * F
    ensures NewLoad(load, runnable).value == 59 * load / 60 + 273 * runnable
  {
    TruncPos(load * 59, 60);
    TruncPos(F, 60);
  }

  lemma CoefficientBound(load: int, R: nat)
    requires R <= 545 && 0 <= load <= R * F
    ensures Coefficient(load).Ok?
    ensures 0 <= Coefficient(load).value <= F
    ensures Coefficient(load).value * (2 * R + 1) <= 2 * R * F
    ensures IsQuot(2 * load * F, 2 * load + F, Coefficient(load).value)
  {
    var D := 2 * load + F;
    TruncPos(2 * load * F, D);
    var c := 2 * load * F / D;
    assert c * D <= 2 * load * F <= F * D;
    CancelMono(c, F, D);
    CrossMultiply(c, D, load, R);
  }

  lemma CrossMultiply(c: int, D: int, load: int, R: nat)
    requires 0 <= load <= R * F && D == 2 * load + F && 0 <= c && c * D <= 2 * load * F
    ensures c * (2 * R + 1) <= 2 * R * F
  {
    var K := 2 * R + 1;
    MulMono(c * D, 2 * load * F, K);
    calc {
      c * K * D;
      c * D * K;
      <=
      2 * load * F * K;
      2 * load * F * (2 * R) + 2 * load * F;
      <=
      2 * load * F * (2 * R) + 2 * R * F * F;
      { Distribute(R, load); }
      2 * R * F * (2 * load + F);
    }
    CancelMono(c * K, 2 * R * F, D);
  }

  lemma Distribute(R: int, load: int)
    ensures 2 * load * F * (2 * R) + 2 * R * F * F == 2 * R * F * (2 * load + F)
  {
    assert load * R == R * load;
  }

  /** One decay turns a bound of K(2R+1) into a bound of 2KR, in either direction. */
  lemma ProductBound(c: int, x: int, K: nat, R: nat)
    requires 0 <= c && c * (2 * R + 1) <= 2 * R * F
    requires 0 <= x <= K * (2 * R + 1) * F
    ensures 0 <= c * x / F <= 2 * K * R * F
  {
    var B := K * (2 * R + 1) * F;
    MulMono(x, B, c);
    MulMono(c * (2 * R + 1), 2 * R * F, K * F);
    calc {
      c * x;
      <=
      B * c;
      { Shuffle(c, 2 * R + 1, K); }
      c * (2 * R + 1) * (K * F);
      <=
      2 * R * F * (K * F);
      { Shuffle(R, 2, K); }
      2 * K * R * F * F;
    }
    MulMono(0, x, c);
    TruncPos(c * x, F);
    var q := c * x / F;
    CancelMono(q, 2 * K * R * F, F);
  }

  lemma Shuffle(c: int, m: int, K: int)
    ensures K * m * F * c == c * m * (K * F)
    ensures m * c * F * (K * F) == m * K * c * F * F
  {
    assert K * m * c == c * m * K;
  }

  lemma DecayBound(load: int, recent: int, nice: int, R: nat)
    requires R <= 545 && 0 <= load <= R * F && -NICE_MAX <= nice <= NICE_MAX
    requires -(40 * R + 20) * F <= recent <= (240 * R + 120) * F
    ensures Decay(load, recent, nice).Ok?
    ensures -(40 * R + 20) * F <= Decay(load, recent, nice).value <= (240 * R + 20) * F
  {
    CoefficientBound(load, R);
    var c := Coefficient(load).value;
    if recent >= 0 {
      ProductBound(c, recent, 120, R);
      MulMono(0, recent, c);
      TruncPos(c * recent, F);
    } else {
      ProductBound(c, -recent, 20, R);
      assert c * -recent == -(c * recent);
      NegativePart(c, recent, R);
    }
  }

  lemma NegativePart(c: int, recent: int, R: nat)
    requires 0 <= c && recent < 0 && 0 <= c * -recent / F <= 40 * R * F
    ensures -40 * R * F <= TruncDiv(c * recent, F) <= 0
  {
    var p := c * recent;
    assert c * -recent == -p;
    if p < 0 { TruncNeg(p, F); } else { MulMono(recent, 0, c); TruncPos(p, F); }
  }

  lemma NewPriorityOk(recent: int, nice: int)
    requires Fits(recent) && -NICE_MAX <= nice <= NICE_MAX
    ensures NewPriority(recent, nice).Ok?
    ensures PRI_MIN <= NewPriority(recent, nice).value <= PRI_MAX
  {
    QuarterBound(recent);
  }

  lemma QuarterBound(recent: int)
    requires Fits(recent)
    ensures var q := TruncDiv(recent, 4);
            -LIMIT / 4 <= q <= LIMIT / 4 && FpToIntRound(q).Ok? &&
            -LIMIT / F <= FpToIntRound(q).value <= LIMIT / F
  {
    if recent >= 0 { TruncPos(recent, 4); } else { TruncNeg(recent, 4); }
    var q := TruncDiv(recent, 4);
    if q >= 0 { TruncPos(q + F / 2, F); } else { TruncNeg(q - F / 2, F); }
  }

  // ---------------------------------------------------------------- one step

  /** What a step over the thread list leaves as it was. */
  ghost predicate SameFrame(s: State, t: State) {
    |t.all| == |s.all| && t == s.(all := t.all) &&
    (s.idle < |s.all| ==> t.all[s.idle] == s.all[s.idle]) &&
    (forall i {:trigger t.all[i]} :: 0 <= i < |s.all| ==>
       t.all[i].nice == s.all[i].nice && t.all[i].dying == s.all[i].dying && t.all[i].freed == s.all[i].freed)
  }

  /** None of the first `n` blocks was freed. */
  predicate NoneFreed(all: seq<Thread>, n: nat) { forall i :: 0 <= i < n && i < |all| ==> !all[i].freed }

  predicate DecayedUpTo(s: State, i: nat, n: nat, R: nat)
    requires i < |s.all|
  {
    ThreadOk(s, i, R, if i < n then 0 else 100)
  }

  ghost predicate Decayed(s: State, n: nat, R: nat) {
    forall i: nat {:trigger DecayedUpTo(s, i, n, R)} :: i < |s.all| ==> DecayedUpTo(s, i, n, R)
  }

  lemma DecayAllOk(s: State, n: nat, R: nat)
    requires R <= 545 && 0 <= s.load <= R * F && n <= |s.all| && AllOk(s, R, 100) && NoneFreed(s.all, n)
    ensures DecayAll(s, n).Ok? && SameFrame(s, DecayAll(s, n).value) && Decayed(DecayAll(s, n).value, n, R)
  {
    if n == 0 {
      forall i: nat | i < |s.all| ensures DecayedUpTo(s, i, 0, R) { assert ThreadOk(s, i, R, 100); }
    } else {
      DecayAllOk(s, n - 1, R);
      DecayOneOk(DecayAll(s, n - 1).value, n - 1, R);
    }
  }

  lemma DecayOneOk(s: State, n: nat, R: nat)
    requires R <= 545 && 0 <= s.load <= R * F && n < |s.all| && Decayed(s, n, R) && !s.all[n].freed
    ensures DecayOne(s, n).Ok? && SameFrame(s, DecayOne(s, n).value)
    ensures Decayed(DecayOne(s, n).value, n + 1, R)
  {
    assert DecayedUpTo(s, n, n, R);
    if !Skipped(s, n) {
      DecayBound(s.load, s.all[n].recent, s.all[n].nice, R);
    }
    var t, m := DecayOne(s, n).value, n + 1;
    forall i: nat | i < |t.all| ensures DecayedUpTo(t, i, m, R) {
      assert DecayedUpTo(s, i, n, R);
    }
  }

  lemma PriorityAllOk(s: State, n: nat, R: nat, phase: nat)
    requires R <= 545 && n <= |s.all| && phase < 100 && AllOk(s, R, phase) && NoneFreed(s.all, n)
    ensures PriorityAll(s, n).Ok? && SameFrame(s, PriorityAll(s, n).value)
    ensures AllOk(PriorityAll(s, n).value, R, phase)
  {
    if n > 0 {
      PriorityAllOk(s, n - 1, R, phase);
      PriorityOneOk(PriorityAll(s, n - 1).value, n - 1, R, phase);
    }
  }

  lemma PriorityOneOk(s: State, i: nat, R: nat, phase: nat)
    requires R <= 545 && i < |s.all| && phase < 100 && AllOk(s, R, phase) && !s.all[i].freed
    ensures PriorityOne(s, i).Ok? && SameFrame(s, PriorityOne(s, i).value)
    ensures AllOk(PriorityOne(s, i).value, R, phase)
  {
    assert ThreadOk(s, i, R, phase);
    if !Skipped(s, i) {
      NewPriorityOk(s.all[i].recent, s.all[i].nice);
    }
    var t := PriorityOne(s, i).value;
    forall j: nat | j < |t.all| ensures ThreadOk(t, j, R, phase) {
      assert ThreadOk(s, j, R, phase);
    }
  }

  lemma FirstFreed(all: seq<Thread>, n: nat) returns (j: nat)
    requires n <= |all| && NoneFreed(all, n) && HasFreed(all)
    ensures j < |all| && all[j].freed && NoneFreed(all, j)
    decreases |all| - n
  {
    if n < |all| && all[n].freed { j := n; } else { j := FirstFreed(all, n + 1); }
  }

  lemma {:induction false} DecayStaysFault(s: State, j: nat, n: nat)
    requires j <= n <= |s.all| && DecayAll(s, j).Fault?
    ensures DecayAll(s, n).Fault?
    decreases n
  {
    if j < n { DecayStaysFault(s, j, n - 1); }
  }

  lemma {:induction false} PriorityStaysFault(s: State, j: nat, n: nat)
    requires j <= n <= |s.all| && PriorityAll(s, j).Fault?
    ensures PriorityAll(s, n).Fault?
    decreases n
  {
    if j < n { PriorityStaysFault(s, j, n - 1); }
  }

  /** A walk ends at the first freed block. */
  lemma DecayFaults(s: State, R: nat)
    requires R <= 545 && 0 <= s.load <= R * F && AllOk(s, R, 100) && HasFreed(s.all)
    ensures DecayAll(s, |s.all|).Fault?
  {
    var j := FirstFreed(s.all, 0);
    DecayAllOk(s, j, R);
    assert DecayAll(s, j + 1) == DecayOne(DecayAll(s, j).value, j);
    DecayStaysFault(s, j + 1, |s.all|);
  }

  lemma PriorityFaults(s: State, R: nat, phase: nat)
    requires R <= 545 && phase < 100 && AllOk(s, R, phase) && HasFreed(s.all)
    ensures PriorityAll(s, |s.all|).Fault?
  {
    var j := FirstFreed(s.all, 0);
    PriorityAllOk(s, j, R, phase);
    assert PriorityAll(s, j + 1) == PriorityOne(PriorityAll(s, j).value, j);
    PriorityStaysFault(s, j + 1, |s.all|);
  }

  lemma ChargeOk(s: State, R: nat)
    requires R <= 545 && Inv(s, R)
    ensures var a := s.(ticks := s.ticks + 1);
      (ChargeTick(a).Overflow? <==> Full(s, Tick)) && !ChargeTick(a).Fault? &&
      (ChargeTick(a).Ok? ==>
         var t := ChargeTick(a).value;
         t == a.(all := t.all) && |t.all| == |s.all| && (HasFreed(t.all) <==> HasFreed(s.all)) && CanRun(t, t.cur) && !t.all[t.idle].dying &&
         t.all[s.idle].recent == s.all[s.idle].recent + IdleTick(s.cur, s.idle, Tick) * F &&
         AllOk(t, R, s.ticks % FREQ + 1))
  {
    var a := s.(ticks := s.ticks + 1);
    assert ThreadOk(s, s.cur, R, s.ticks % FREQ);
    if ChargeTick(a).Ok? {
      var t := ChargeTick(a).value;
      var phase := s.ticks % FREQ;
      var later := phase + 1;
      forall i: nat | i < |t.all| ensures ThreadOk(t, i, R, later) {
        assert ThreadOk(s, i, R, phase);
      }
      assert forall i :: 0 <= i < |s.all| ==> t.all[i].freed == s.all[i].freed;
    }
  }

  lemma EverySecondOk(a: State, R: nat, phase: nat)
    requires R <= 545 && phase < 100 && (a.ticks - 1) % FREQ == phase && a.ticks > 0
    requires AllOk(a, R, phase + 1) && 0 <= a.load <= R * F && Runnable(a) <= R
    ensures !EverySecond(a).Overflow? && (EverySecond(a).Fault? <==> a.ticks % FREQ == 0 && HasFreed(a.all))
    ensures EverySecond(a).Ok? ==>
      var b := EverySecond(a).value;
      SameFrame(a.(load := b.load), b) && 0 <= b.load <= R * F && AllOk(b, R, b.ticks % FREQ)
  {
    if a.ticks % FREQ == 0 {
      NewLoadBound(a.load, Runnable(a), R);
      var l := a.(load := NewLoad(a.load, Runnable(a)).value);
      forall i: nat | i < |l.all| ensures ThreadOk(l, i, R, 100) {
        assert ThreadOk(a, i, R, phase + 1);
      }
      if HasFreed(l.all) {
        DecayFaults(l, R);
      } else {
        DecayAllOk(l, |l.all|, R);
        var b := DecayAll(l, |l.all|).value;
        forall i: nat | i < |b.all| ensures ThreadOk(b, i, R, 0) {
          assert DecayedUpTo(b, i, |l.all|, R);
        }
      }
    } else {
      assert a.ticks % FREQ == phase + 1;
    }
  }

  lemma SameFreed(s: State, t: State)
    requires SameFrame(s, t)
    ensures HasFreed(t.all) <==> HasFreed(s.all)
  {
    assert forall i :: 0 <= i < |s.all| ==> t.all[i].freed == s.all[i].freed;
  }

  lemma EveryFourthOk(b: State, R: nat)
    requires R <= 545 && AllOk(b, R, b.ticks % FREQ)
    ensures !EveryFourth(b).Overflow? && (EveryFourth(b).Fault? <==> b.ticks % 4 == 0 && HasFreed(b.all))
    ensures EveryFourth(b).Ok? ==> SameFrame(b, EveryFourth(b).value) && AllOk(EveryFourth(b).value, R, b.ticks % FREQ)
  {
    if b.ticks % 4 == 0 {
      if HasFreed(b.all) { PriorityFaults(b, R, b.ticks % FREQ); } else { PriorityAllOk(b, |b.all|, R, b.ticks % FREQ); }
    }
  }

  lemma TickOk(s: State, R: nat)
    requires R <= 545 && Inv(s, R)
    ensures Step(s, Tick).Overflow? <==> Full(s, Tick)
    ensures Step(s, Tick).Fault? <==> !Full(s, Tick) && Stale(s, Tick)
    ensures Step(s, Tick).Ok? ==>
      var t := Step(s, Tick).value;
      Inv(t, R) && t.idle == s.idle && t.cur == s.cur &&
      t.all[t.idle].recent == s.all[s.idle].recent + IdleTick(s.cur, s.idle, Tick) * F
  {
    ChargeOk(s, R);
    if ChargeTick(s.(ticks := s.ticks + 1)).Ok? {
      PeriodicOk(ChargeTick(s.(ticks := s.ticks + 1)).value, R, s.ticks % FREQ);
    }
  }

  lemma PeriodicOk(a: State, R: nat, phase: nat)
    requires R <= 545 && phase < 100 && (a.ticks - 1) % FREQ == phase && a.ticks > 0
    requires AllOk(a, R, phase + 1) && 0 <= a.load <= R * F && Runnable(a) <= R
    ensures !Periodic(a).Overflow? && (Periodic(a).Fault? <==> a.ticks % 4 == 0 && HasFreed(a.all))
    ensures Periodic(a).Ok? ==>
      var t := Periodic(a).value;
      SameFrame(a.(load := t.load), t) && 0 <= t.load <= R * F && AllOk(t, R, t.ticks % FREQ)
  {
    EverySecondOk(a, R, phase);
    if EverySecond(a).Ok? {
      var b := EverySecond(a).value;
      SameFreed(a.(load := b.load), b);
      EveryFourthOk(b, R);
      if EveryFourth(b).Ok? { SameFrameTwice(a, b, EveryFourth(b).value); }
    }
  }

  lemma SameFrameTwice(a: State, b: State, t: State)
    requires SameFrame(a.(load := b.load), b) && SameFrame(b, t)
    ensures SameFrame(a.(load := t.load), t)
  {
  }

  lemma SetNiceOk(s: State, nice: int, R: nat)
    requires R <= 545 && Inv(s, R) && Enabled(s, SetNice(nice), R)
    ensures Step(s, SetNice(nice)).Ok?
    ensures var t := Step(s, SetNice(nice)).value;
      |t.all| == |s.all| && t == s.(all := s.all[s.cur := t.all[s.cur]]) &&
      NewPriority(s.all[s.cur].recent, nice) == Ok(t.all[s.cur].priority) &&
      t.all[s.cur] == s.all[s.cur].(nice := nice, priority := t.all[s.cur].priority)
    ensures var t := Step(s, SetNice(nice)).value;
      Inv(t, R) && t.idle == s.idle && t.cur == s.cur && t.all[t.idle].recent == s.all[s.idle].recent
  {
    var phase := s.ticks % FREQ;
    var a := s.(all := s.all[s.cur := s.all[s.cur].(nice := nice)]);
    forall i: nat | i < |a.all| ensures ThreadOk(a, i, R, phase) {
      assert ThreadOk(s, i, R, phase);
    }
    assert ThreadOk(s, s.cur, R, phase);
    PriorityOneOk(a, s.cur, R, phase);
  }

  lemma CreateOk(s: State, R: nat)
    requires R <= 545 && Inv(s, R) && Enabled(s, Create, R)
    ensures !Step(s, Create).Overflow? && (Step(s, Create).Fault? <==> Stale(s, Create))
    ensures Step(s, Create).Ok? ==>
      var t := Step(s, Create).value; var n := |s.all|; var parent := s.all[s.cur];
      |t.all| == n + 1 && t == s.(all := s.all + [t.all[n]], ready := s.ready + [n]) &&
      NewPriority(parent.recent, parent.nice) == Ok(t.all[n].priority) &&
      t.all[n] == Thread(parent.nice, parent.recent, t.all[n].priority, false, false)
    ensures Step(s, Create).Ok? ==>
      var t := Step(s, Create).value;
      Inv(t, R) && t.idle == s.idle && t.cur == s.cur && t.all[t.idle].recent == s.all[s.idle].recent
  {
    var phase := s.ticks % FREQ;
    assert ThreadOk(s, s.cur, R, phase);
    NewPriorityOk(s.all[s.cur].recent, s.all[s.cur].nice);
    if !Stale(s, Create) {
      var t := Step(s, Create).value;
      forall i: nat | i < |t.all| ensures ThreadOk(t, i, R, phase) {
        if i < |s.all| { assert ThreadOk(s, i, R, phase); }
      }
    }
  }

  /** A switch changes no thread but for marking it as exited, and its block as given back at the next switch but a
      block; the initial thread's block is kept. */
  lemma SwitchOk(s: State, e: Event, R: nat)
    requires R <= 545 && Inv(s, R) && Enabled(s, e, R) && (e.Exit? || e.Yield? || e.Block?)
    ensures Step(s, e).Ok?
    ensures var t := Step(s, e).value;
      |t.all| == |s.all| && t == s.(all := t.all, cur := e.next, ready := e.queue) &&
      forall i :: 0 <= i < |s.all| ==>
        t.all[i] == s.all[i].(dying := s.all[i].dying || (e.Exit? && i == s.cur),
                              freed := s.all[i].freed || (!e.Block? && i > 0 && s.all[i].dying))
    ensures var t := Step(s, e).value;
      Inv(t, R) && t.idle == s.idle && t.cur == e.next && t.all[t.idle].recent == s.all[s.idle].recent
  {
    var phase := s.ticks % FREQ;
    var t := Step(s, e).value;
    forall i: nat | i < |t.all| ensures ThreadOk(t, i, R, phase) {
      assert ThreadOk(s, i, R, phase);
    }
  }

  /** One event: it overflows exactly when it charges a full idle thread, faults exactly when it is stale, and
      otherwise keeps the invariant. */
  lemma StepOk(s: State, e: Event, R: nat)
    requires R <= 545 && Inv(s, R) && Enabled(s, e, R)
    ensures Step(s, e).Overflow? <==> Full(s, e)
    ensures Step(s, e).Fault? <==> !Full(s, e) && Stale(s, e)
    ensures Step(s, e).Ok? ==>
      var t := Step(s, e).value;
      Inv(t, R) && t.idle == s.idle && t.cur == Next(s.cur, e) &&
      t.all[t.idle].recent == s.all[s.idle].recent + IdleTick(s.cur, s.idle, e) * F
  {
    match e {
      case Tick => TickOk(s, R);
      case SetNice(nice) => SetNiceOk(s, nice, R);
      case Create => CreateOk(s, R);
      case _ => SwitchOk(s, e, R);
    }
  }

  // ---------------------------------------------------------------- whole runs

  /** With at most 545 runnable threads, a run is defined to its end if and only if the idle thread is
      interrupted fewer than 2^17 times and no event of it is stale: nothing else can overflow, no other
      freed block is reached, and the bounds hold at its end.  The idle thread's counter is charged like
      any other but never decays. */
  lemma {:induction false} NoOverflowIff(s: State, es: seq<Event>, R: nat)
    requires R <= 545 && Inv(s, R) && Legal(s, es, R)
    ensures Run(s, es).Ok? <==> s.all[s.idle].recent + IdleTicks(s.cur, s.idle, es) * F < LIMIT && Careful(s, es)
    ensures Run(s, es).Ok? ==> Inv(Run(s, es).value, R)
    decreases |es|
  {
    if es != [] {
      StepOk(s, es[0], R);
      if Step(s, es[0]).Ok? {
        NoOverflowIff(Step(s, es[0]).value, es[1..], R);
      }
    }
  }

  /** The bounds a reader of the design asks for, in any state a run reaches. */
  lemma RunBounds(es: seq<Event>, R: nat, i: nat)
    requires 1 <= R <= 545 && Legal(Boot(), es, R) && Run(Boot(), es).Ok?
    ensures var t := Run(Boot(), es).value;
      0 <= t.load <= R * F &&
      (i < |t.all| && !Skipped(t, i) ==>
         -(40 * R + 20) * F <= t.all[i].recent <= (240 * R + 20 + t.ticks % FREQ) * F)
  {
    BootOk(R);
    NoOverflowIff(Boot(), es, R);
    var t := Run(Boot(), es).value;
    if i < |t.all| {
      assert ThreadOk(t, i, R, t.ticks % FREQ);
    }
  }

  /** The condition is not idle talk: when the initial thread blocks at once and nothing else happens, 2^17 interrupts of the
      idle thread, 22 minutes, do overflow its counter. */
  lemma IdleMachineOverflows(n: nat)
    requires n >= 0x2_0000
    ensures Legal(Boot(), [Block(1, [])] + Ticks(n), 1) && Run(Boot(), [Block(1, [])] + Ticks(n)).Overflow?
  {
    BootOk(1);
    StepOk(Boot(), Block(1, []), 1);
    RunOne(Boot(), Block(1, []), 1);
    var s := Step(Boot(), Block(1, [])).value;
    OnlyTicks(s, n, 1);
    NoOverflowIff(s, Ticks(n), 1);
    NeverFaults(s, Ticks(n), 1);
    RunThen(Boot(), [Block(1, [])], s, Ticks(n), 1);
  }

  function Ticks(n: nat): (es: seq<Event>)
    ensures |es| == n && forall i :: 0 <= i < n ==> es[i] == Tick
  {
    seq(n, _ => Tick)
  }

  /** A careful run does not fault. */
  lemma {:induction false} NeverFaults(s: State, es: seq<Event>, R: nat)
    requires R <= 545 && Inv(s, R) && Legal(s, es, R) && Careful(s, es)
    ensures !Run(s, es).Fault?
    decreases |es|
  {
    if es != [] {
      StepOk(s, es[0], R);
      if Step(s, es[0]).Ok? { NeverFaults(Step(s, es[0]).value, es[1..], R); }
    }
  }

  lemma {:induction false} OnlyTicks(s: State, n: nat, R: nat)
    requires R <= 545 && Inv(s, R) && s.cur == s.idle && !HasFreed(s.all)
    ensures Legal(s, Ticks(n), R) && Careful(s, Ticks(n)) && IdleTicks(s.cur, s.idle, Ticks(n)) == n
    decreases n
  {
    if n > 0 {
      var es := Ticks(n);
      assert es[1..] == Ticks(n - 1);
      StepOk(s, Tick, R);
      if Step(s, Tick).Ok? {
        TickFreesNothing(s, R);
        OnlyTicks(Step(s, Tick).value, n - 1, R);
      }
      TicksCount(s.cur, n);
    }
  }

  lemma TickFreesNothing(s: State, R: nat)
    requires R <= 545 && Inv(s, R) && Step(s, Tick).Ok?
    ensures HasFreed(Step(s, Tick).value.all) <==> HasFreed(s.all)
  {
    ChargeOk(s, R);
    var a := ChargeTick(s.(ticks := s.ticks + 1)).value;
    PeriodicOk(a, R, s.ticks % FREQ);
    SameFreed(a.(load := Periodic(a).value.load), Periodic(a).value);
  }

  lemma {:induction false} TicksCount(idle: nat, n: nat)
    ensures IdleTicks(idle, idle, Ticks(n)) == n
  {
    if n > 0 {
      var es := Ticks(n);
      assert es[1..] == Ticks(n - 1);
      TicksCount(idle, n - 1);
    }
  }

  // ---------------------------------------------------------------- what the numbers mean

  /** The exponentially weighted average the design asks for, over exact reals. */
  function ExactLoad(x: real, s: State, es: seq<Event>): real
    decreases |es|
  {
    if es == [] || s.cur >= |s.all| || !Step(s, es[0]).Ok? then x
    else ExactLoad(ExactStep(x, s, es[0]), Step(s, es[0]).value, es[1..])
  }

  function ExactStep(x: real, s: State, e: Event): real {
    if e.Tick? && (s.ticks + 1) % FREQ == 0
    then 59.0 / 60.0 * x + 1.0 / 60.0 * (Runnable(s) as real)
    else x
  }

  ghost predicate Tracks(load: int, x: real, R: nat) {
    x * (F as real) - ((60 + 4 * R) as real) <= load as real <= x * (F as real)
  }

  /** However long the run, `load_avg` never exceeds the exact average, and truncation never
      accumulates to more than (60 + 4R) / 2^14 below it. */
  lemma {:induction false} LoadTracksExact(s: State, es: seq<Event>, R: nat, x: real)
    requires R <= 545 && Inv(s, R) && Legal(s, es, R) && Run(s, es).Ok? && Tracks(s.load, x, R)
    ensures Tracks(Run(s, es).value.load, ExactLoad(x, s, es), R)
    decreases |es|
  {
    if es != [] {
      StepOk(s, es[0], R);
      StepTracks(s, es[0], R, x);
      LoadTracksExact(Step(s, es[0]).value, es[1..], R, ExactStep(x, s, es[0]));
    }
  }

  lemma StepTracks(s: State, e: Event, R: nat, x: real)
    requires R <= 545 && Inv(s, R) && Enabled(s, e, R) && Step(s, e).Ok? && Tracks(s.load, x, R)
    ensures Tracks(Step(s, e).value.load, ExactStep(x, s, e), R)
  {
    if e.Tick? {
      ChargeOk(s, R);
      var a := ChargeTick(s.(ticks := s.ticks + 1)).value;
      EverySecondOk(a, R, s.ticks % FREQ);
      SameLoad(s, R);
      if a.ticks % FREQ == 0 {
        NewLoadBound(a.load, Runnable(a), R);
        var l := a.(load := NewLoad(a.load, Runnable(a)).value);
        var phase := s.ticks % FREQ + 1;
        forall i: nat | i < |l.all| ensures ThreadOk(l, i, R, 100) {
          assert ThreadOk(a, i, R, phase);
        }
        if HasFreed(l.all) { DecayFaults(l, R); } else { DecayAllOk(l, |l.all|, R); }
        AverageTracks(s.load, Runnable(s), R, x);
      }
    }
  }

  lemma SameLoad(s: State, R: nat)
    requires R <= 545 && Inv(s, R) && Step(s, Tick).Ok?
    ensures ChargeTick(s.(ticks := s.ticks + 1)).Ok?
    ensures var a := ChargeTick(s.(ticks := s.ticks + 1)).value;
      EverySecond(a).Ok? && Step(s, Tick).value.load == EverySecond(a).value.load
  {
    ChargeOk(s, R);
    var a := ChargeTick(s.(ticks := s.ticks + 1)).value;
    EverySecondOk(a, R, s.ticks % FREQ);
    EveryFourthOk(EverySecond(a).value, R);
  }

  lemma AverageTracks(load: int, n: nat, R: nat, x: real)
    requires n <= R && Tracks(load, x, R)
    ensures Tracks(59 * load / 60 + 273 * n, 59.0 / 60.0 * x + 1.0 / 60.0 * (n as real), R)
  {
    var q := 59 * load / 60;
    assert 60 * q <= 59 * load <= 60 * q + 59;
    var X := x * (F as real);
    var Y := (59.0 / 60.0 * x + 1.0 / 60.0 * (n as real)) * (F as real);
    assert Y == 59.0 / 60.0 * X + (n as real) * (F as real) / 60.0;
    assert 60.0 * (q as real) <= 59.0 * (load as real) <= 60.0 * (q as real) + 59.0;
  }

  /** A decay is the exact 2L/(2L+1) * recent + nice, truncated towards nice by less than
      1 + |recent| / 2^14 units of the last place. */
  lemma DecayTracksExact(load: int, recent: int, nice: int, R: nat)
    requires R <= 545 && 0 <= load <= R * F && -NICE_MAX <= nice <= NICE_MAX
    requires -(40 * R + 20) * F <= recent <= (240 * R + 120) * F
    ensures Decay(load, recent, nice).Ok?
    ensures var part := Decay(load, recent, nice).value - nice * F;
      var D := 2 * load + F;
      (recent >= 0 ==> 0 <= 2 * load * recent * F - part * D * F < D * (F + recent)) &&
      (recent < 0 ==> 0 <= 2 * load * -recent * F - -part * D * F < D * (F - recent))
  {
    DecayBound(load, recent, nice, R);
    CoefficientBound(load, R);
    var c := Coefficient(load).value;
    TruncSymmetric(c, recent);
    TwoTruncations(load, Magnitude(recent), c, c * Magnitude(recent) / F);
  }

  lemma TruncSymmetric(c: nat, r: int)
    ensures IsQuot(c * Magnitude(r), F, c * Magnitude(r) / F)
    ensures TruncDiv(c * r, F) == if r >= 0 then c * Magnitude(r) / F else -(c * Magnitude(r) / F)
  {
    var p := c * Magnitude(r);
    MulMono(0, Magnitude(r), c);
    TruncPos(p, F);
    if r < 0 {
      assert c * r == -p;
      if p > 0 { TruncNeg(-p, F); }
    }
  }

  lemma TwoTruncations(load: int, r: nat, c: int, m: int)
    requires 0 <= load && IsQuot(2 * load * F, 2 * load + F, c) && IsQuot(c * r, F, m)
    ensures var D := 2 * load + F; 0 <= 2 * load * r * F - m * D * F < D * (F + r)
  {
    var D := 2 * load + F;
    var rho := c * r - m * F;
    var sigma := 2 * load * F - c * D;
    calc {
      2 * load * r * F;
      (c * D + sigma) * r;
      c * r * D + sigma * r;
      (m * F + rho) * D + sigma * r;
      m * D * F + rho * D + sigma * r;
    }
    MulMono(0, rho, D);
    MulMono(rho, F - 1, D);
    MulMono(0, sigma, r);
    MulMono(sigma, D, r);
  }

  function Unclamped(recent: int, nice: int): int {
    PRI_MAX - TruncDiv(var q := TruncDiv(recent, 4); if q >= 0 then q + F / 2 else q - F / 2, F) - nice * 2
  }

  /** The priority is 63 - recent_cpu / 4 - 2 * nice rounded to the nearest, then clamped. */
  lemma PriorityTracksFormula(recent: int, nice: int)
    requires Fits(recent) && -NICE_MAX <= nice <= NICE_MAX
    ensures NewPriority(recent, nice) == Ok(Clamp(Unclamped(recent, nice)))
    ensures -(2 * F + 4) <= 4 * F * (PRI_MAX - 2 * nice - Unclamped(recent, nice)) - recent <= 2 * F + 4
  {
    NewPriorityOk(recent, nice);
    if recent >= 0 { TruncPos(recent, 4); } else { TruncNeg(recent, 4); }
    var q := TruncDiv(recent, 4);
    if q >= 0 { TruncPos(q + F / 2, F); } else { TruncNeg(q - F / 2, F); }
  }

  /** The same in plain numbers, in units of a 65536th: 63 less a quarter of `recent_cpu` and twice nice, to within a half
      and four units, and cut to 0 and 63. */
  lemma PriorityInNumbers(recent: int, nice: int)
    requires Fits(recent) && -20 <= nice <= 20
    ensures NewPriority(recent, nice).Ok?
    ensures var p := NewPriority(recent, nice).value; var exact := 63 * 65536 - recent - 2 * nice * 65536;
      0 <= p <= 63 && (p > 0 ==> 65536 * p - exact <= 32772) && (p < 63 ==> exact - 65536 * p <= 32772)
  {
    PriorityTracksFormula(recent, nice);
  }

  /** Using more CPU, or being nicer, never raises a thread's priority. */
  lemma PriorityMonotone(r1: int, r2: int, n1: int, n2: int)
    requires Fits(r1) && Fits(r2) && r1 <= r2
    requires -NICE_MAX <= n1 <= n2 <= NICE_MAX
    ensures NewPriority(r1, n1).Ok? && NewPriority(r2, n2).Ok?
    ensures NewPriority(r2, n2).value <= NewPriority(r1, n1).value
  {
    NewPriorityOk(r1, n1);
    NewPriorityOk(r2, n2);
    TruncMono(r1, r2, 4);
    var q1, q2 := TruncDiv(r1, 4), TruncDiv(r2, 4);
    TruncMono(if q1 >= 0 then q1 + F / 2 else q1 - F / 2, if q2 >= 0 then q2 + F / 2 else q2 - F / 2, F);
  }

  lemma TruncMono(a: int, b: int, d: int)
    requires a <= b && d > 0
    ensures TruncDiv(a, d) <= TruncDiv(b, d)
  {
    if a >= 0 {
      TruncPos(a, d);
      TruncPos(b, d);
      QuotMono(a, b, d, a / d, b / d);
    } else {
      TruncNeg(a, d);
      if b >= 0 {
        TruncPos(b, d);
      } else {
        TruncNeg(b, d);
        QuotMono(-b, -a, d, -b / d, -a / d);
      }
    }
  }

  lemma QuotMono(a: int, b: int, d: int, p: int, q: int)
    requires a <= b && IsQuot(a, d, p) && IsQuot(b, d, q)
    ensures p <= q
  {
    if q < p { MulMono(q + 1, p, d); }
  }

  /** `thread_get_recent_cpu` and `thread_get_load_avg`: a hundred times the value, to the nearest. */
  function Hundredfold(x: int): Checked<int> {
    var y :- Int32(x * 100);
    FpToIntRound(y)
  }

  /** It is right exactly for values of magnitude up to 21474754 units, about 1310.7; a load average
      is always in range, but a legal `recent_cpu` need not be. */
  lemma HundredfoldIff(x: int)
    requires Fits(x)
    ensures Hundredfold(x).Ok? <==> -(LIMIT - F / 2) <= 100 * x < LIMIT - F / 2
    ensures Hundredfold(x).Ok? ==> -F / 2 <= F * Hundredfold(x).value - 100 * x <= F / 2
    ensures 0 <= x <= 545 * F ==> Hundredfold(x).Ok?
  {
    var y := 100 * x;
    if y >= 0 { TruncPos(y + F / 2, F); } else { TruncNeg(y - F / 2, F); }
  }

  // ---------------------------------------------------------------- runs that reach the failures

  lemma {:induction false} RunConcat(s: State, a: seq<Event>, b: seq<Event>, R: nat)
    requires Run(s, a).Ok?
    ensures Run(s, a + b) == Run(Run(s, a).value, b)
    ensures Legal(s, a, R) && Legal(Run(s, a).value, b, R) ==> Legal(s, a + b, R)
    decreases |a|
  {
    if a == [] {
      assert a + b == b;
    } else {
      assert (a + b)[1..] == a[1..] + b;
      RunConcat(Step(s, a[0]).value, a[1..], b, R);
    }
  }

  /** One run after another. */
  lemma RunThen(s: State, a: seq<Event>, t: State, b: seq<Event>, R: nat)
    requires Run(s, a) == Ok(t) && Legal(s, a, R) && Legal(t, b, R)
    ensures Run(s, a + b) == Run(t, b) && Legal(s, a + b, R)
  {
    RunConcat(s, a, b, R);
  }

  lemma RunOne(s: State, e: Event, R: nat)
    requires s.cur < |s.all| && Enabled(s, e, R) && Step(s, e).Ok?
    ensures Run(s, [e]) == Step(s, e) && Legal(s, [e], R)
  {
    assert [e][1..] == [];
  }

  /** The first thread that exits brings the scheduler down: once its block is reclaimed, the next tick that is a
      multiple of four walks over it. */
  lemma ExitedThreadFaults() returns (es: seq<Event>)
    ensures es == [Create] + [Yield(2, [0])] + [Exit(0, [])] + [Yield(0, [])] + [Tick, Tick, Tick, Tick]
    ensures Legal(Boot(), es, 2) && Run(Boot(), es).Fault?
  {
    BootOk(2);
    var s1 := Follow(Boot(), Create);
    var s2 := Follow(s1, Yield(2, [0]));
    var s3 := Follow(s2, Exit(0, []));
    var s4 := Follow(s3, Yield(0, []));
    assert s4.all[2].freed;
    FourTicksFault(s4);
    es := [Create];
    RunThen(Boot(), es, s1, [Yield(2, [0])], 2);
    es := es + [Yield(2, [0])];
    RunThen(Boot(), es, s2, [Exit(0, [])], 2);
    es := es + [Exit(0, [])];
    RunThen(Boot(), es, s3, [Yield(0, [])], 2);
    es := es + [Yield(0, [])];
    RunThen(Boot(), es, s4, [Tick, Tick, Tick, Tick], 2);
    es := es + [Tick, Tick, Tick, Tick];
  }

  lemma Follow(s: State, e: Event) returns (t: State)
    requires Inv(s, 2) && Enabled(s, e, 2) && !e.Tick? && !Stale(s, e)
    ensures Step(s, e) == Ok(t) && Inv(t, 2) && Run(s, [e]) == Ok(t) && Legal(s, [e], 2)
  {
    StepOk(s, e, 2);
    t := Step(s, e).value;
    RunOne(s, e, 2);
  }

  /** A tick that is no multiple of four only charges the running thread. */
  lemma QuietTick(s: State, R: nat) returns (t: State)
    requires R <= 545 && Inv(s, R) && !Full(s, Tick) && (s.ticks + 1) % 4 != 0
    ensures Step(s, Tick) == Ok(t) && Inv(t, R) && (HasFreed(t.all) <==> HasFreed(s.all))
    ensures t.ticks == s.ticks + 1 && t.cur == s.cur && t.idle == s.idle
  {
    StepOk(s, Tick, R);
    t := Step(s, Tick).value;
    TickFreesNothing(s, R);
    TickAt(s, s.cur, R);
  }

  lemma FourTicksFault(s: State)
    requires Inv(s, 2) && HasFreed(s.all) && s.ticks == 0 && s.cur != s.idle
    ensures Legal(s, [Tick, Tick, Tick, Tick], 2) && Run(s, [Tick, Tick, Tick, Tick]).Fault?
  {
    var t1 := QuietTick(s, 2);
    var t2 := QuietTick(t1, 2);
    var t3 := QuietTick(t2, 2);
    StepOk(t3, Tick, 2);
    FaultsNext(t3, Tick, 2);
    RunPrepend(t2, Tick, t3, [Tick], 2);
    RunPrepend(t1, Tick, t2, [Tick] + [Tick], 2);
    RunPrepend(s, Tick, t1, [Tick] + ([Tick] + [Tick]), 2);
    assert [Tick] + ([Tick] + ([Tick] + [Tick])) == [Tick, Tick, Tick, Tick];
  }

  lemma RunPrepend(s: State, e: Event, t: State, rest: seq<Event>, R: nat)
    requires s.cur < |s.all| && Enabled(s, e, R) && Step(s, e) == Ok(t) && Legal(t, rest, R)
    ensures Run(s, [e] + rest) == Run(t, rest) && Legal(s, [e] + rest, R)
  {
    RunOne(s, e, R);
    RunThen(s, [e], t, rest, R);
  }

  lemma FaultsNext(s: State, e: Event, R: nat)
    requires s.cur < |s.all| && Enabled(s, e, R) && Step(s, e).Fault?
    ensures Run(s, [e]).Fault? && Legal(s, [e], R)
  {
  }

  /** What the walk does to one thread: it is decayed once, if the walk has come to it and does not skip it. */
  lemma {:induction false} DecayAllAt(s: State, n: nat, i: nat)
    requires n <= |s.all| && i < |s.all| && DecayAll(s, n).Ok?
    ensures var t := DecayAll(s, n).value;
      t == s.(all := t.all) && |t.all| == |s.all| &&
      if i < n && !Skipped(s, i)
      then Decay(s.load, s.all[i].recent, s.all[i].nice) == Ok(t.all[i].recent) && t.all[i] == s.all[i].(recent := t.all[i].recent)
      else t.all[i] == s.all[i]
    decreases n
  {
    if n > 0 {
      DecayAllAt(s, n - 1, i);
      DecayAllAt(s, n - 1, n - 1);
    }
  }

  /** ... and gets its priority once. */
  lemma {:induction false} PriorityAllAt(s: State, n: nat, i: nat)
    requires n <= |s.all| && i < |s.all| && PriorityAll(s, n).Ok?
    ensures var t := PriorityAll(s, n).value;
      t == s.(all := t.all) && |t.all| == |s.all| &&
      if i < n && !Skipped(s, i)
      then NewPriority(s.all[i].recent, s.all[i].nice) == Ok(t.all[i].priority) && t.all[i] == s.all[i].(priority := t.all[i].priority)
      else t.all[i] == s.all[i]
    decreases n
  {
    if n > 0 {
      PriorityAllAt(s, n - 1, i);
      PriorityAllAt(s, n - 1, n - 1);
    }
  }

  /** One tick as a thread sees it: charged if it is running, decayed every second with the new load, and given a new
      priority every four ticks from its new `recent_cpu`; dead threads and the idle one are only charged. */
  lemma TickAt(s: State, i: nat, R: nat)
    requires Inv(s, R) && i < |s.all| && Step(s, Tick).Ok?
    ensures var t := Step(s, Tick).value;
      |t.all| == |s.all| && t.all[i].dying == s.all[i].dying && t.all[i].freed == s.all[i].freed &&
      if (s.ticks + 1) % 4 == 0 && !s.all[i].dying && i != s.idle
      then NewPriority(t.all[i].recent, s.all[i].nice) == Ok(t.all[i].priority)
      else t.all[i].priority == s.all[i].priority
    ensures (s.ticks + 1) % 100 == 0 ==>
      NewLoad(s.load, |s.ready| + if s.cur != s.idle then 1 else 0) == Ok(Step(s, Tick).value.load)
    ensures s.all[i].dying || i == s.idle ==>
      Step(s, Tick).value.all[i].recent == s.all[i].recent + if i == s.cur then F else 0
    ensures var t := Step(s, Tick).value; var charged := s.all[i].recent + if i == s.cur then F else 0;
      t.ticks == s.ticks + 1 && t.cur == s.cur && t.idle == s.idle && t.ready == s.ready && |t.all| == |s.all| &&
      t.all[i].nice == s.all[i].nice &&
      if (s.ticks + 1) % FREQ == 0
      then NewLoad(s.load, Runnable(s)) == Ok(t.load) &&
           (!Skipped(s, i) ==> Decay(t.load, charged, s.all[i].nice) == Ok(t.all[i].recent))
      else t.load == s.load && t.all[i].recent == charged
  {
    PeriodicAt(ChargeTick(s.(ticks := s.ticks + 1)).value, i);
  }

  lemma PeriodicAt(a: State, i: nat)
    requires i < |a.all| && Periodic(a).Ok?
    ensures var t := Periodic(a).value;
      |t.all| == |a.all| && t.all[i].dying == a.all[i].dying && t.all[i].freed == a.all[i].freed &&
      (Skipped(a, i) ==> t.all[i].recent == a.all[i].recent) &&
      if a.ticks % 4 == 0 && !Skipped(a, i)
      then NewPriority(t.all[i].recent, t.all[i].nice) == Ok(t.all[i].priority)
      else t.all[i].priority == a.all[i].priority
    ensures var t := Periodic(a).value;
      t == a.(all := t.all, load := t.load) && |t.all| == |a.all| && t.all[i].nice == a.all[i].nice &&
      if a.ticks % FREQ == 0
      then NewLoad(a.load, Runnable(a)) == Ok(t.load) &&
           (!Skipped(a, i) ==> Decay(t.load, a.all[i].recent, a.all[i].nice) == Ok(t.all[i].recent))
      else t.load == a.load && t.all[i].recent == a.all[i].recent
  {
    if a.ticks % FREQ == 0 {
      DecayAllAt(a.(load := NewLoad(a.load, Runnable(a)).value), |a.all|, i);
    }
    var b := EverySecond(a).value;
    if b.ticks % 4 == 0 { PriorityAllAt(b, |b.all|, i); }
  }

  /** A tick of a machine without freed blocks, as thread `i` sees it. */
  lemma WholeTick(s: State, i: nat, R: nat) returns (t: State)
    requires R <= 545 && Inv(s, R) && !Full(s, Tick) && !HasFreed(s.all) && i < |s.all|
    ensures Step(s, Tick) == Ok(t) && Inv(t, R) && !HasFreed(t.all)
    ensures t.ticks == s.ticks + 1 && t.cur == s.cur && t.idle == s.idle && t.ready == s.ready && |t.all| == |s.all|
    ensures t.all[i].nice == s.all[i].nice
    ensures var charged := s.all[i].recent + if i == s.cur then F else 0;
      if (s.ticks + 1) % FREQ == 0
      then NewLoad(s.load, Runnable(s)) == Ok(t.load) &&
           (!Skipped(s, i) ==> Decay(t.load, charged, s.all[i].nice) == Ok(t.all[i].recent))
      else t.load == s.load && t.all[i].recent == charged
  {
    StepOk(s, Tick, R);
    t := Step(s, Tick).value;
    TickAt(s, i, R);
    TickFreesNothing(s, R);
  }

  // ---------------------------------------------------------------- a busy machine, whatever its schedule

  /** The guaranteed rise of `load_avg` and of every thread's `recent_cpu` in each second of a busy machine. */
  const LOAD_RISE: int := 3 * F
  const RISE: int := 17 * F
  const SECONDS: nat := 78

  /** An ordinary live thread has nice 20. */
  predicate NiceAt(s: State, i: nat)
    requires i < |s.all|
  {
    Skipped(s, i) || s.all[i].nice == 20
  }

  /** 545 threads of nice 20 are runnable, one of them is running, and no exited thread has been reclaimed. */
  ghost predicate Busy(s: State) {
    s.cur != s.idle && Runnable(s) == 545 && !HasFreed(s.all) &&
    forall i: nat {:trigger NiceAt(s, i)} :: i < |s.all| ==> NiceAt(s, i)
  }

  /** The machine is busy before every event of the run; which thread runs when, and what else happens, is open. */
  ghost predicate BusyThroughout(s: State, es: seq<Event>)
    decreases |es|
  {
    es == [] ||
    (Busy(s) && s.cur < |s.all| && (Step(s, es[0]).Ok? ==> BusyThroughout(Step(s, es[0]).value, es[1..])))
  }

  predicate RisenAt(s: State, i: nat, m: nat)
    requires i < |s.all|
  {
    Skipped(s, i) || s.all[i].recent >= RISE * m
  }

  /** What `m` busy seconds have brought about at least. */
  ghost predicate Risen(s: State, m: nat) {
    s.load >= LOAD_RISE * m && forall i: nat {:trigger RisenAt(s, i, m)} :: i < |s.all| ==> RisenAt(s, i, m)
  }

  function Later(m: nat, n: nat): nat { if m + n < SECONDS then m + n else SECONDS }

  lemma LoadRises(load: int, m: nat)
    requires LOAD_RISE * m <= load <= 545 * F && m <= SECONDS
    ensures NewLoad(load, 545).Ok? && LOAD_RISE * Later(m, 1) <= NewLoad(load, 545).value <= 545 * F
  {
    NewLoadBound(load, 545, 545);
  }

  /** The coefficient of the decay with a load of `3m` or more falls short of 1 by `g / F`. */
  lemma GapBound(load: int, K: nat, c: int)
    requires 1 <= K && 0 <= load && 2 * load + F >= F * K && IsQuot(2 * load * F, 2 * load + F, c) && 0 <= c
    ensures (F - c) * K <= F + K
  {
    var D, g := 2 * load + F, F - c;
    if g > 1 {
      assert 2 * load * F == (D - F) * F;
      assert c * D == F * D - g * D by { Expand(F, g, D); }
      assert (g - 1) * D == g * D - D by { Expand(g, 1, D); }
      assert (g - 1) * D < F * F;
      MulMono(F * K, D, g - 1);
      assert F * K * (g - 1) == (g - 1) * K * F;
      if (g - 1) * K >= F { MulMono(F, (g - 1) * K, F); }
      assert (g - 1) * K == g * K - K by { Expand(g, 1, K); }
    } else {
      MulMono(g, 1, K);
    }
  }

  lemma Expand(a: int, b: int, d: int)
    ensures (a - b) * d == a * d - b * d
  {
  }

  /** One decay in a busy machine: a thread that had the rise of `m` seconds has that of one more. */
  lemma RecentRises(load: int, recent: int, m: nat)
    requires m <= SECONDS && LOAD_RISE * Later(m, 1) <= load <= 545 * F
    requires RISE * m <= recent <= (240 * 545 + 120) * F
    ensures Decay(load, recent, 20).Ok? && Decay(load, recent, 20).value >= RISE * Later(m, 1)
  {
    DecayBound(load, recent, 20, 545);
    CoefficientBound(load, 545);
    var c := Coefficient(load).value;
    GapBound(load, 6 * Later(m, 1) + 1, c);
    LossBound(F - c, m, 6 * Later(m, 1) + 1);
    ScaledAtLeast(c, recent, m);
  }

  lemma ScaledAtLeast(c: int, recent: int, m: nat)
    requires 0 <= c && RISE * m <= recent
    ensures TruncDiv(c * recent, F) >= 17 * m * F - 17 * (m * (F - c))
  {
    MulMono(0, recent, c);
    TruncPos(c * recent, F);
    MulMono(RISE * m, recent, c);
    Product(c, m, F - c);
    AtLeast(c * recent, F, c * recent / F, 17 * m * F - 17 * (m * (F - c)));
  }

  lemma Product(c: int, m: int, g: int)
    requires g == F - c
    ensures c * (RISE * m) == (17 * m * F - 17 * (m * g)) * F
  {
    assert m * g == m * F - m * c;
    assert c * m == m * c;
  }

  lemma LossBound(g: int, m: nat, K: nat)
    requires 0 <= g && 6 * m + 1 <= K <= 6 * SECONDS + 1 && g * K <= F + K
    ensures 17 * (m * g) <= 3 * F
  {
    MulMono(6 * m, K, g);
    assert 6 * m * g == 6 * (m * g);
  }

  lemma AtLeast(n: int, d: int, q: int, x: int)
    requires IsQuot(n, d, q) && d > 0 && x * d <= n
    ensures x <= q
  {
    if q < x { MulMono(q + 1, x, d); }
  }

  /** Whatever happens next, the rise is kept, and grows by a second when the second is full. */
  lemma StepRises(s: State, e: Event, m: nat) returns (t: State)
    requires Inv(s, 545) && Enabled(s, e, 545) && Busy(s) && Risen(s, m) && m <= SECONDS
    ensures Step(s, e) == Ok(t) && Inv(t, 545)
    ensures t.ticks == s.ticks + (if e.Tick? then 1 else 0) && t.idle == s.idle
    ensures Risen(t, Later(m, if e.Tick? && t.ticks % FREQ == 0 then 1 else 0))
  {
    if e.Tick? {
      t := TickRises(s, m);
    } else {
      StepOk(s, e, 545);
      t := Step(s, e).value;
      OtherRises(s, e, m);
    }
  }

  lemma OtherRises(s: State, e: Event, m: nat)
    requires Inv(s, 545) && Enabled(s, e, 545) && Risen(s, m) && !e.Tick? && Step(s, e).Ok?
    ensures Risen(Step(s, e).value, m) && Step(s, e).value.ticks == s.ticks && Step(s, e).value.idle == s.idle
  {
    var t := Step(s, e).value;
    assert RisenAt(s, s.cur, m);
    forall i: nat | i < |t.all| ensures RisenAt(t, i, m) {
      if i < |s.all| { assert RisenAt(s, i, m); }
    }
  }

  lemma TickRises(s: State, m: nat) returns (t: State)
    requires Inv(s, 545) && Busy(s) && Risen(s, m) && m <= SECONDS
    ensures Step(s, Tick) == Ok(t) && Inv(t, 545) && t.ticks == s.ticks + 1 && t.idle == s.idle
    ensures Risen(t, Later(m, if t.ticks % FREQ == 0 then 1 else 0))
  {
    t := WholeTick(s, s.cur, 545);
    var full := t.ticks % FREQ == 0;
    if full { LoadRises(s.load, m); }
    var m' := Later(m, if full then 1 else 0);
    forall i: nat | i < |t.all| ensures RisenAt(t, i, m') {
      TickRisesAt(s, t, m, i);
    }
  }

  lemma TickRisesAt(s: State, t: State, m: nat, i: nat)
    requires Inv(s, 545) && Busy(s) && Risen(s, m) && m <= SECONDS && Step(s, Tick) == Ok(t) && i < |t.all| && |t.all| == |s.all|
    ensures RisenAt(t, i, Later(m, if t.ticks % FREQ == 0 then 1 else 0))
  {
    TickAt(s, i, 545);
    SkippedSame(s, t, i);
    assert RisenAt(s, i, m) && NiceAt(s, i) && ThreadOk(s, i, 545, s.ticks % FREQ);
    if (s.ticks + 1) % FREQ == 0 && !Skipped(s, i) {
      LoadRises(s.load, m);
      RecentRises(t.load, s.all[i].recent + (if i == s.cur then F else 0), m);
    }
  }

  lemma SkippedSame(s: State, t: State, i: nat)
    requires Inv(s, 545) && Step(s, Tick) == Ok(t) && i < |s.all| && |t.all| == |s.all|
    ensures Skipped(t, i) <==> Skipped(s, i)
  {
    ChargeOk(s, 545);
    PeriodicOk(ChargeTick(s.(ticks := s.ticks + 1)).value, 545, s.ticks % FREQ);
  }

  lemma FullSeconds(ticks: nat)
    ensures (ticks + 1) / FREQ == ticks / FREQ + if (ticks + 1) % FREQ == 0 then 1 else 0
  {
  }

  lemma LaterAdds(m: nat, a: nat, b: nat)
    ensures Later(Later(m, a), b) == Later(m, a + b)
  {
  }

  /** A busy run neither overflows nor faults, and every full second of it brings its rise. */
  lemma {:induction false} BusyRunRises(s: State, es: seq<Event>, m: nat) returns (t: State)
    requires Inv(s, 545) && Legal(s, es, 545) && BusyThroughout(s, es) && Risen(s, m) && m <= SECONDS
    ensures Run(s, es) == Ok(t) && Inv(t, 545) && t.ticks >= s.ticks && t.idle == s.idle
    ensures Risen(t, Later(m, t.ticks / FREQ - s.ticks / FREQ))
    decreases |es|
  {
    t := s;
    if es != [] {
      var u := StepRises(s, es[0], m);
      FullSeconds(s.ticks);
      var first := u.ticks / FREQ - s.ticks / FREQ;
      t := BusyRunRises(u, es[1..], Later(m, first));
      LaterAdds(m, first, t.ticks / FREQ - u.ticks / FREQ);
    }
  }

  /** On a machine that keeps 545 threads of nice 20 runnable, every live thread's `recent_cpu` makes `thread_get_recent_cpu`
      overflow from the seventy-eighth second on, whatever the schedule. */
  lemma BusyReportsOverflow(s: State, es: seq<Event>) returns (t: State)
    requires Inv(s, 545) && Legal(s, es, 545) && BusyThroughout(s, es) && Risen(s, 0)
    ensures Run(s, es) == Ok(t)
    ensures t.ticks / FREQ - s.ticks / FREQ >= SECONDS ==>
      CanRun(t, t.cur) && forall i :: 0 <= i < |t.all| && !Skipped(t, i) ==> Hundredfold(t.all[i].recent).Overflow?
  {
    t := BusyRunRises(s, es, 0);
    if t.ticks / FREQ - s.ticks / FREQ >= SECONDS {
      forall i | 0 <= i < |t.all| && !Skipped(t, i) ensures Hundredfold(t.all[i].recent).Overflow? {
        assert RisenAt(t, i, SECONDS) && ThreadOk(t, i, 545, t.ticks % FREQ);
        HundredfoldIff(t.all[i].recent);
      }
    }
  }

  /** The running thread and the ready ones are live and not the idle thread. */
  predicate Turns(s: State) {
    s.cur != s.idle && CanRun(s, s.cur) && forall k :: 0 <= k < |s.ready| ==> s.ready[k] != s.idle && CanRun(s, s.ready[k])
  }

  predicate NoneDying(s: State) { forall i: nat :: i < |s.all| ==> CanRun(s, i) }

  /** `n` runnable threads of nice 20 that can take turns, and none that exits. */
  ghost predicate Orderly(s: State, n: nat) {
    Inv(s, 545) && Turns(s) && Runnable(s) == n && !HasFreed(s.all) && NoneDying(s) &&
    forall i: nat {:trigger NiceAt(s, i)} :: i < |s.all| ==> NiceAt(s, i)
  }

  lemma CreateOrderly(s: State, n: nat) returns (t: State)
    requires Orderly(s, n) && n < 545 && Risen(s, 0)
    ensures Step(s, Create) == Ok(t) && Enabled(s, Create, 545) && Orderly(t, n + 1) && Risen(t, 0) && t.ticks == s.ticks
  {
    StepOk(s, Create, 545);
    t := Step(s, Create).value;
    OtherRises(s, Create, 0);
    assert NiceAt(s, s.cur) && CanRun(s, s.cur);
    assert forall i :: 0 <= i < |s.all| ==> t.all[i] == s.all[i];
    forall i: nat | i < |t.all| ensures NiceAt(t, i) && CanRun(t, i) {
      if i < |s.all| { assert NiceAt(s, i) && CanRun(s, i); }
    }
  }

  lemma {:induction false} Crowd(s: State, k: nat, n: nat) returns (t: State)
    requires Orderly(s, k) && k + n <= 545 && Risen(s, 0)
    ensures Run(s, seq(n, _ => Create)) == Ok(t) && Legal(s, seq(n, _ => Create), 545)
    ensures Orderly(t, k + n) && Risen(t, 0) && t.ticks == s.ticks
    decreases n
  {
    t := s;
    if n > 0 {
      assert seq(n, _ => Create)[1..] == seq(n - 1, _ => Create);
      var u := CreateOrderly(s, k);
      t := Crowd(u, k + 1, n - 1);
    }
  }

  /** Setting nice and creating 544 threads gets the machine that busy. */
  lemma Crowded() returns (es: seq<Event>, s: State)
    ensures es == [SetNice(20)] + seq(544, _ => Create) && Legal(Boot(), es, 545) && Run(Boot(), es) == Ok(s)
    ensures Orderly(s, 545) && Risen(s, 0) && s.ticks == 0
  {
    var b := Boot();
    BootOk(545);
    StepOk(b, SetNice(20), 545);
    RunOne(b, SetNice(20), 545);
    var s1 := Step(b, SetNice(20)).value;
    assert Risen(b, 0) by { assert RisenAt(b, 0, 0) && RisenAt(b, 1, 0); }
    OtherRises(b, SetNice(20), 0);
    assert NiceAt(s1, 0) && NiceAt(s1, 1) && CanRun(s1, 0) && CanRun(s1, 1);
    var n: nat := 544;
    s := Crowd(s1, 1, n);
    es := [SetNice(20)] + seq(n, _ => Create);
    RunThen(b, [SetNice(20)], s1, seq(n, _ => Create), 545);
  }

  /** `n` events of threads taking turns: after every four ticks the running thread goes to the back of the queue.  `k` ticks
      of the first slice are over. */
  function RoundRobin(cur: nat, ready: seq<nat>, k: nat, n: nat): seq<Event>
    requires |ready| > 0
    decreases n
  {
    if n == 0 then []
    else if k < 4 then [Tick] + RoundRobin(cur, ready, k + 1, n - 1)
    else [Yield(ready[0], ready[1..] + [cur])] + RoundRobin(ready[0], ready[1..] + [cur], 0, n - 1)
  }

  lemma TickOrderly(s: State) returns (t: State)
    requires Orderly(s, 545)
    ensures Step(s, Tick) == Ok(t) && Orderly(t, 545) && t.ticks == s.ticks + 1 && t.cur == s.cur && t.ready == s.ready
  {
    t := WholeTick(s, s.cur, 545);
    forall i: nat | i < |t.all| ensures NiceAt(t, i) && CanRun(t, i) {
      TickAt(s, i, 545);
      SkippedSame(s, t, i);
      assert NiceAt(s, i) && CanRun(s, i);
    }
  }

  lemma YieldOrderly(s: State) returns (e: Event, t: State)
    requires Orderly(s, 545)
    ensures |s.ready| > 0 && e == Yield(s.ready[0], s.ready[1..] + [s.cur]) && Enabled(s, e, 545)
    ensures Step(s, e) == Ok(t) && Orderly(t, 545) && t.ticks == s.ticks && t.cur == s.ready[0] && t.ready == s.ready[1..] + [s.cur]
  {
    e := Yield(s.ready[0], s.ready[1..] + [s.cur]);
    assert CanRun(s, s.ready[0]);
    StepOk(s, e, 545);
    t := Step(s, e).value;
    assert t.all == s.all by {
      forall i: nat | i < |s.all| ensures t.all[i] == s.all[i] { assert CanRun(s, i); }
    }
    forall i: nat | i < |t.all| ensures NiceAt(t, i) && CanRun(t, i) { assert NiceAt(s, i) && CanRun(s, i); }
  }

  lemma {:induction false} RoundRobinIsBusy(s: State, k: nat, n: nat) returns (es: seq<Event>, t: State)
    requires Orderly(s, 545) && k <= 4
    ensures |s.ready| > 0 && es == RoundRobin(s.cur, s.ready, k, n) && Legal(s, es, 545) && BusyThroughout(s, es)
    ensures Run(s, es) == Ok(t) && t.ticks == s.ticks + n - (k + n) / 5 && Orderly(t, 545)
    decreases n
  {
    es, t := [], s;
    if n > 0 {
      var e, u, k' := Tick, s, k + 1;
      if k < 4 { u := TickOrderly(s); } else { e, u := YieldOrderly(s); k' := 0; }
      var rest;
      rest, t := RoundRobinIsBusy(u, k', n - 1);
      es := [e] + rest;
      assert es[1..] == rest;
    }
  }

  /** Such schedules exist: 545 threads that take turns from boot on get there. */
  lemma ReportOverflows(n: nat) returns (start: seq<Event>, s: State, es: seq<Event>, t: State)
    requires n >= 9750
    ensures start == [SetNice(20)] + seq(544, _ => Create) && Run(Boot(), start) == Ok(s)
    ensures |s.ready| == 544 && es == RoundRobin(s.cur, s.ready, 0, n)
    ensures Legal(Boot(), start + es, 545) && Run(Boot(), start + es) == Ok(t)
    ensures t.cur < |t.all| && Hundredfold(t.all[t.cur].recent).Overflow?
  {
    start, s := Crowded();
    es, t := RoundRobinIsBusy(s, 0, n);
    RunThen(Boot(), start, s, es, 545);
    var u := BusyReportsOverflow(s, es);
    assert t.ticks >= 7800;
    assert CanRun(t, t.cur) && !Skipped(t, t.cur);
  }

  // ---------------------------------------------------------------- the handler itself

  class Scheduler {
    var all: seq<Thread>
    var idle: nat
    var cur: nat
    var ready: seq<nat>
    var loadAvg: int
    var ticks: nat

    ghost function Value(): State reads this { State(all, idle, cur, ready, loadAvg, ticks) }

    method UpdateRecentCpu()
      requires cur < |all| && ChargeTick(Value()).Ok?
      modifies this`all
      ensures ChargeTick(old(Value())) == Ok(Value())
    {
      var r := AddFpInt(all[cur].recent, 1);
      all := all[cur := all[cur].(recent := r.value)];
    }

    method UpdateLoadAvg()
      requires NewLoad(loadAvg, Runnable(Value())).Ok?
      modifies this`loadAvg
      ensures NewLoad(old(loadAvg), Runnable(old(Value()))) == Ok(loadAvg)
    {
      var runnable := |ready|;
      if cur != idle {
        runnable := runnable + 1;
      }
      var l := NewLoad(loadAvg, runnable);
      loadAvg := l.value;
    }

    method UpdateRecentCpuAll()
      requires DecayAll(Value(), |all|).Ok?
      modifies this`all
      ensures DecayAll(old(Value()), |old(all)|) == Ok(Value())
    {
      ghost var before := Value();
      var i := 0;
      while i < |all|
        invariant i <= |all| == |before.all|
        invariant DecayAll(before, i) == Ok(Value())
      {
        DecayPrefixOk(before, i + 1);
        if !all[i].dying && i != idle {
          var r := Decay(loadAvg, all[i].recent, all[i].nice);
          all := all[i := all[i].(recent := r.value)];
        }
        i := i + 1;
      }
    }

    method UpdateAllPriority()
      requires PriorityAll(Value(), |all|).Ok?
      modifies this`all
      ensures PriorityAll(old(Value()), |old(all)|) == Ok(Value())
    {
      ghost var before := Value();
      var i := 0;
      while i < |all|
        invariant i <= |all| == |before.all|
        invariant PriorityAll(before, i) == Ok(Value())
      {
        PriorityPrefixOk(before, i + 1);
        if !all[i].dying && i != idle {
          var p := NewPriority(all[i].recent, all[i].nice);
          all := all[i := all[i].(priority := p.value)];
        }
        i := i + 1;
      }
    }

    /** The tick count of `timer_interrupt`, then `mlfqs_on_tick`.  The yield that may follow is an event of its own. */
    method MlfqsOnTick()
      requires cur < |all| && Step(Value(), Tick).Ok?
      modifies this`all, this`loadAvg, this`ticks
      ensures Step(old(Value()), Tick) == Ok(Value())
    {
      ticks := ticks + 1;
      UpdateRecentCpu();
      if ticks % FREQ == 0 {
        UpdateLoadAvg();
        UpdateRecentCpuAll();
      }
      if ticks % 4 == 0 {
        UpdateAllPriority();
      }
    }

    method ThreadSetNice(nice: int)
      requires cur < |all| && Step(Value(), SetNice(nice)).Ok?
      modifies this`all
      ensures Step(old(Value()), SetNice(nice)) == Ok(Value())
    {
      all := all[cur := all[cur].(nice := nice)];
      if cur != idle {
        var p := NewPriority(all[cur].recent, all[cur].nice);
        all := all[cur := all[cur].(priority := p.value)];
      }
    }
  }

  lemma DecayPrefixOk(s: State, n: nat)
    requires n <= |s.all| && DecayAll(s, |s.all|).Ok?
    ensures DecayAll(s, n).Ok?
    decreases |s.all| - n
  {
    if n < |s.all| { DecayPrefixOk(s, n + 1); }
  }

  lemma PriorityPrefixOk(s: State, n: nat)
    requires n <= |s.all| && PriorityAll(s, |s.all|).Ok?
    ensures PriorityAll(s, n).Ok?
    decreases |s.all| - n
  {
    if n < |s.all| { PriorityPrefixOk(s, n + 1); }
  }
}
