/**
 The Wishbone slave and the brute-force solver (sat_slave.py, sat_solver.py) as one circuit:
 `Step` is the state after one clock edge, given the bus signals of the cycle before it.
 */
module SatHardware {
  import opened Machine
  import opened SatFormula

  function Pow2(n: nat): (p: nat)
    ensures p >= 1
  {
    if n == 0 then 1 else 2 * Pow2(n - 1)
  }

  /** Bit `i` of `a`. */
  predicate Bit(a: nat, i: nat) {
    if i == 0 then a % 2 == 1 else Bit(a / 2, i - 1)
  }

  /** Bit `i` is the one that a shift by `i` brings to the right. */
  lemma {:induction false} BitValue(a: nat, i: nat)
    ensures Bit(a, i) <==> a / Pow2(i) % 2 == 1
  {
    if i > 0 {
      BitValue(a / 2, i - 1);
      DivDiv(a, Pow2(i - 1));
    }
  }

  lemma DivDiv(a: nat, k: nat)
    requires k > 0
    ensures a / 2 / k == a / (2 * k)
  {
    var q, r := a / 2 / k, a / 2 % k;
    assert a / 2 == q * k + r;
    assert a == q * (2 * k) + (2 * r + a % 2);
    DivUnique(a, 2 * k, q, 2 * r + a % 2);
  }

  lemma DivUnique(a: nat, d: nat, q: nat, r: nat)
    requires r < d && a == q * d + r
    ensures a / d == q
  {
    var p := a / d;
    assert a == p * d + a % d;
    if p < q { RowsApart(p, q, d); } else if q < p { RowsApart(q, p, d); }
  }

  lemma Pow2Fifteen()
    ensures Pow2(15) == 0x8000
  {
    assert Pow2(5) == 32;
    assert Pow2(10) == 1024;
  }

  lemma {:induction false} Pow2Monotone(m: nat, n: nat)
    requires m <= n
    ensures Pow2(m) <= Pow2(n)
  {
    if m < n { Pow2Monotone(m, n - 1); }
  }

  // ---------- Registers ----------

  /** The formula registers. Literal registers are packed: bits 3-0 variable, 4 negated, 5 used. */
  datatype Problem = Problem(nVars: nat, nClauses: nat, lits: seq<nat>)

  /** The slave's registers. */
  datatype Regs = Regs(ack: bool, start: bool, problem: Problem)

  /** The solver's registers. */
  datatype Solver = Solver(assignment: nat, running: bool, done: bool, sat: bool, model: nat, cycles: nat)

  datatype Device = Device(regs: Regs, solver: Solver)

  /** The signals a bus master drives during one cycle. */
  datatype Bus = Bus(cyc: bool, stb: bool, we: bool, adr: nat, dat: nat)

  const CTRL := 0
  const NVARS := 1
  const NCLAUSES := 2
  const MODEL := 3
  const CYCLES := 4
  const LIT_BASE := 8

  const ResetDevice := Device(Regs(false, false, Problem(0, 0, seq(LIT_COUNT, _ => 0))),
                              Solver(0, false, false, false, 0, 0))

  predicate Sized(p: Problem) { |p.lits| == LIT_COUNT }

  // ---------- Combinational clause evaluation ----------

  predicate LitValue(reg: nat, a: nat) {
    reg / 32 % 2 == 1 && (reg / 16 % 2 == 1) != Bit(a, reg % 16)
  }

  /** Where the register of literal `l` of clause `c` is. */
  function SlotIndex(c: nat, l: nat): (i: nat)
    requires c < MAX_CLAUSES && l < CLAUSE_LEN
    ensures i < LIT_COUNT
  {
    RowsApart(c, MAX_CLAUSES, CLAUSE_LEN);
    c * CLAUSE_LEN + l
  }

  lemma SlotsApart(c: nat, l: nat, c': nat, l': nat)
    requires c < MAX_CLAUSES && c' < MAX_CLAUSES && l < CLAUSE_LEN && l' < CLAUSE_LEN && (c, l) != (c', l')
    ensures SlotIndex(c, l) != SlotIndex(c', l')
  {
    EntriesApart(c, l, c', l', CLAUSE_LEN);
  }

  lemma EntriesApart(c: nat, l: nat, c': nat, l': nat, k: nat)
    requires l < k && l' < k && (c, l) != (c', l')
    ensures c * k + l != c' * k + l'
  {
    if c < c' {
      RowsApart(c, c', k);
    } else if c' < c {
      RowsApart(c', c, k);
    }
  }

  predicate ClauseSat(p: Problem, c: nat, a: nat)
    requires Sized(p) && c < MAX_CLAUSES
  {
    exists l {:trigger LitAt(p, c, l, a)} :: 0 <= l < CLAUSE_LEN && LitAt(p, c, l, a)
  }

  predicate LitAt(p: Problem, c: nat, l: nat, a: nat)
    requires Sized(p) && c < MAX_CLAUSES && l < CLAUSE_LEN
  {
    LitValue(p.lits[SlotIndex(c, l)], a)
  }

  predicate AllSat(p: Problem, a: nat)
    requires Sized(p)
  {
    forall c :: 0 <= c < MAX_CLAUSES ==> c >= p.nClauses || ClauseSat(p, c, a)
  }

  function MaxAssign(nVars: nat): nat { (Pow2(nVars) - 1) % Pow2(MAX_VARS) }

  // ---------- One clock edge ----------

  /** The 20-bit cycle counter. */
  function Count20(n: nat): nat { n % 0x10_0000 }

  lemma CountOn(n: nat)
    ensures Count20(Count20(n) + 1) == Count20(n + 1)
  {
  }

  function SolverStep(p: Problem, start: bool, s: Solver): Solver
    requires Sized(p)
  {
    if start then Solver(0, true, false, false, 0, 0)
    else if s.running then
      var s' := s.(cycles := Count20(s.cycles + 1));
      if AllSat(p, s.assignment) then s'.(done := true, sat := true, model := s.assignment, running := false)
      else if s.assignment == MaxAssign(p.nVars) then s'.(done := true, sat := false, running := false)
      else s'.(assignment := (s.assignment + 1) % Pow2(MAX_VARS))
    else s
  }

  /** The formula registers after a write. */
  function WriteProblem(p: Problem, adr: nat, dat: nat): (p': Problem)
    requires Sized(p)
    ensures Sized(p')
  {
    if adr == NVARS then p.(nVars := dat % 16)
    else if adr == NCLAUSES then p.(nClauses := dat % 32)
    else if LIT_BASE <= adr < LIT_BASE + LIT_COUNT then p.(lits := p.lits[adr - LIT_BASE := dat % 64])
    else p
  }

  /** `start` clears itself after one cycle unless it is written; `ack` answers a request once. */
  function RegsStep(r: Regs, b: Bus): (r': Regs)
    requires Sized(r.problem)
    ensures Sized(r'.problem)
  {
    var request := b.cyc && b.stb && !r.ack;
    Regs(request,
         request && b.we && b.adr == CTRL && b.dat % 2 == 1,
         if request && b.we then WriteProblem(r.problem, b.adr, b.dat) else r.problem)
  }

  function Step(d: Device, b: Bus): Device
    requires Sized(d.regs.problem)
  {
    Device(RegsStep(d.regs, b), SolverStep(d.regs.problem, d.regs.start, d.solver))
  }

  /** The combinational read multiplexer. */
  function DatR(s: Solver, adr: nat): nat {
    if adr == CTRL then (if s.done then 1 else 0) + (if s.sat then 2 else 0)
    else if adr == MODEL then s.model
    else if adr == CYCLES then s.cycles
    else 0
  }

  function Run(d: Device, bs: seq<Bus>): (d': Device)
    requires Sized(d.regs.problem)
    ensures Sized(d'.regs.problem)
    decreases bs
  {
    if bs == [] then d else Run(Step(d, bs[0]), bs[1..])
  }

  lemma {:induction false} RunConcat(d: Device, a: seq<Bus>, b: seq<Bus>)
    requires Sized(d.regs.problem)
    ensures Run(d, a + b) == Run(Run(d, a), b)
    decreases a
  {
    if a == [] {
      assert a + b == b;
    } else {
      assert (a + b)[1..] == a[1..] + b;
      RunConcat(Step(d, a[0]), a[1..], b);
    }
  }

  // ---------- The search ----------

  /** The least assignment from `a` to `max` that satisfies the loaded clauses, if any. */
  function Search(p: Problem, a: nat, max: nat): (m: Option<nat>)
    requires Sized(p) && a <= max
    ensures m.Some? ==> a <= m.value <= max && AllSat(p, m.value) && forall b :: a <= b < m.value ==> !AllSat(p, b)
    ensures m.None? ==> forall b :: a <= b <= max ==> !AllSat(p, b)
    decreases max - a
  {
    if AllSat(p, a) then Some(a)
    else if a == max then None
    else Search(p, a + 1, max)
  }

  predicate Loaded(p: Problem) { Sized(p) && p.nVars <= MAX_VARS }

  /** The verdict on the loaded clauses: the least model, or none of the 2^n assignments. */
  function Verdict(p: Problem): Option<nat>
    requires Loaded(p)
  {
    Search(p, 0, Pow2(p.nVars) - 1)
  }

  /** How many cycles the search takes: model + 1, or all 2^n. */
  function Duration(p: Problem): (t: nat)
    requires Loaded(p)
    ensures 1 <= t <= Pow2(p.nVars)
  {
    match Verdict(p)
    case Some(m) => m + 1
    case None => Pow2(p.nVars)
  }

  /** The solver's state `k` cycles after the edge that took `start`. */
  function SolverAt(p: Problem, k: nat): Solver
    requires Loaded(p)
  {
    var t := Duration(p);
    if k < t then Solver(k, true, false, false, 0, Count20(k))
    else Solver(t - 1, false, true, Verdict(p).Some?, (match Verdict(p) case Some(m) => m case None => 0),
                Count20(t))
  }

  lemma SmallMod(x: nat, m: nat)
    requires x < m
    ensures x % m == x
  {
  }

  lemma MaxAssignExact(n: nat)
    requires n <= MAX_VARS
    ensures MaxAssign(n) == Pow2(n) - 1 && Pow2(n) <= Pow2(MAX_VARS)
  {
    hide Pow2;
    Pow2Monotone(n, MAX_VARS);
    SmallMod(Pow2(n) - 1, Pow2(MAX_VARS));
  }

  /** Before its last cycle the search meets neither a model nor the last assignment. */
  lemma SearchGoesOn(p: Problem, k: nat)
    requires Loaded(p) && k + 1 < Duration(p)
    ensures !AllSat(p, k) && k != MaxAssign(p.nVars) && (k + 1) % Pow2(MAX_VARS) == k + 1
  {
    hide AllSat, Search, MaxAssign, Pow2;
    MaxAssignExact(p.nVars);
    SmallMod(k + 1, Pow2(MAX_VARS));
  }

  /** In its last cycle it has one of the two. */
  lemma SearchFinishes(p: Problem, k: nat)
    requires Loaded(p) && k + 1 == Duration(p)
    ensures if Verdict(p).Some? then AllSat(p, k) && Verdict(p).value == k else !AllSat(p, k) && k == MaxAssign(p.nVars)
  {
    hide AllSat, Search, MaxAssign, Pow2;
    MaxAssignExact(p.nVars);
  }

  /** The clocked search follows the verdict cycle by cycle. */
  lemma SearchStep(p: Problem, k: nat)
    requires Loaded(p)
    ensures SolverStep(p, false, SolverAt(p, k)) == SolverAt(p, k + 1)
  {
    hide AllSat, Verdict, Duration, MaxAssign, Pow2, Count20;
    CountOn(k);
    if k + 1 < Duration(p) {
      SearchGoesOn(p, k);
    } else if k + 1 == Duration(p) {
      SearchFinishes(p, k);
    }
  }

  /**
   While the search runs, every assignment below the counter falsifies the loaded clauses, and each
   cycle either ends the search or brings the counter one nearer to its maximum.
   */
  lemma SearchInvariant(p: Problem, k: nat)
    requires Loaded(p) && SolverAt(p, k).running
    ensures var s, s' := SolverAt(p, k), SolverStep(p, false, SolverAt(p, k));
            && (forall a :: 0 <= a < s.assignment ==> !AllSat(p, a))
            && (s'.running ==> s.assignment < s'.assignment <= MaxAssign(p.nVars))
            && (!s'.running ==> s'.done && (s'.sat <==> AllSat(p, s.assignment)))
  {
    hide AllSat, MaxAssign, Pow2;
    MaxAssignExact(p.nVars);
    SearchStep(p, k);
  }

  // ---------- Runs of the bus ----------

  predicate Writes(b: Bus) { b.cyc && b.stb && b.we }

  /** From an idle bus, the search of the loaded formula has been going for `k` cycles. */
  predicate Searching(d: Device, k: nat) {
    Loaded(d.regs.problem) && !d.regs.start && d.solver == SolverAt(d.regs.problem, k)
  }

  /** While nothing is written, the formula registers stay and the search goes on, whatever is read. */
  lemma {:induction false} SearchRun(d: Device, k: nat, bs: seq<Bus>)
    requires Searching(d, k) && forall i :: 0 <= i < |bs| ==> !Writes(bs[i])
    ensures Searching(Run(d, bs), k + |bs|) && Run(d, bs).regs.problem == d.regs.problem
    decreases bs
  {
    if bs != [] {
      SearchStep(d.regs.problem, k);
      assert !Writes(bs[0]);
      SearchRun(Step(d, bs[0]), k + 1, bs[1..]);
    }
  }

  /** The write that starts the search starts it afresh, whatever the solver was doing. */
  lemma Restart(d: Device, dat: nat)
    requires Loaded(d.regs.problem) && !d.regs.ack && dat % 2 == 1
    ensures var w := Bus(true, true, true, CTRL, dat);
            Searching(Run(d, [w, w]), 0) && Run(d, [w, w]).regs.problem == d.regs.problem
  {
    hide AllSat, MaxAssign, Search, Pow2;
    var w := Bus(true, true, true, CTRL, dat);
    assert [w, w][1..] == [w] && [w][1..] == [];
    assert Run(d, [w, w]) == Run(Step(d, w), [w]) == Step(Step(d, w), w);
  }

  /** What the host can read off a search: the verdict once it is done, and its length in cycles. */
  lemma ResultAt(p: Problem, k: nat)
    requires Loaded(p)
    ensures var s := SolverAt(p, k);
            && (s.done <==> k >= Duration(p))
            && (s.done ==>
                  && (s.sat <==> exists a :: 0 <= a < Pow2(p.nVars) && AllSat(p, a))
                  && (s.sat ==>
                        && AllSat(p, s.model) && s.model + 1 == Duration(p)
                        && forall a :: 0 <= a < s.model ==> !AllSat(p, a))
                  && (!s.sat ==> Duration(p) == Pow2(p.nVars))
                  && s.cycles == Duration(p))
            && DatR(s, 0) % 2 == (if s.done then 1 else 0) && DatR(s, 0) / 2 == (if s.sat then 1 else 0)
            && DatR(s, 3) == s.model && DatR(s, 4) == s.cycles
  {
    hide AllSat, Search, Pow2;
    Pow2Monotone(p.nVars, 15);
    Pow2Fifteen();
    SmallMod(Duration(p), 0x10_0000);
  }

  /**
   No stale result, from any state with the bus idle, even in the middle of another search: after a
   classic write of 1 to CTRL and any number of clocks without a write, `done` means that the search
   of the formula now loaded has ended, with the least model or with none of the 2^n assignments.
   */
  lemma NoStaleResult(d: Device, dat: nat, bs: seq<Bus>)
    requires Loaded(d.regs.problem) && !d.regs.ack && dat % 2 == 1
    requires forall i :: 0 <= i < |bs| ==> !Writes(bs[i])
    ensures var w, p := Bus(true, true, true, CTRL, dat), d.regs.problem;
            var d' := Run(d, [w, w] + bs);
            && d'.regs.problem == p
            && (d'.solver.done <==> |bs| >= Duration(p))
            && (d'.solver.done ==>
                  && (d'.solver.sat <==> exists a :: 0 <= a < Pow2(p.nVars) && AllSat(p, a))
                  && (d'.solver.sat ==>
                        && AllSat(p, d'.solver.model) && d'.solver.model + 1 == Duration(p)
                        && forall a :: 0 <= a < d'.solver.model ==> !AllSat(p, a))
                  && (!d'.solver.sat ==> Duration(p) == Pow2(p.nVars))
                  && d'.solver.cycles == Duration(p))
            && DatR(d'.solver, 0) % 2 == (if d'.solver.done then 1 else 0)
            && DatR(d'.solver, 0) / 2 == (if d'.solver.sat then 1 else 0)
            && DatR(d'.solver, 3) == d'.solver.model && DatR(d'.solver, 4) == d'.solver.cycles
  {
    hide AllSat, Run, SolverAt, DatR, Duration, Pow2;
    var w := Bus(true, true, true, CTRL, dat);
    Restart(d, dat);
    RunConcat(d, [w, w], bs);
    SearchRun(Run(d, [w, w]), 0, bs);
    ResultAt(d.regs.problem, |bs|);
  }

  // ---------- Classic single cycles ----------

  const IDLE := Bus(false, false, false, 0, 0)

  function Request(we: bool, adr: nat, dat: nat): Bus { Bus(true, true, we, adr, dat) }

  /** `gap` clocks in which the master addresses nothing here. */
  function Gap(gap: nat): seq<Bus> { seq(gap, _ => IDLE) }

  /** The device in the cycle that acknowledges a request issued after `gap` idle clocks. */
  function Acked(d: Device, gap: nat, req: Bus): (d': Device)
    requires Sized(d.regs.problem)
    ensures Sized(d'.regs.problem)
  {
    Step(Run(d, Gap(gap)), req)
  }

  /** The device after the transaction; the request is still asserted in the acknowledge cycle. */
  function Transact(d: Device, gap: nat, req: Bus): (d': Device)
    requires Sized(d.regs.problem)
    ensures Sized(d'.regs.problem)
  {
    Step(Acked(d, gap, req), req)
  }

  /** Bus and search both at rest. */
  predicate Quiet(d: Device) {
    Sized(d.regs.problem) && !d.regs.ack && !d.regs.start && !d.solver.running
  }

  lemma {:induction false} QuietStays(d: Device, gap: nat)
    requires Quiet(d)
    ensures Run(d, Gap(gap)) == d
  {
    if gap > 0 {
      assert Gap(gap)[1..] == Gap(gap - 1);
      QuietStays(d, gap - 1);
    }
  }

  lemma QuietWrite(d: Device, gap: nat, adr: nat, dat: nat)
    requires Quiet(d) && adr != CTRL
    ensures Transact(d, gap, Request(true, adr, dat)) ==
            d.(regs := d.regs.(problem := WriteProblem(d.regs.problem, adr, dat)))
    ensures var p, p' := d.regs.problem, WriteProblem(d.regs.problem, adr, dat);
            && p'.nVars == (if adr == 1 then dat % 16 else p.nVars)
            && p'.nClauses == (if adr == 2 then dat % 32 else p.nClauses)
            && |p'.lits| == |p.lits|
            && forall i :: 0 <= i < |p.lits| ==> p'.lits[i] == if adr == 8 + i then dat % 64 else p.lits[i]
  {
    QuietStays(d, gap);
  }

  lemma StartWrite(d: Device, gap: nat)
    requires Quiet(d) && Loaded(d.regs.problem)
    ensures var d' := Transact(d, gap, Request(true, CTRL, 1));
            Searching(d', 0) && !d'.regs.ack && d'.regs.problem == d.regs.problem
  {
    QuietStays(d, gap);
  }

  lemma {:induction false} AckStaysLow(d: Device, gap: nat)
    requires Sized(d.regs.problem) && !d.regs.ack
    ensures !Run(d, Gap(gap)).regs.ack
    decreases gap
  {
    if gap > 0 {
      assert Gap(gap)[1..] == Gap(gap - 1);
      AckStaysLow(Step(d, IDLE), gap - 1);
    }
  }

  /** A read during or after the search sees it `gap + 1` cycles on, and changes nothing. */
  lemma SearchingRead(d: Device, k: nat, gap: nat, adr: nat)
    requires Searching(d, k) && !d.regs.ack
    ensures var req, p := Request(false, adr, 0), d.regs.problem;
            var d1, d2 := Acked(d, gap, req), Transact(d, gap, req);
            && d1.regs.ack && !d2.regs.ack && d1.regs.problem == p == d2.regs.problem
            && Searching(d1, k + gap + 1) && Searching(d2, k + gap + 2)
  {
    hide SolverAt, SolverStep;
    AckStaysLow(d, gap);
    SearchRun(d, k, Gap(gap));
    SearchStep(d.regs.problem, k + gap);
    SearchStep(d.regs.problem, k + gap + 1);
  }
}
