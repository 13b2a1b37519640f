/**
 The byte protocol between host and firmware: what sat_host.py sends and understands, and what
 sat_tcp.c makes of a packet, as functions of the bytes alone.
 */
module SatProtocol {
  import opened Machine
  import opened SatFormula
  import opened SatHardware

  const PROTO_START: Byte := 0xAA
  const PROTO_END: Byte := 0xFF
  const PROTO_TERM: Byte := 0x00
  const RESP_SAT: Byte := 0x01
  const RESP_UNSAT: Byte := 0x00

  // ---------- Host to firmware ----------

  /** One literal: bit 7 is the sign, bits 6-0 the variable number. */
  function LitByte(l: int): Byte {
    if l > 0 then l % 128 else -l % 128 + 128
  }

  function EncodeClause(cl: Clause): seq<Byte> {
    if cl == [] then [PROTO_TERM] else [LitByte(cl[0])] + EncodeClause(cl[1..])
  }

  function EncodeClauses(f: Formula): seq<Byte> {
    if f == [] then [PROTO_END] else EncodeClause(f[0]) + EncodeClauses(f[1..])
  }

  function Encode(n: nat, f: Formula): seq<Byte> {
    [PROTO_START, n % 256, |f| % 256] + EncodeClauses(f)
  }

  /** The packet the firmware accepts. */
  predicate HeaderOk(pkt: seq<Byte>) {
    |pkt| >= 4 && pkt[0] == PROTO_START && 1 <= pkt[1] <= MAX_VARS && 1 <= pkt[2] <= MAX_CLAUSES
  }

  /**
   The word the firmware writes for a literal byte: bit 5, the sign at bit 4 and the 8-bit variable
   index, or-ed together, so that an index of 16 or more can run into the sign and used bits.
   */
  function LitWord(b: Byte): nat {
    var v := (b % 128 + 255) % 256;
    var bit4 := if b >= 128 || v / 16 % 2 == 1 then 16 else 0;
    v / 64 * 64 + 32 + bit4 + v % 16
  }

  /** The literal registers after the firmware's parse loop has consumed `bs`. */
  function Parse(bs: seq<Byte>, clause: nat, lit: nat, nClauses: nat, lits: seq<nat>): (r: seq<nat>)
    requires |lits| == LIT_COUNT && nClauses <= MAX_CLAUSES && lit <= CLAUSE_LEN
    ensures |r| == LIT_COUNT
    decreases bs
  {
    if bs == [] || clause >= nClauses || bs[0] == PROTO_END then lits
    else if bs[0] == PROTO_TERM then Parse(bs[1..], clause + 1, 0, nClauses, lits)
    else if lit < CLAUSE_LEN then
      Parse(bs[1..], clause, lit + 1, nClauses, lits[SlotIndex(clause, lit) := LitWord(bs[0]) % 64])
    else Parse(bs[1..], clause, lit, nClauses, lits)
  }

  /** What the firmware writes is the bitwise or of the used bit, the sign at bit 4 and the variable index. */
  lemma LitWordBits(b: Byte)
    ensures var v := (b % 128 + 255) % 256;
            && LitWord(b) % 16 == v % 16 && (LitWord(b) / 16 % 2 == 1 <==> b >= 128 || v / 16 % 2 == 1)
            && LitWord(b) / 32 % 2 == 1 && LitWord(b) / 64 == v / 64
  {
    var v := (b % 128 + 255) % 256;
    PackedBits(v % 16, b >= 128 || v / 16 % 2 == 1, v / 64);
  }

  lemma PackedBits(low: nat, bit4: bool, high: nat)
    requires low < 16
    ensures var w := high * 64 + 32 + (if bit4 then 16 else 0) + low;
            && w % 16 == low && (w / 16 % 2 == 1 <==> bit4) && w / 32 % 2 == 1 && w / 64 == high
  {
    var b := if bit4 then 1 else 0;
    var w := high * 64 + 32 + b * 16 + low;
    DivUnique(w, 16, high * 4 + 2 + b, low);
    DivUnique(w, 32, high * 2 + 1, b * 16 + low);
    DivUnique(w, 64, high, 32 + b * 16 + low);
  }

  /** The bytes of a packet body by clause: a zero byte ends a clause, and 0xFF ends them all. */
  function Groups(bs: seq<Byte>): (g: seq<seq<Byte>>)
    ensures g != []
  {
    if bs == [] || bs[0] == 0xFF then [[]]
    else if bs[0] == 0 then [[]] + Groups(bs[1..])
    else
      var g := Groups(bs[1..]);
      [[bs[0]] + g[0]] + g[1..]
  }

  /** The byte that slot `l` of clause `c` takes, with `lit` slots of clause `clause` already taken. */
  function ByteFor(bs: seq<Byte>, clause: nat, lit: nat, c: nat, l: nat): Option<Byte> {
    var g := Groups(bs);
    if c < clause || c - clause >= |g| then None
    else
      var at := if c == clause then l - lit else l;
      if 0 <= at < |g[c - clause]| then Some(g[c - clause][at]) else None
  }

  lemma ByteForStep(bs: seq<Byte>, clause: nat, lit: nat, c: nat, l: nat)
    requires bs != [] && bs[0] != 0xFF
    ensures ByteFor(bs, clause, lit, c, l) ==
            if bs[0] == 0 then ByteFor(bs[1..], clause + 1, 0, c, l)
            else if (c, l) == (clause, lit) then Some(bs[0])
            else ByteFor(bs[1..], clause, lit + 1, c, l)
  {
    var g := Groups(bs[1..]);
    assert Groups(bs) == if bs[0] == 0 then [[]] + g else [[bs[0]] + g[0]] + g[1..];
    hide Groups;
  }

  /** For any bytes: each slot gets the literal in its place of its clause, and the rest is ignored. */
  lemma {:induction false} ParseAt(bs: seq<Byte>, clause: nat, lit: nat, nClauses: nat, lits: seq<nat>, c: nat, l: nat)
    requires |lits| == LIT_COUNT && nClauses <= MAX_CLAUSES && lit <= CLAUSE_LEN && c < MAX_CLAUSES && l < CLAUSE_LEN
    ensures var b := ByteFor(bs, clause, lit, c, l);
            Parse(bs, clause, lit, nClauses, lits)[SlotIndex(c, l)] ==
            if c < nClauses && b.Some? then LitWord(b.value) % 64 else lits[SlotIndex(c, l)]
    decreases bs
  {
    hide SlotIndex, LitWord;
    if bs == [] || clause >= nClauses || bs[0] == PROTO_END {
      return;
    }
    hide ByteFor;
    ByteForStep(bs, clause, lit, c, l);
    if bs[0] == PROTO_TERM {
      ParseAt(bs[1..], clause + 1, 0, nClauses, lits, c, l);
    } else if lit < CLAUSE_LEN {
      ParseAt(bs[1..], clause, lit + 1, nClauses, lits[SlotIndex(clause, lit) := LitWord(bs[0]) % 64], c, l);
      if (c, l) != (clause, lit) { SlotsApart(clause, lit, c, l); }
    } else {
      ParseAt(bs[1..], clause, lit, nClauses, lits, c, l);
    }
  }

  /** The registers that any accepted packet loads, by their numbers. */
  lemma ParsedRegisters(pkt: seq<Byte>, c: nat, l: nat)
    requires HeaderOk(pkt) && c < MAX_CLAUSES && l < CLAUSE_LEN
    ensures c * CLAUSE_LEN + l < LIT_COUNT
    ensures var g, p := Groups(pkt[3..]), LoadedProblem(pkt);
            && p.nVars == pkt[1] && p.nClauses == pkt[2]
            && p.lits[c * CLAUSE_LEN + l] ==
               if c < pkt[2] && c < |g| && l < |g[c]| then LitWord(g[c][l]) % 64 else 0
  {
    hide LitWord;
    ParseAt(pkt[3..], 0, 0, pkt[2], Cleared(), c, l);
    assert SlotIndex(c, l) == c * CLAUSE_LEN + l;
  }

  function Cleared(): seq<nat> { seq(LIT_COUNT, _ => 0) }

  /** What an accepted packet loads into the formula registers. */
  function LoadedProblem(pkt: seq<Byte>): (p: Problem)
    requires HeaderOk(pkt)
    ensures Loaded(p)
  {
    Problem(pkt[1], pkt[2], Parse(pkt[3..], 0, 0, pkt[2], Cleared()))
  }

  // ---------- Firmware to host ----------

  /** The assignment bytes for variables `i + 1` to `n`. */
  function ModelBytes(model: nat, i: nat, n: nat): (bs: seq<Byte>)
    requires i <= n <= MAX_VARS
    ensures |bs| == n - i
    decreases n - i
  {
    if i == n then []
    else [(if Bit(model, i) then 128 else 0) + (i + 1) % 128] + ModelBytes(model, i + 1, n)
  }

  function Response(verdict: Option<nat>, n: nat): (bs: seq<Byte>)
    requires n <= MAX_VARS
    ensures |bs| == if verdict.Some? then n + 2 else 2
  {
    match verdict
    case Some(model) => [RESP_SAT] + ModelBytes(model, 0, n) + [PROTO_END]
    case None => [RESP_UNSAT, PROTO_END]
  }

  lemma {:induction false} ModelBytesAt(model: nat, i: nat, n: nat, k: nat)
    requires i <= k < n <= MAX_VARS
    ensures ModelBytes(model, i, n)[k - i] == k + 1 + (if Bit(model, k) then 128 else 0)
    decreases n - i
  {
    hide Bit;
    if i < k { ModelBytesAt(model, i + 1, n, k); }
  }

  lemma ResponseBytes(model: nat, n: nat)
    requires n <= MAX_VARS
    ensures var bs := Response(Some(model), n);
            && bs[0] == 0x01 && bs[n + 1] == 0xFF
            && forall i :: 0 <= i < n ==> bs[i + 1] == i + 1 + (if Bit(model, i) then 128 else 0)
  {
    hide Bit;
    forall i | 0 <= i < n ensures Response(Some(model), n)[i + 1] == i + 1 + (if Bit(model, i) then 128 else 0) {
      ModelBytesAt(model, 0, n, i);
    }
  }

  /** The firmware's answer to a packet: a function of its first 512 bytes, or no answer at all. */
  function Reply(pkt: seq<Byte>): Option<seq<Byte>> {
    if HeaderOk(pkt) then Some(Response(Verdict(LoadedProblem(pkt)), pkt[1])) else None
  }

  lemma ReplyKind(pkt: seq<Byte>)
    ensures var reply := Reply(pkt);
            reply.Some? ==>
              && |pkt| >= 4
              && (reply.value == [0x00, 0xFF] || (|reply.value| == pkt[1] + 2 && reply.value[0] == 0x01))
  {
    hide LoadedProblem, Verdict, ModelBytes;
  }

  /** The result dictionary; variable names are their numbers. */
  datatype Result = Timeout | Unsat | Sat(assignment: map<nat, bool>) | Error

  function DecodeAssignments(bs: seq<Byte>, m: map<nat, bool>): map<nat, bool> {
    if bs == [] || bs[0] == PROTO_END then m
    else DecodeAssignments(bs[1..], m[bs[0] % 128 := bs[0] / 128 == 1])
  }

  function Decode(data: seq<Byte>): Result {
    if data == [] then Timeout
    else if data[0] == RESP_UNSAT then Unsat
    else if data[0] == RESP_SAT then Sat(DecodeAssignments(data[1..], map[]))
    else Error
  }

  /**
   What `solve` makes of the bytes in its socket, and of whether the connection is then closed or
   silent: it reads one byte, then one or n + 1 more, and a silent wait for any of them times out.
   */
  function HostResult(stream: seq<Byte>, n: nat, closed: bool): Result {
    if stream == [] then Timeout
    else if stream[0] == RESP_UNSAT then
      if |stream| < 2 && !closed then Timeout else Decode([RESP_UNSAT, PROTO_END])
    else if stream[0] == RESP_SAT then
      if n + 2 <= |stream| then Decode(stream[..n + 2]) else if closed then Decode(stream) else Timeout
    else Error
  }

  // ---------- Encode and parse ----------

  /** A literal of a variable up to 15 as its register must hold it: used, sign, index. */
  function LitReg(l: int): nat { 32 + (if l > 0 then l - 1 else 16 - l - 1) }

  lemma LitWordOfIndex(k: nat, neg: bool)
    requires 1 <= k <= 15
    ensures LitWord(if neg then k + 128 else k) == 32 + (if neg then 16 else 0) + k - 1
  {
    var b: Byte := if neg then k + 128 else k;
    assert b % 128 == k;
    var v := (b % 128 + 255) % 256;
    assert v == k - 1 && v / 64 == 0 && v / 16 == 0 && v % 16 == v;
  }

  lemma LitRoundTrip(n: nat, l: int)
    requires n <= MAX_VARS && IsLiteral(n, l)
    ensures LitWord(LitByte(l)) % 64 == LitReg(l)
    ensures LitByte(l) != PROTO_TERM && LitByte(l) != PROTO_END
  {
    hide LitWord;
    LitWordOfIndex(if l > 0 then l else -l, l < 0);
  }

  /** The literal registers with clause `c` stored from slot `l` on. */
  function StoreClause(lits: seq<nat>, c: nat, l: nat, cl: Clause): (r: seq<nat>)
    requires |lits| == LIT_COUNT && c < MAX_CLAUSES && l + |cl| <= CLAUSE_LEN
    ensures |r| == LIT_COUNT
    decreases cl
  {
    if cl == [] then lits
    else
      StoreClause(lits[SlotIndex(c, l) := LitReg(cl[0])], c, l + 1, cl[1..])
  }

  function StoreClauses(lits: seq<nat>, c: nat, n: nat, f: Formula): (r: seq<nat>)
    requires |lits| == LIT_COUNT && c + |f| <= MAX_CLAUSES && forall i :: 0 <= i < |f| ==> WellFormedClause(n, f[i])
    ensures |r| == LIT_COUNT
    decreases f
  {
    if f == [] then lits
    else
      assert WellFormedClause(n, f[0]);
      StoreClauses(StoreClause(lits, c, 0, f[0]), c + 1, n, f[1..])
  }

  lemma {:induction false} ParseClause(lits: seq<nat>, c: nat, l: nat, n: nat, cl: Clause, nClauses: nat,
                                       rest: seq<Byte>)
    requires |lits| == LIT_COUNT && c < nClauses <= MAX_CLAUSES && l + |cl| <= CLAUSE_LEN && n <= MAX_VARS
    requires forall i :: 0 <= i < |cl| ==> IsLiteral(n, cl[i])
    ensures Parse(EncodeClause(cl) + rest, c, l, nClauses, lits) ==
            Parse(rest, c + 1, 0, nClauses, StoreClause(lits, c, l, cl))
    decreases cl
  {
    hide SlotIndex, LitWord, LitByte;
    var bs := EncodeClause(cl) + rest;
    if cl == [] {
      assert bs[1..] == rest;
    } else {
      LitRoundTrip(n, cl[0]);
      assert bs[1..] == EncodeClause(cl[1..]) + rest;
      ParseClause(lits[SlotIndex(c, l) := LitReg(cl[0])], c, l + 1, n, cl[1..], nClauses, rest);
    }
  }

  lemma {:induction false} ParseClauses(lits: seq<nat>, c: nat, n: nat, f: Formula, nClauses: nat)
    requires |lits| == LIT_COUNT && c + |f| == nClauses <= MAX_CLAUSES && n <= MAX_VARS
    requires forall i :: 0 <= i < |f| ==> WellFormedClause(n, f[i])
    ensures Parse(EncodeClauses(f), c, 0, nClauses, lits) == StoreClauses(lits, c, n, f)
    decreases f
  {
    if f != [] {
      ParseClause(lits, c, 0, n, f[0], nClauses, EncodeClauses(f[1..]));
      ParseClauses(StoreClause(lits, c, 0, f[0]), c + 1, n, f[1..], nClauses);
    }
  }

  /** What slot `l` of clause `c` must hold for the formula: its literal, or zero for unused. */
  function Slot(f: Formula, c: nat, l: nat): nat {
    if c < |f| && l < |f[c]| then LitReg(f[c][l]) else 0
  }

  lemma {:induction false} StoreClauseAt(lits: seq<nat>, c: nat, l: nat, cl: Clause, c': nat, l': nat)
    requires |lits| == LIT_COUNT && c < MAX_CLAUSES && l + |cl| <= CLAUSE_LEN
    requires c' < MAX_CLAUSES && l' < CLAUSE_LEN
    ensures StoreClause(lits, c, l, cl)[SlotIndex(c', l')] ==
            if c' == c && l <= l' < l + |cl| then LitReg(cl[l' - l]) else lits[SlotIndex(c', l')]
    decreases cl
  {
    hide SlotIndex, LitReg;
    if cl != [] {
      StoreClauseAt(lits[SlotIndex(c, l) := LitReg(cl[0])], c, l + 1, cl[1..], c', l');
      if (c', l') != (c, l) { SlotsApart(c, l, c', l'); }
    }
  }

  lemma {:induction false} StoreClausesAt(lits: seq<nat>, c: nat, n: nat, f: Formula, c': nat, l': nat)
    requires |lits| == LIT_COUNT && c + |f| <= MAX_CLAUSES && forall i :: 0 <= i < |f| ==> WellFormedClause(n, f[i])
    requires c' < MAX_CLAUSES && l' < CLAUSE_LEN
    ensures StoreClauses(lits, c, n, f)[SlotIndex(c', l')] ==
            if c <= c' < c + |f| && l' < |f[c' - c]| then LitReg(f[c' - c][l']) else lits[SlotIndex(c', l')]
    decreases f
  {
    hide SlotIndex, LitReg, StoreClause;
    if f != [] {
      StoreClausesAt(StoreClause(lits, c, 0, f[0]), c + 1, n, f[1..], c', l');
      StoreClauseAt(lits, c, 0, f[0], c', l');
    }
  }

  /**
   Encode and parse round trip: the firmware accepts an encoded formula and loads exactly its
   literals into their slots, with every other slot unused.
   */
  lemma EncodeParse(n: nat, f: Formula)
    requires WellFormed(n, f)
    ensures HeaderOk(Encode(n, f))
    ensures var p := LoadedProblem(Encode(n, f));
            && p.nVars == n && p.nClauses == |f|
            && forall c, l | 0 <= c < MAX_CLAUSES && 0 <= l < CLAUSE_LEN ::
                 p.lits[SlotIndex(c, l)] == Slot(f, c, l)
  {
    hide SlotIndex, LitReg;
    var pkt := Encode(n, f);
    assert |EncodeClauses(f)| >= 1;
    assert pkt[3..] == EncodeClauses(f);
    ParseClauses(Cleared(), 0, n, f, |f|);
    forall c, l | 0 <= c < MAX_CLAUSES && 0 <= l < CLAUSE_LEN
      ensures LoadedProblem(pkt).lits[SlotIndex(c, l)] == Slot(f, c, l)
    {
      StoreClausesAt(Cleared(), 0, n, f, c, l);
    }
  }

  /** The same in register numbers and register bits: used 32, negated 16, and the 0-based variable. */
  lemma EncodeRegisters(n: nat, f: Formula, c: nat, l: nat)
    requires WellFormed(n, f) && c < MAX_CLAUSES && l < CLAUSE_LEN
    ensures HeaderOk(Encode(n, f)) && c * CLAUSE_LEN + l < LIT_COUNT
    ensures LoadedProblem(Encode(n, f)).lits[c * CLAUSE_LEN + l] ==
            if c < |f| && l < |f[c]| then (if f[c][l] > 0 then 32 + f[c][l] - 1 else 32 + 16 - f[c][l] - 1) else 0
  {
    hide LoadedProblem, Encode;
    EncodeParse(n, f);
    assert SlotIndex(c, l) == c * CLAUSE_LEN + l;
  }

  /** The packet of a formula, byte by byte: variable numbers, with 128 added where negated, by clause. */
  lemma {:induction false} EncodeGroups(n: nat, f: Formula)
    requires n <= MAX_VARS && forall i :: 0 <= i < |f| ==> WellFormedClause(n, f[i])
    ensures var g := Groups(EncodeClauses(f));
            && |g| == |f| + 1 && g[|f|] == [] && (forall c :: 0 <= c < |f| ==> GroupOf(f[c], g[c]))
  {
    hide EncodeClause, GroupOf;
    if f != [] {
      EncodeGroups(n, f[1..]);
      ClauseGroup(n, f[0], EncodeClauses(f[1..]));
    }
  }

  predicate GroupOf(cl: Clause, g: seq<Byte>) {
    |g| == |cl| && forall l :: 0 <= l < |cl| ==> g[l] == if cl[l] > 0 then cl[l] else 128 - cl[l]
  }

  lemma LitByteValue(n: nat, l: int)
    requires n <= MAX_VARS && IsLiteral(n, l)
    ensures LitByte(l) == if l > 0 then l else 128 - l
    ensures LitByte(l) != 0 && LitByte(l) != 0xFF
  {
  }

  lemma {:induction false} ClauseGroup(n: nat, cl: Clause, rest: seq<Byte>)
    requires n <= MAX_VARS && forall l :: 0 <= l < |cl| ==> IsLiteral(n, cl[l])
    ensures var g := Groups(EncodeClause(cl) + rest);
            GroupOf(cl, g[0]) && g[1..] == Groups(rest)
  {
    hide LitByte;
    var bs := EncodeClause(cl) + rest;
    if cl == [] {
      assert bs[1..] == rest;
    } else {
      assert bs[1..] == EncodeClause(cl[1..]) + rest;
      LitByteValue(n, cl[0]);
      ClauseGroup(n, cl[1..], rest);
    }
  }

  lemma {:induction false} EncodeClauseLength(cl: Clause)
    ensures |EncodeClause(cl)| == |cl| + 1
  {
    if cl != [] { EncodeClauseLength(cl[1..]); }
  }

  lemma {:induction false} EncodeClausesLength(n: nat, f: Formula)
    requires forall i :: 0 <= i < |f| ==> WellFormedClause(n, f[i])
    ensures 1 <= |EncodeClauses(f)| <= |f| * (CLAUSE_LEN + 1) + 1
  {
    hide EncodeClause;
    if f != [] {
      EncodeClauseLength(f[0]);
      EncodeClausesLength(n, f[1..]);
      assert |f| * (CLAUSE_LEN + 1) == |f[1..]| * (CLAUSE_LEN + 1) + (CLAUSE_LEN + 1);
    }
  }

  /** An encoded formula fits the firmware's buffer. */
  lemma EncodeFits(n: nat, f: Formula)
    requires WellFormed(n, f)
    ensures |Encode(n, f)| <= 512
  {
    hide EncodeClauses;
    EncodeClausesLength(n, f);
    if |f| < MAX_CLAUSES { RowsApart(|f|, MAX_CLAUSES, CLAUSE_LEN + 1); }
  }

  // ---------- Response and decode ----------

  /** The assignment that the bits of a model stand for. */
  function Values(model: nat, n: nat): (v: seq<bool>)
    ensures |v| == n
  {
    seq(n, i requires 0 <= i < n => Bit(model, i))
  }

  /** A dictionary that holds exactly the values of variables 1 to |v|. */
  ghost predicate Holds(m: map<nat, bool>, v: seq<bool>) {
    forall x: nat :: (x in m <==> 0 < x <= |v|) && (x in m && 0 < x <= |v| ==> m[x] == v[x - 1])
  }

  lemma {:induction false} DecodeModel(model: nat, i: nat, n: nat, m: map<nat, bool>)
    requires i <= n <= MAX_VARS && Holds(m, Values(model, i))
    ensures Holds(DecodeAssignments(ModelBytes(model, i, n) + [PROTO_END], m), Values(model, n))
    decreases n - i
  {
    hide Bit;
    var bs := ModelBytes(model, i, n) + [PROTO_END];
    if i < n {
      assert bs[1..] == ModelBytes(model, i + 1, n) + [PROTO_END];
      assert bs[0] % 128 == i + 1 && (bs[0] / 128 == 1) == Bit(model, i);
      DecodeModel(model, i + 1, n, m[i + 1 := Bit(model, i)]);
    }
  }

  /** The host reads exactly the response and recovers the verdict, value by value. */
  lemma DecodeResponse(verdict: Option<nat>, n: nat, closed: bool)
    requires n <= MAX_VARS
    ensures var r := HostResult(Response(verdict, n), n, closed);
            if verdict.Some? then r.Sat? && Holds(r.assignment, Values(verdict.value, n)) else r.Unsat?
  {
    if verdict.Some? {
      var bs := Response(verdict, n);
      assert bs[..n + 2] == bs && bs[1..] == ModelBytes(verdict.value, 0, n) + [PROTO_END];
      DecodeModel(verdict.value, 0, n, map[]);
    }
  }

  // ---------- The answer is right ----------

  /** The assignment number whose bits are `v`. */
  function Number(v: seq<bool>): nat {
    if v == [] then 0 else (if v[0] then 1 else 0) + 2 * Number(v[1..])
  }

  lemma {:induction false} NumberBits(v: seq<bool>)
    ensures Number(v) < Pow2(|v|) && Values(Number(v), |v|) == v
  {
    if v != [] {
      NumberBits(v[1..]);
      var rest := Number(v[1..]);
      assert Number(v) / 2 == rest && (Number(v) % 2 == 1) == v[0];
      forall i | 0 <= i < |v| ensures Bit(Number(v), i) == v[i] {
        if i > 0 { assert v[1..][i - 1] == Values(rest, |v| - 1)[i - 1]; }
      }
    }
  }

  /** A literal register evaluates like its literal. */
  lemma LitRegTrue(l: int, a: nat, n: nat)
    requires n <= MAX_VARS && IsLiteral(n, l)
    ensures LitValue(LitReg(l), a) == LiteralTrue(Values(a, n), l)
  {
    var x := LitReg(l);
    assert x / 32 % 2 == 1 && x % 16 == (if l > 0 then l - 1 else -l - 1) && (x / 16 % 2 == 1) == (l < 0);
  }

  lemma SlotAgrees(p: Problem, n: nat, f: Formula, c: nat, l: nat, a: nat)
    requires Sized(p) && WellFormed(n, f) && c < |f| && l < CLAUSE_LEN
    requires p.lits[SlotIndex(c, l)] == Slot(f, c, l)
    ensures WellFormedClause(n, f[c])
    ensures LitAt(p, c, l, a) <==> l < |f[c]| && LiteralTrue(Values(a, n), f[c][l])
  {
    hide LitReg, SlotIndex;
    assert WellFormedClause(n, f[c]);
    if l < |f[c]| {
      assert IsLiteral(n, f[c][l]);
      LitRegTrue(f[c][l], a, n);
    }
  }

  lemma ClauseAgrees(p: Problem, n: nat, f: Formula, c: nat, a: nat)
    requires Sized(p) && WellFormed(n, f) && c < |f|
    requires forall l | 0 <= l < CLAUSE_LEN ::
               p.lits[SlotIndex(c, l)] == Slot(f, c, l)
    ensures WellFormedClause(n, f[c])
    ensures ClauseSat(p, c, a) <==> ClauseTrue(Values(a, n), f[c])
  {
    hide LitAt, LiteralTrue, Slot, Values, SlotIndex;
    assert WellFormedClause(n, f[c]);
    forall l | 0 <= l < CLAUSE_LEN
      ensures LitAt(p, c, l, a) <==> l < |f[c]| && LiteralTrue(Values(a, n), f[c][l])
    {
      SlotAgrees(p, n, f, c, l, a);
    }
    if ClauseTrue(Values(a, n), f[c]) {
      var l :| 0 <= l < |f[c]| && LiteralTrue(Values(a, n), f[c][l]);
      assert LitAt(p, c, l, a);
    }
  }

  /** The circuit's verdict on an assignment is the formula's. */
  lemma CircuitAgrees(n: nat, f: Formula, a: nat)
    requires WellFormed(n, f)
    ensures HeaderOk(Encode(n, f))
    ensures AllSat(LoadedProblem(Encode(n, f)), a) <==> Satisfies(Values(a, n), f)
  {
    hide LoadedProblem, ClauseSat, Slot, Encode, HeaderOk, ClauseTrue, SlotIndex;
    EncodeParse(n, f);
    var p := LoadedProblem(Encode(n, f));
    forall c | 0 <= c < |f| ensures ClauseSat(p, c, a) <==> ClauseTrue(Values(a, n), f[c]) {
      ClauseAgrees(p, n, f, c, a);
    }
  }

  /**
   End to end, as functions of the bytes: the firmware answers an encoded formula, and what the host
   reads is SAT with a satisfying value for every variable when there is one, and UNSAT when not.
   */
  lemma ReplyIsRight(n: nat, f: Formula, closed: bool)
    requires WellFormed(n, f)
    ensures var reply := Reply(Encode(n, f));
            && reply.Some?
            && var r := HostResult(reply.value, n, closed);
               if Satisfiable(n, f)
               then r.Sat? && exists v: seq<bool> :: |v| == n && Satisfies(v, f) && Holds(r.assignment, v)
               else r.Unsat?
  {
    EncodeParse(n, f);
    var p := LoadedProblem(Encode(n, f));
    DecodeResponse(Verdict(p), n, closed);
    if Satisfiable(n, f) {
      var v: seq<bool> :| |v| == n && Satisfies(v, f);
      NumberBits(v);
      CircuitAgrees(n, f, Number(v));
      assert Verdict(p).Some?;
    }
    if Verdict(p).Some? {
      CircuitAgrees(n, f, Verdict(p).value);
      assert Satisfies(Values(Verdict(p).value, n), f);
    }
  }
}
