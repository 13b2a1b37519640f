/**
 The firmware's receive callback (sat_tcp.c) as bus transactions on the clocked device, the host's
 encoder and decoder (sat_host.py), and the whole pipeline from formula to result.
 */
module SatFirmware {
  import opened Machine
  import opened SatFormula
  import opened SatHardware
  import opened SatProtocol

  // ---------- The bus master ----------

  /** The CPU's side of the bus: the device, and how many clocks pass idle before each access. */
  class SatBus {
    const gap: nat -> nat
    var dev: Device
    var txn: nat

    constructor (gap: nat -> nat)
      ensures this.gap == gap && dev == ResetDevice && txn == 0 && Quiet(dev)
    {
      this.gap := gap;
      dev, txn := ResetDevice, 0;
    }

    /** One classic cycle, clock by clock: idle clocks, the request, and its acknowledge cycle. */
    method Access(req: Bus) returns (v: nat)
      requires Sized(dev.regs.problem) && !dev.regs.ack && req.cyc && req.stb
      modifies this
      ensures dev == Transact(old(dev), gap(old(txn)), req) && txn == old(txn) + 1
      ensures v == DatR(Acked(old(dev), gap(old(txn)), req).solver, req.adr)
    {
      var n := gap(txn);
      for k := 0 to n
        invariant Sized(dev.regs.problem) && dev == Run(old(dev), Gap(k)) && txn == old(txn)
      {
        RunConcat(old(dev), Gap(k), [IDLE]);
        assert Gap(k) + [IDLE] == Gap(k + 1) && [IDLE][1..] == [];
        assert Run(dev, [IDLE]) == Run(Step(dev, IDLE), []);
        dev := Step(dev, IDLE);
      }
      AckStaysLow(old(dev), n);
      while !dev.regs.ack
        invariant dev == (if dev.regs.ack then Acked(old(dev), n, req) else Run(old(dev), Gap(n))) && txn == old(txn)
        decreases !dev.regs.ack
      {
        dev := Step(dev, req);
      }
      v := DatR(dev.solver, req.adr);
      dev, txn := Step(dev, req), txn + 1;
    }

    /** A store to a formula register while the search is at rest. */
    method Store(adr: nat, dat: nat)
      requires Quiet(dev) && adr != CTRL
      modifies this
      ensures dev == old(dev).(regs := old(dev).regs.(problem := WriteProblem(old(dev).regs.problem, adr, dat)))
      ensures Quiet(dev)
    {
      QuietWrite(dev, gap(txn), adr, dat);
      var _ := Access(Request(true, adr, dat));
    }

    /** The store that starts the search. */
    method Start()
      requires Quiet(dev) && Loaded(dev.regs.problem)
      modifies this
      ensures Searching(dev, 0) && !dev.regs.ack && dev.regs.problem == old(dev).regs.problem
    {
      StartWrite(dev, gap(txn));
      var _ := Access(Request(true, CTRL, 1));
    }

    /** A load during or after the search that has been going for `k` cycles. */
    method Load(adr: nat, ghost k: nat) returns (v: nat, ghost k': nat)
      requires Searching(dev, k) && !dev.regs.ack
      modifies this
      ensures Searching(dev, k' + 1) && !dev.regs.ack && dev.regs.problem == old(dev).regs.problem
      ensures k' > k && v == DatR(SolverAt(dev.regs.problem, k'), adr)
    {
      hide SolverAt, DatR;
      SearchingRead(dev, k, gap(txn), adr);
      k' := k + gap(txn) + 1;
      v := Access(Request(false, adr, 0));
    }
  }

  // ---------- sat_recv ----------

  /** As much of a packet as the 512-byte buffer takes. */
  function Received(chain: seq<seq<Byte>>): seq<Byte> {
    var bs := Concat(chain);
    if |bs| <= 512 then bs else bs[..512]
  }

  /** memcpy of the first `n` bytes of `src` to offset `at`. */
  method CopyBytes(buf: array<Byte>, at: nat, src: seq<Byte>, n: nat)
    requires n <= |src| && at + n <= buf.Length
    modifies buf
    ensures buf[..at + n] == old(buf[..at]) + src[..n]
  {
    forall i | 0 <= i < n { buf[at + i] := src[i]; }
  }

  /** The flattening loop, into the local buffer. */
  method Flatten(chain: seq<seq<Byte>>) returns (buf: array<Byte>, total: nat)
    ensures fresh(buf) && total <= buf.Length == 512 && buf[..total] == Received(chain)
  {
    buf := new Byte[512];
    total := 0;
    var k := 0;
    while k < |chain|
      invariant 0 <= k <= |chain| && total <= 512
      invariant buf[..total] + Concat(chain[k..]) == Concat(chain)
    {
      var q := chain[k];
      var copy := if total + |q| > 512 then 512 - total else |q|;
      CopyBytes(buf, total, q, copy);
      ConcatSplit(chain, k, copy);
      total := total + copy;
      if total >= 512 {
        return;
      }
      k := k + 1;
    }
  }

  lemma ConcatSplit(chain: seq<seq<Byte>>, k: nat, n: nat)
    requires k < |chain| && n <= |chain[k]|
    ensures Concat(chain[k..]) == chain[k][..n] + (chain[k][n..] + Concat(chain[k + 1..]))
    ensures n == |chain[k]| ==> Concat(chain[k..]) == chain[k][..n] + Concat(chain[k + 1..])
  {
    assert chain[k..][1..] == chain[k + 1..];
    assert chain[k] == chain[k][..n] + chain[k][n..];
  }

  /** Clearing the literal registers. */
  method ClearLiterals(bus: SatBus)
    requires Quiet(bus.dev)
    modifies bus
    ensures Quiet(bus.dev) && bus.dev.regs.problem.lits == Cleared()
  {
    var i := 0;
    while i < LIT_COUNT
      invariant 0 <= i <= LIT_COUNT && Quiet(bus.dev)
      invariant forall j :: 0 <= j < i ==> bus.dev.regs.problem.lits[j] == 0
    {
      bus.Store(LIT_BASE + i, 0);
      i := i + 1;
    }
  }

  /** The parse loop: literal bytes go to the slots of the current clause. */
  method ParseLiterals(bus: SatBus, buf: array<Byte>, total: nat, nClauses: nat)
    requires Quiet(bus.dev) && bus.dev.regs.problem.lits == Cleared()
    requires 3 <= total <= buf.Length && nClauses <= MAX_CLAUSES
    modifies bus
    ensures Quiet(bus.dev) && bus.dev.regs.problem.lits == Parse(buf[3..total], 0, 0, nClauses, Cleared())
  {
    hide SlotIndex, LitWord;
    var clause, lit, pos := 0, 0, 3;
    while pos < total && clause < nClauses
      invariant 3 <= pos <= total && 0 <= clause && 0 <= lit <= CLAUSE_LEN && Quiet(bus.dev)
      invariant Parse(buf[pos..total], clause, lit, nClauses, bus.dev.regs.problem.lits) ==
                Parse(buf[3..total], 0, 0, nClauses, Cleared())
    {
      var b := buf[pos];
      assert buf[pos..total][0] == b && buf[pos..total][1..] == buf[pos + 1..total];
      if b == PROTO_END {
        break;
      }
      if b == PROTO_TERM {
        clause, lit := clause + 1, 0;
      } else if lit < CLAUSE_LEN {
        bus.Store(LIT_BASE + SlotIndex(clause, lit), LitWord(b));
        lit := lit + 1;
      }
      pos := pos + 1;
    }
  }

  lemma StatusAt(p: Problem, k: nat)
    requires Loaded(p)
    ensures var s := SolverAt(p, k);
            && (DatR(s, CTRL) % 2 == 1 <==> k >= Duration(p))
            && (k >= Duration(p) ==>
                  && !s.running && (DatR(s, CTRL) / 2 % 2 == 1 <==> Verdict(p).Some?)
                  && (Verdict(p).Some? ==> DatR(s, MODEL) == Verdict(p).value))
  {
    hide Search, Pow2;
  }

  /** Poll `done`, then read the status and the model. */
  method PollResult(bus: SatBus) returns (isSat: bool, model: nat)
    requires Searching(bus.dev, 0) && !bus.dev.regs.ack
    modifies bus
    ensures Quiet(bus.dev) && bus.dev.regs.problem == old(bus.dev).regs.problem
    ensures (if isSat then Some(model) else None) == Verdict(bus.dev.regs.problem)
  {
    hide SolverAt, DatR, Duration, Verdict;
    ghost var k := 0;
    var ctrl;
    ctrl, k := bus.Load(CTRL, k);
    StatusAt(bus.dev.regs.problem, k);
    while ctrl % 2 != 1
      invariant Searching(bus.dev, k + 1) && !bus.dev.regs.ack && bus.dev.regs.problem == old(bus.dev).regs.problem
      invariant ctrl % 2 == 1 <==> k >= Duration(bus.dev.regs.problem)
      decreases Duration(bus.dev.regs.problem) - k
    {
      ctrl, k := bus.Load(CTRL, k + 1);
      StatusAt(bus.dev.regs.problem, k);
    }
    ctrl, k := bus.Load(CTRL, k + 1);
    StatusAt(bus.dev.regs.problem, k);
    model, k := bus.Load(MODEL, k + 1);
    StatusAt(bus.dev.regs.problem, k);
    StatusAt(bus.dev.regs.problem, k + 1);
    isSat := ctrl / 2 % 2 == 1;
  }

  /** The response bytes, in their local buffer. */
  method BuildResponse(isSat: bool, model: nat, n: nat) returns (bs: seq<Byte>)
    requires n <= MAX_VARS
    ensures bs == Response(if isSat then Some(model) else None, n)
    ensures !isSat ==> bs == [0x00, 0xFF]
    ensures isSat ==> |bs| == n + 2 && bs[0] == 0x01 && bs[n + 1] == 0xFF
    ensures isSat ==> forall i :: 0 <= i < n ==> bs[i + 1] == i + 1 + (if Bit(model, i) then 128 else 0)
  {
    hide Bit;
    var resp := new Byte[MAX_VARS + 3];
    var rlen := 0;
    if isSat {
      resp[rlen] := RESP_SAT;
      rlen := rlen + 1;
      var i := 0;
      while i < n
        invariant 0 <= i <= n && rlen == i + 1
        invariant resp[..rlen] + ModelBytes(model, i, n) == [RESP_SAT] + ModelBytes(model, 0, n)
      {
        ghost var before := resp[..rlen];
        resp[rlen] := (if Bit(model, i) then 128 else 0) + (i + 1) % 128;
        rlen := rlen + 1;
        assert resp[..rlen] == before + [resp[rlen - 1]];
        i := i + 1;
      }
    } else {
      resp[rlen] := RESP_UNSAT;
      rlen := rlen + 1;
    }
    ghost var before := resp[..rlen];
    resp[rlen] := PROTO_END;
    rlen := rlen + 1;
    assert resp[..rlen] == before + [PROTO_END];
    bs := resp[..rlen];
    if isSat { ResponseBytes(model, n); }
  }

  /**
   sat_recv: `arrived` is the received chain, or none for an error or a closed connection. The reply
   depends on the packet alone, and a packet without a reply leaves device and bus untouched.
   */
  method SatRecv(bus: SatBus, arrived: Option<seq<seq<Byte>>>) returns (reply: Option<seq<Byte>>)
    requires Quiet(bus.dev)
    modifies bus
    ensures Quiet(bus.dev)
    ensures reply == if arrived.Some? then Reply(Received(arrived.value)) else None
    ensures reply.Some? <==>
            && arrived.Some?
            && var bs := Concat(arrived.value);
               |bs| >= 4 && bs[0] == 0xAA && 1 <= bs[1] <= MAX_VARS && 1 <= bs[2] <= MAX_CLAUSES
    ensures arrived.Some? ==> var bs := Concat(arrived.value);
                              reply == Reply(if |bs| <= 512 then bs else bs[..512])
    ensures reply.None? ==> bus.dev == old(bus.dev) && bus.txn == old(bus.txn)
  {
    if arrived.None? {
      return None;
    }
    var buf, total := Flatten(arrived.value);
    ghost var pkt := buf[..total];
    if total < 4 || buf[0] != PROTO_START {
      return None;
    }
    var nVars, nClauses := buf[1], buf[2];
    if nVars == 0 || nVars > MAX_VARS || nClauses == 0 || nClauses > MAX_CLAUSES {
      return None;
    }
    ClearLiterals(bus);
    ParseLiterals(bus, buf, total, nClauses);
    assert buf[3..total] == pkt[3..];
    bus.Store(NVARS, nVars);
    bus.Store(NCLAUSES, nClauses);
    assert bus.dev.regs.problem == LoadedProblem(pkt);
    bus.Start();
    var isSat, model := PollResult(bus);
    var resp := BuildResponse(isSat, model, nVars);
    reply := Some(resp);
  }

  /** Request isolation: over any sequence of packets, each reply is the one its own packet determines. */
  method Serve(bus: SatBus, packets: seq<Option<seq<seq<Byte>>>>) returns (replies: seq<Option<seq<Byte>>>)
    requires Quiet(bus.dev)
    modifies bus
    ensures Quiet(bus.dev) && |replies| == |packets|
    ensures forall i :: 0 <= i < |packets| ==>
              replies[i] == if packets[i].Some? then Reply(Received(packets[i].value)) else None
    ensures forall i :: 0 <= i < |packets| ==>
              (replies[i].Some? <==>
               && packets[i].Some?
               && var bs := Concat(packets[i].value);
                  |bs| >= 4 && bs[0] == 0xAA && 1 <= bs[1] <= MAX_VARS && 1 <= bs[2] <= MAX_CLAUSES)
  {
    replies := [];
    while |replies| < |packets|
      invariant |replies| <= |packets| && Quiet(bus.dev)
      invariant forall i :: 0 <= i < |replies| ==>
                  replies[i] == if packets[i].Some? then Reply(Received(packets[i].value)) else None
      invariant forall i :: 0 <= i < |replies| ==>
                  (replies[i].Some? <==>
                   && packets[i].Some?
                   && var bs := Concat(packets[i].value);
                      |bs| >= 4 && bs[0] == 0xAA && 1 <= bs[1] <= MAX_VARS && 1 <= bs[2] <= MAX_CLAUSES)
    {
      var reply := SatRecv(bus, packets[|replies|]);
      replies := replies + [reply];
    }
  }

  // ---------- The host ----------

  /** encode_packet */
  method EncodePacket(n: nat, f: Formula) returns (pkt: seq<Byte>)
    ensures pkt == Encode(n, f)
    ensures |pkt| >= 4 && pkt[0] == 0xAA && pkt[1] == n % 256 && pkt[2] == |f| % 256 && pkt[|pkt| - 1] == 0xFF
    ensures WellFormed(n, f) ==>
              var g := Groups(pkt[3..]);
              && |g| == |f| + 1 && g[|f|] == [] && (forall c :: 0 <= c < |f| ==> GroupOf(f[c], g[c]))
  {
    pkt := [PROTO_START, n % 256, |f| % 256];
    ghost var header := pkt;
    var c := 0;
    while c < |f|
      invariant 0 <= c <= |f| && pkt + EncodeClauses(f[c..]) == header + EncodeClauses(f)
    {
      var l := 0;
      ghost var before := pkt;
      assert f[c..][1..] == f[c + 1..];
      while l < |f[c]|
        invariant 0 <= l <= |f[c]| && pkt + EncodeClause(f[c][l..]) == before + EncodeClause(f[c])
      {
        assert f[c][l..][1..] == f[c][l + 1..];
        pkt := pkt + [LitByte(f[c][l])];
        l := l + 1;
      }
      pkt := pkt + [PROTO_TERM];
      assert pkt == before + EncodeClause(f[c]);
      c := c + 1;
    }
    pkt := pkt + [PROTO_END];
    assert pkt[3..] == EncodeClauses(f);
    if WellFormed(n, f) { EncodeGroups(n, f); }
  }

  /** decode_response */
  method DecodeResult(data: seq<Byte>) returns (r: Result)
    ensures r == Decode(data)
    ensures r.Timeout? <==> data == []
    ensures r.Unsat? <==> data != [] && data[0] == 0x00
    ensures r.Sat? <==> data != [] && data[0] == 0x01
  {
    if data == [] {
      return Result.Timeout;
    }
    if data[0] == RESP_UNSAT {
      return Unsat;
    }
    if data[0] == RESP_SAT {
      var m: map<nat, bool> := map[];
      var i := 1;
      while i < |data|
        invariant 1 <= i <= |data|
        invariant DecodeAssignments(data[i..], m) == DecodeAssignments(data[1..], map[])
      {
        var b := data[i];
        assert data[i..][1..] == data[i + 1..];
        if b == PROTO_END {
          break;
        }
        m := m[b % 128 := b / 128 == 1];
        i := i + 1;
      }
      return Sat(m);
    }
    return Error;
  }

  /** _recv_exact: up to `n` bytes from offset `at` on, or none when a silent connection times out. */
  method ReceiveExact(stream: seq<Byte>, closed: bool, at: nat, n: nat) returns (bs: Option<seq<Byte>>)
    requires at <= |stream|
    ensures bs.None? <==> at + n > |stream| && !closed
    ensures bs.Some? ==> bs.value == stream[at..if at + n <= |stream| then at + n else |stream|]
  {
    var buf := [];
    while |buf| < n
      invariant |buf| <= n && at + |buf| <= |stream| && buf == stream[at..at + |buf|]
    {
      if at + |buf| == |stream| {
        return if closed then Some(buf) else None;
      }
      buf := buf + [stream[at + |buf|]];
    }
    bs := Some(buf);
  }

  /**
   What `solve` reads from the socket: one byte, then as many as that byte announces. The stream is
   what ever arrives, after which the connection is closed or stays silent.
   */
  method HostRead(stream: seq<Byte>, n: nat, closed: bool) returns (r: Result)
    ensures r == HostResult(stream, n, closed)
    ensures r.Timeout? <==>
            || stream == []
            || (!closed && stream[0] == 0x00 && |stream| < 2)
            || (!closed && stream[0] == 0x01 && |stream| < n + 2)
    ensures r.Unsat? <==> stream != [] && stream[0] == 0x00 && (closed || |stream| >= 2)
    ensures r.Sat? <==> stream != [] && stream[0] == 0x01 && (closed || |stream| >= n + 2)
    ensures r.Error? <==> stream != [] && stream[0] != 0x00 && stream[0] != 0x01
  {
    var first := ReceiveExact(stream, closed, 0, 1);
    if first.None? || first.value == [] {
      return Result.Timeout;
    }
    if stream[0] == RESP_UNSAT {
      var end := ReceiveExact(stream, closed, 1, 1);
      if end.None? {
        return Result.Timeout;
      }
      r := DecodeResult([RESP_UNSAT, PROTO_END]);
    } else if stream[0] == RESP_SAT {
      var rest := ReceiveExact(stream, closed, 1, n + 1);
      if rest.None? {
        return Result.Timeout;
      }
      assert first.value + rest.value == if n + 2 <= |stream| then stream[..n + 2] else stream;
      r := DecodeResult(first.value + rest.value);
    } else {
      r := Error;
    }
  }

  /**
   The whole pipeline: a formula is encoded, arrives split into pbufs in any way, is solved by the
   device under any bus timing and after any earlier requests, and is decoded. The answer to a
   well-formed formula is right. The host times out when the sizes in the header are out of range,
   and with a size that the header's byte cuts off it never reports an assignment.
   */
  method Solve(bus: SatBus, n: nat, f: Formula, split: seq<Byte> -> seq<seq<Byte>>) returns (r: Result)
    requires Quiet(bus.dev)
    requires forall bs :: Concat(split(bs)) == bs
    modifies bus
    ensures Quiet(bus.dev)
    ensures n < 256 ==> (r.Timeout? <==> !(1 <= n <= MAX_VARS && 1 <= |f| % 256 <= MAX_CLAUSES))
    ensures n >= 256 && !(1 <= n % 256 <= MAX_VARS && 1 <= |f| % 256 <= MAX_CLAUSES) ==> r.Timeout?
    ensures n >= 256 ==> r.Timeout? || r.Unsat?
    ensures !r.Error?
    ensures WellFormed(n, f) ==> (r.Sat? <==> Satisfiable(n, f)) && (r.Unsat? <==> !Satisfiable(n, f))
    ensures WellFormed(n, f) && r.Sat? ==>
              exists v: seq<bool> :: |v| == n && Satisfies(v, f) && Holds(r.assignment, v)
  {
    hide Encode, Reply, HostResult, WellFormed, Groups, GroupOf, Satisfiable;
    var pkt := EncodePacket(n, f);
    ReplyKind(Received(split(pkt)));
    if WellFormed(n, f) {
      EncodeFits(n, f);
      ReplyIsRight(n, f, false);
    }
    var reply := SatRecv(bus, Some(split(pkt)));
    r := HostRead(if reply.Some? then reply.value else [], n, false);
  }
}
