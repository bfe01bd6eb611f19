/** What Modbus requests mean to a client: what the words of a reply are, what a
    write leaves to be read, what the counters tell, and how often triggers fire. */
module MbReplies {
  import opened Bits
  import opened Bytes
  import opened RegMap
  import opened MbServer

  /* ---- reading registers ---- */

  /** The request with two words: an address and a quantity, or a value. */
  function Request(fc: Byte, x: U16, y: U16): seq<Byte> {
    [fc] + (Be16(x) + Be16(y))
  }

  lemma RequestParts(fc: Byte, x: U16, y: U16)
    ensures var d := Request(fc, x, y)[1..]; |d| == 4 && GetBe16(d, 0) == x && GetBe16(d, 2) == y
    ensures Request(fc, x, y)[0] == fc && Request(fc, x, y)[1..] == Be16(x) + Be16(y)
  {
    assert Request(fc, x, y)[1..] == Be16(x) + Be16(y);
  }

  lemma Be16Back(a: seq<Byte>, n: U16, b: seq<Byte>)
    ensures GetBe16(a + Be16(n) + b, |a|) == n
  {
  }

  lemma {:induction false} HoldingWord(r: Regs, now: U32, addr: nat, qty: nat, i: nat)
    requires addr + qty <= HOLDING_NUM && i < qty
    ensures GetBe16(HoldingBytes(r, now, addr, qty), 2 * i) == ReadHolding(r, addr + i, now)
    decreases qty
  {
    var front, last := HoldingBytes(r, now, addr, qty - 1), ReadHolding(r, addr + qty - 1, now);
    if i == qty - 1 {
      Be16Back(front, last, []);
      assert front + Be16(last) + [] == HoldingBytes(r, now, addr, qty);
    } else {
      HoldingWord(r, now, addr, qty - 1, i);
    }
  }

  lemma {:induction false} InputWord(r: Regs, addr: nat, qty: nat, i: nat)
    requires Shape(r) && addr + qty <= INPUT_NUM && i < qty
    ensures GetBe16(InputBytes(r, addr, qty), 2 * i) == r.input[addr + i]
    decreases qty
  {
    var front, last := InputBytes(r, addr, qty - 1), r.input[addr + qty - 1];
    if i == qty - 1 {
      Be16Back(front, last, []);
      assert front + Be16(last) + [] == InputBytes(r, addr, qty);
    } else {
      InputWord(r, addr, qty - 1, i);
    }
  }

  /** The exception a register read gets, if any. */
  function ReadFault(addr: U16, qty: U16, num: nat): Option<Byte> {
    if qty == 0 || qty > 125 then Some(3)
    else if addr >= 5000 then Some(1)
    else if addr + qty > num then Some(2)
    else None
  }

  /** The words a reply to a register read carries. */
  function ReplyWord(out: seq<Byte>, i: nat): U16
    requires 2 * i + 4 <= |out|
  {
    GetBe16(out, 2 + 2 * i)
  }

  /** FC03: an exception with the code of the first fault, or else a reply whose
      word i is holding register addr + i, with the live clock in its place. */
  lemma HoldingReply(s: Server, addr: U16, qty: U16, now: U32)
    requires Shape(s.regs)
    ensures var r := Process(s, Request(3, addr, qty), now); var fault := ReadFault(addr, qty, HOLDING_NUM);
            && r.0.regs == s.regs
            && (fault.Some? ==> r.1 == [0x83, fault.value])
            && (fault.None? ==> |r.1| == 2 + 2 * qty && r.1[..2] == [3, 2 * qty]
                                && forall i :: 0 <= i < qty ==> ReplyWord(r.1, i) == ReadHolding(s.regs, addr + i, now))
  {
    RequestParts(3, addr, qty);
    HoldingServed(Counted(s), Request(3, addr, qty)[1..], addr, qty, now);
  }

  lemma HoldingServed(s: Server, d: seq<Byte>, addr: U16, qty: U16, now: U32)
    requires Shape(s.regs) && |d| == 4 && GetBe16(d, 0) == addr && GetBe16(d, 2) == qty
    ensures var r := Fc03(s, d, now); var fault := ReadFault(addr, qty, HOLDING_NUM);
            && r.0.regs == s.regs
            && (fault.Some? ==> r.1 == [0x83, fault.value])
            && (fault.None? ==> |r.1| == 2 + 2 * qty && r.1[..2] == [3, 2 * qty]
                                && forall i :: 0 <= i < qty ==> ReplyWord(r.1, i) == ReadHolding(s.regs, addr + i, now))
  {
    if ReadFault(addr, qty, HOLDING_NUM).None? {
      var out, b := Fc03(s, d, now).1, HoldingBytes(s.regs, now, addr, qty);
      assert out == [3, 2 * qty] + b;
      forall i | 0 <= i < qty ensures ReplyWord(out, i) == ReadHolding(s.regs, addr + i, now) {
        HoldingWord(s.regs, now, addr, qty, i);
      }
    }
  }

  /** FC04: the same for input registers. */
  lemma InputReply(s: Server, addr: U16, qty: U16, now: U32)
    requires Shape(s.regs)
    ensures var r := Process(s, Request(4, addr, qty), now); var fault := ReadFault(addr, qty, INPUT_NUM);
            && r.0.regs == s.regs
            && (fault.Some? ==> r.1 == [0x84, fault.value])
            && (fault.None? ==> |r.1| == 2 + 2 * qty && r.1[..2] == [4, 2 * qty]
                                && forall i :: 0 <= i < qty ==> ReplyWord(r.1, i) == s.regs.input[addr + i])
  {
    RequestParts(4, addr, qty);
    InputServed(Counted(s), Request(4, addr, qty)[1..], addr, qty);
  }

  lemma InputServed(s: Server, d: seq<Byte>, addr: U16, qty: U16)
    requires Shape(s.regs) && |d| == 4 && GetBe16(d, 0) == addr && GetBe16(d, 2) == qty
    ensures var r := Fc04(s, d); var fault := ReadFault(addr, qty, INPUT_NUM);
            && r.0.regs == s.regs
            && (fault.Some? ==> r.1 == [0x84, fault.value])
            && (fault.None? ==> |r.1| == 2 + 2 * qty && r.1[..2] == [4, 2 * qty]
                                && forall i :: 0 <= i < qty ==> ReplyWord(r.1, i) == s.regs.input[addr + i])
  {
    if ReadFault(addr, qty, INPUT_NUM).None? {
      var out, b := Fc04(s, d).1, InputBytes(s.regs, addr, qty);
      assert out == [4, 2 * qty] + b;
      forall i | 0 <= i < qty ensures ReplyWord(out, i) == s.regs.input[addr + i] {
        InputWord(s.regs, addr, qty, i);
      }
    }
  }

  /* ---- writing registers ---- */

  /** What a register holds after a write: triggers go back to rest. */
  function Stored(addr: nat, reg: U16): U16 {
    if addr == CONFIG_SAVE_IDX || addr == REBOOT_IDX then 0 else reg
  }

  lemma WriteHoldingStores(r: Regs, addr: U16, reg: U16)
    requires RegMap.Inv(r) && addr < HOLDING_NUM
    ensures WriteHolding(r, addr, reg).1
    ensures WriteHolding(r, addr, reg).0.holding == r.holding[addr := Stored(addr, reg)]
    ensures WriteHolding(r, addr, reg).0.input == r.input
  {
    ChangedRegs(r, addr, reg);
    if r.holding[addr] == reg {
      assert r.holding[addr := r.holding[addr]] == r.holding;
    }
  }

  /** A register range holds the words that were sent for it. */
  predicate Holds(h: seq<U16>, addr: nat, data: seq<Byte>, i: nat, qty: nat)
    requires |h| == HOLDING_NUM && 2 * qty <= |data|
  {
    forall j :: i <= j < qty && addr + j < HOLDING_NUM ==> h[addr + j] == Stored(addr + j, GetBe16(data, 2 * j))
  }

  /** The loop of FC16: every register of the range that exists is stored, none
      outside it is touched, and it succeeds exactly when all of them exist. */
  lemma {:induction false} WriteRegsStores(r: Regs, addr: nat, data: seq<Byte>, i: nat, qty: nat)
    requires RegMap.Inv(r) && i <= qty && 2 * qty <= |data| && addr + qty < 0x1_0000
    ensures var w := WriteRegs(r, addr, data, i, qty);
            && (w.1 <==> i == qty || addr + qty <= HOLDING_NUM)
            && Holds(w.0.holding, addr, data, i, qty)
            && w.0.input == r.input
            && forall j :: 0 <= j < HOLDING_NUM && !(addr + i <= j < addr + qty) ==> w.0.holding[j] == r.holding[j]
    decreases qty - i
  {
    if i < qty && addr + i < HOLDING_NUM {
      var reg := GetBe16(data, 2 * i);
      WriteHoldingStores(r, addr + i, reg);
      WriteHoldingInv(r, addr + i, reg);
      var next := WriteHolding(r, addr + i, reg).0;
      WriteRegsStores(next, addr, data, i + 1, qty);
      assert WriteRegs(r, addr, data, i, qty) == WriteRegs(next, addr, data, i + 1, qty);
    }
  }

  /** The FC16 request; `data` are the words. */
  function WritePdu(addr: U16, qty: U16, data: seq<Byte>): seq<Byte>
    requires |data| < 256
  {
    [16] + (Be16(addr) + Be16(qty) + [|data|] + data)
  }

  lemma WritePduParts(addr: U16, qty: U16, data: seq<Byte>)
    requires 0 < qty && |data| == 2 * qty < 256
    ensures var d := WritePdu(addr, qty, data)[1..];
            && |d| - 5 == |data| == d[4] && GetBe16(d, 0) == addr && GetBe16(d, 2) == qty && d[5..] == data
            && d[..4] == Be16(addr) + Be16(qty) && d[4] / qty == 2
  {
    var d := WritePdu(addr, qty, data)[1..];
    assert d == Be16(addr) + Be16(qty) + [|data|] + data;
    HalfOf(qty);
  }

  lemma HalfOf(n: nat)
    requires n > 0
    ensures 2 * n / n == 2
  {
  }

  lemma WritePduEffect(s: Server, addr: U16, qty: U16, data: seq<Byte>, now: U32)
    requires RegMap.Inv(s.regs) && 0 < qty <= 125 && |data| == 2 * qty && addr < 5000
    ensures var r := Process(s, WritePdu(addr, qty, data), now); var w := WriteRegs(s.regs, addr, data, 0, qty);
            && r.0.regs == w.0
            && r.1 == if w.1 then [16] + (Be16(addr) + Be16(qty)) else [0x90, 2]
  {
    WritePduParts(addr, qty, data);
    Fc16Effect(Counted(s), WritePdu(addr, qty, data)[1..], addr, qty, data);
  }

  lemma Fc16Effect(s: Server, d: seq<Byte>, addr: U16, qty: U16, data: seq<Byte>)
    requires Shape(s.regs) && 0 < qty <= 125 && |data| == 2 * qty && addr < 5000
    requires |d| == |data| + 5 && d[4] == |data| && GetBe16(d, 0) == addr && GetBe16(d, 2) == qty && d[5..] == data
    requires d[4] / qty == 2
    ensures var w := WriteRegs(s.regs, addr, data, 0, qty);
            Fc16(s, d) == if w.1 then (s.(regs := w.0), [16] + d[..4]) else Exception(s.(regs := w.0), 16, 2)
  {
  }

  /** What FC03 reports of a register the words were written to. */
  function Reported(addr: nat, reg: U16, now: U32): U16 {
    if addr == TIMESTAMP_HI_IDX then now / 0x1_0000
    else if addr == TIMESTAMP_LO_IDX then now % 0x1_0000
    else Stored(addr, reg)
  }

  /** FC16 and then FC03 over the same range: every word reads back as it was
      written, but for the clock, which runs on, and the triggers, which rest. */
  lemma WriteReadsBack(s: Server, addr: U16, qty: U16, data: seq<Byte>, now: U32, later: U32)
    requires RegMap.Inv(s.regs) && 0 < qty && |data| == 2 * qty && addr + qty <= HOLDING_NUM
    ensures var w := Process(s, WritePdu(addr, qty, data), now);
            && w.1 == [16] + (Be16(addr) + Be16(qty)) && Shape(w.0.regs)
            && var r := Process(w.0, Request(3, addr, qty), later);
               && |r.1| == 2 + 2 * qty
               && forall i :: 0 <= i < qty ==> ReplyWord(r.1, i) == Reported(addr + i, GetBe16(data, 2 * i), later)
  {
    WritePduEffect(s, addr, qty, data, now);
    WriteRegsStores(s.regs, addr, data, 0, qty);
    var w := Process(s, WritePdu(addr, qty, data), now);
    HoldingReply(w.0, addr, qty, later);
    var r := Process(w.0, Request(3, addr, qty), later);
    forall i | 0 <= i < qty ensures ReplyWord(r.1, i) == Reported(addr + i, GetBe16(data, 2 * i), later) {
      assert ReplyWord(r.1, i) == ReadHolding(w.0.regs, addr + i, later);
    }
  }

  /* ---- the counters ---- */

  /** Requests served one after the other; each comes at its own time. */
  function Served(s: Server, pdus: seq<(seq<Byte>, U32)>): (t: Server)
    requires Shape(s.regs)
    ensures Shape(t.regs)
    decreases |pdus|
  {
    if pdus == [] then s
    else
      ProcessShape(s, pdus[0].0, pdus[0].1);
      Served(Process(s, pdus[0].0, pdus[0].1).0, pdus[1..])
  }

  lemma ProcessShape(s: Server, pdu: seq<Byte>, now: U32)
    requires Shape(s.regs)
    ensures Shape(Process(s, pdu, now).0.regs)
  {
    if pdu != [] { ProcessCounts(s, pdu, now); }
  }

  predicate IsException(out: seq<Byte>) {
    out != [] && out[0] >= 128
  }

  /** How many of the requests were answered by an exception. */
  function Exceptions(s: Server, pdus: seq<(seq<Byte>, U32)>): nat
    requires Shape(s.regs)
    decreases |pdus|
  {
    if pdus == [] then 0
    else
      ProcessShape(s, pdus[0].0, pdus[0].1);
      var r := Process(s, pdus[0].0, pdus[0].1);
      (if IsException(r.1) then 1 else 0) + Exceptions(r.0, pdus[1..])
  }

  /** The exception counter counts exactly the exception replies. */
  lemma ExceptionCounted(s: Server, pdu: seq<Byte>, now: U32)
    requires Shape(s.regs) && !ClearsCounters(pdu)
    ensures var r := Process(s, pdu, now);
            r.0.diag.exc == if IsException(r.1) then Sat(s.diag.exc) else s.diag.exc
  {
  }

  predicate Plain(pdus: seq<(seq<Byte>, U32)>) {
    forall i :: 0 <= i < |pdus| ==> pdus[i].0 != [] && !ClearsCounters(pdus[i].0)
  }

  /** Over every run of requests without a clear, the counters grow by the number
      of requests and of exception replies, up to saturation. */
  lemma {:induction false} CountersCount(s: Server, pdus: seq<(seq<Byte>, U32)>)
    requires Shape(s.regs) && Plain(pdus)
    ensures var g := Served(s, pdus).diag;
            && g.busMsg == Capped(s.diag.busMsg + |pdus|) && g.srvMsg == Capped(s.diag.srvMsg + |pdus|)
            && g.exc == Capped(s.diag.exc + Exceptions(s, pdus))
            && g.noResp == s.diag.noResp && g.crcErr == s.diag.crcErr
    decreases |pdus|
  {
    if pdus != [] {
      var pdu, now := pdus[0].0, pdus[0].1;
      ProcessCounts(s, pdu, now);
      ExceptionCounted(s, pdu, now);
      CountersCount(Process(s, pdu, now).0, pdus[1..]);
    }
  }

  /** The sub-functions that read a counter, and the counter each one reads. */
  function Counter(g: Diag, sub: U16): U16 {
    if sub == 0x0B then g.busMsg
    else if sub == 0x0C then g.crcErr
    else if sub == 0x0D then g.exc
    else if sub == 0x0E then g.srvMsg
    else g.noResp
  }

  lemma CounterQuery(s: Server, sub: U16, x: U16, now: U32)
    requires Shape(s.regs) && 0x0B <= sub <= 0x0F
    ensures Process(s, Request(8, sub, x), now).1 == Request(8, sub, Counter(Counted(s).diag, sub))
  {
    RequestParts(8, sub, x);
    assert Request(8, sub, x)[1..][..2] == Be16(sub);
  }

  lemma Cleared(s: Server, x: U16, now: U32)
    requires Shape(s.regs)
    ensures var r := Process(s, Request(8, 0x0A, x), now);
            r.0 == s.(diag := Diag(0, 0, 0, 0, 0)) && r.1 == Request(8, 0x0A, x)
  {
    RequestParts(8, 0x0A, x);
  }

  /** FC08: after a clear and any requests, the message counters read how many
      requests there were, the query included, the exception counter how many of
      them got an exception, and the others zero. */
  lemma CountersTell(s: Server, c: Server, x: U16, pdus: seq<(seq<Byte>, U32)>, sub: U16, now: U32)
    requires Shape(s.regs) && Plain(pdus) && 0x0B <= sub <= 0x0F
    requires c == Process(s, Request(8, 0x0A, x), now).0
    ensures Shape(c.regs)
    ensures Process(Served(c, pdus), Request(8, sub, x), now).1 ==
            Request(8, sub, Told(|pdus|, Exceptions(c, pdus), sub))
  {
    Cleared(s, x, now);
    CountersFromZero(c, x, pdus, sub, now);
  }

  function Told(n: nat, exceptions: nat, sub: U16): U16 {
    if sub == 0x0B || sub == 0x0E then Capped(n + 1) else if sub == 0x0D then Capped(exceptions) else 0
  }

  lemma CountersFromZero(c: Server, x: U16, pdus: seq<(seq<Byte>, U32)>, sub: U16, now: U32)
    requires Shape(c.regs) && c.diag == Diag(0, 0, 0, 0, 0) && Plain(pdus) && 0x0B <= sub <= 0x0F
    ensures Process(Served(c, pdus), Request(8, sub, x), now).1 ==
            Request(8, sub, Told(|pdus|, Exceptions(c, pdus), sub))
  {
    CountersCount(c, pdus);
    var t := Served(c, pdus);
    CounterQuery(t, sub, x, now);
    CounterTold(t.diag, |pdus|, Exceptions(c, pdus), sub, Counted(t).diag);
  }

  lemma CounterTold(g: Diag, n: nat, exceptions: nat, sub: U16, after: Diag)
    requires g == Diag(Capped(n), 0, Capped(exceptions), Capped(n), 0) && 0x0B <= sub <= 0x0F
    requires after == g.(busMsg := Sat(g.busMsg), srvMsg := Sat(g.srvMsg))
    ensures Counter(after, sub) == Told(n, exceptions, sub)
  {
  }

  /* ---- triggers over whole runs ---- */

  /** The hook of a trigger register. */
  function Fires(trigger: nat): Hook {
    if trigger == CONFIG_SAVE_IDX then HoldingSave else RebootCold
  }

  /** Whether the words of an FC16 request hold a nonzero one for the trigger. */
  predicate Hits(addr: nat, data: seq<Byte>, i: nat, qty: nat, trigger: nat)
    requires 2 * qty <= |data|
  {
    addr + i <= trigger < addr + qty && GetBe16(data, 2 * (trigger - addr)) != 0
  }

  /** Nonzero values a request writes to the trigger register: the request alone
      decides. */
  function Requested(pdu: seq<Byte>, trigger: nat): nat {
    if |pdu| == 5 && pdu[0] == 6 then (if GetBe16(pdu, 1) == trigger && GetBe16(pdu, 3) != 0 then 1 else 0)
    else if |pdu| >= 7 && pdu[0] == 16 then
      var addr, qty, n := GetBe16(pdu, 1), GetBe16(pdu, 3), pdu[5];
      if 0 < qty <= 125 && addr < 5000 && |pdu| - 6 == n && n / qty == 2 then
        QuotientTwo(n, qty);
        if Hits(addr, pdu[6..], 0, qty, trigger) then 1 else 0
      else 0
    else 0
  }

  predicate IsTrigger(trigger: nat) {
    trigger == CONFIG_SAVE_IDX || trigger == REBOOT_IDX
  }

  lemma {:induction false} WriteRegsFire(r: Regs, addr: nat, data: seq<Byte>, i: nat, qty: nat, trigger: nat)
    requires RegMap.Inv(r) && i <= qty && 2 * qty <= |data| && addr + qty < 0x1_0000 && IsTrigger(trigger)
    ensures Calls(WriteRegs(r, addr, data, i, qty).0.log, Fires(trigger))
         == Calls(r.log, Fires(trigger)) + if Hits(addr, data, i, qty, trigger) then 1 else 0
    decreases qty - i
  {
    if i < qty && addr + i < HOLDING_NUM {
      var next := RegWritten(r, addr, data, i, qty, trigger);
      WriteRegsFire(next, addr, data, i + 1, qty, trigger);
    }
  }

  // One register of the loop.
  lemma RegWritten(r: Regs, addr: nat, data: seq<Byte>, i: nat, qty: nat, trigger: nat) returns (next: Regs)
    requires RegMap.Inv(r) && i < qty && 2 * qty <= |data| && addr + qty < 0x1_0000 && IsTrigger(trigger)
    requires addr + i < HOLDING_NUM
    ensures RegMap.Inv(next) && WriteRegs(r, addr, data, i, qty) == WriteRegs(next, addr, data, i + 1, qty)
    ensures Calls(next.log, Fires(trigger))
         == Calls(r.log, Fires(trigger)) + if addr + i == trigger && GetBe16(data, 2 * i) != 0 then 1 else 0
  {
    var reg := GetBe16(data, 2 * i);
    TriggersFireOnce(r, addr + i, reg);
    WriteHoldingInv(r, addr + i, reg);
    next := WriteHolding(r, addr + i, reg).0;
  }

  lemma {:induction false} WriteCoilsFire(r: Regs, addr: U16, data: seq<Byte>, i: nat, qty: nat, h: Hook)
    requires Shape(r) && i <= qty && qty <= 8 * |data| && !h.SetDo?
    ensures Calls(WriteCoils(r, addr, data, i, qty).0.log, h) == Calls(r.log, h)
    decreases qty - i
  {
    if i < qty {
      var w := CoilWritten(r, CoilAddr(addr, i), CoilBit(data, i), h);
      assert WriteCoils(r, addr, data, i, qty) == if w.1 then WriteCoils(w.0, addr, data, i + 1, qty) else w;
      if w.1 { WriteCoilsFire(w.0, addr, data, i + 1, qty, h); }
    }
  }

  lemma CoilWritten(r: Regs, bit: U16, on: bool, h: Hook) returns (w: (Regs, bool))
    requires Shape(r) && !h.SetDo?
    ensures w == WriteDoBit(r, bit, on) && Shape(w.0) && Calls(w.0.log, h) == Calls(r.log, h)
  {
    w := WriteDoBit(r, bit, on);
    DoBitFires(r, bit, on, h);
  }

  lemma DoBitFires(r: Regs, bit: U16, on: bool, h: Hook)
    requires Shape(r) && !h.SetDo?
    ensures Calls(WriteDoBit(r, bit, on).0.log, h) == Calls(r.log, h)
  {
    if bit < DO_NUM {
      CallsSnoc(r.log, SetDo(WithBit(r.holding[DO_IDX], bit, on) % 256), h);
    }
  }

  lemma Fc16Fires(s: Server, pdu: seq<Byte>, now: U32, trigger: nat)
    requires RegMap.Inv(s.regs) && IsTrigger(trigger) && pdu != [] && pdu[0] == 16
    ensures Calls(Process(s, pdu, now).0.regs.log, Fires(trigger))
         == Calls(s.regs.log, Fires(trigger)) + Requested(pdu, trigger)
  {
    var d := pdu[1..];
    if |d| >= 6 {
      assert GetBe16(d, 0) == GetBe16(pdu, 1) && GetBe16(d, 2) == GetBe16(pdu, 3);
      assert d[4] == pdu[5] && d[5..] == pdu[6..];
      var addr, qty, n := GetBe16(d, 0), GetBe16(d, 2), d[4];
      if 0 < qty <= 125 && addr < 5000 && |d| - 5 == n && n / qty == 2 {
        QuotientTwo(n, qty);
        WriteRegsFire(s.regs, addr, d[5..], 0, qty, trigger);
      }
    }
  }

  lemma OtherFires(s: Server, pdu: seq<Byte>, now: U32, trigger: nat)
    requires RegMap.Inv(s.regs) && IsTrigger(trigger) && (pdu == [] || pdu[0] != 16)
    ensures Calls(Process(s, pdu, now).0.regs.log, Fires(trigger))
         == Calls(s.regs.log, Fires(trigger)) + Requested(pdu, trigger)
  {
    if pdu != [] {
      var fc, d := pdu[0], pdu[1..];
      if fc == 5 && |d| == 4 {
        DoBitFires(s.regs, GetBe16(d, 0), GetBe16(d, 2) != 0, Fires(trigger));
      } else if fc == 6 && |d| == 4 {
        TriggersFireOnce(s.regs, GetBe16(d, 0), GetBe16(d, 2));
      } else if fc == 15 && |d| >= 6 && 0 < GetBe16(d, 2) <= 2000 && (GetBe16(d, 2) - 1) / 8 + 1 == d[4]
                && |d| == d[4] + 5 {
        WriteCoilsFire(s.regs, GetBe16(d, 0), d[5..], 0, GetBe16(d, 2), Fires(trigger));
      }
    }
  }

  function AllRequested(pdus: seq<(seq<Byte>, U32)>, trigger: nat): nat {
    if pdus == [] then 0 else Requested(pdus[0].0, trigger) + AllRequested(pdus[1..], trigger)
  }

  /** Over every run of requests, the save and the reboot are called exactly as
      often as the requests write a nonzero value to their trigger registers. */
  lemma {:induction false} TriggersFireAsRequested(s: Server, pdus: seq<(seq<Byte>, U32)>, trigger: nat)
    requires RegMap.Inv(s.regs) && IsTrigger(trigger)
    ensures Calls(Served(s, pdus).regs.log, Fires(trigger))
         == Calls(s.regs.log, Fires(trigger)) + AllRequested(pdus, trigger)
    decreases |pdus|
  {
    if pdus != [] {
      var pdu, now := pdus[0].0, pdus[0].1;
      ProcessInv(s, pdu, now);
      if pdu != [] && pdu[0] == 16 { Fc16Fires(s, pdu, now, trigger); } else { OtherFires(s, pdu, now, trigger); }
      TriggersFireAsRequested(Process(s, pdu, now).0, pdus[1..], trigger);
    }
  }
}
