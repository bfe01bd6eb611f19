/** The Modbus PDU decoder: diagnostics, register access and replies. */
module MbServer {
  import opened Bits
  import opened Bytes
  import opened RegMap

  datatype Diag = Diag(busMsg: U16, crcErr: U16, exc: U16, srvMsg: U16, noResp: U16)

  datatype Server = Server(diag: Diag, regs: Regs)

  /** Counters saturate. */
  function Sat(n: U16): U16 {
    if n == 0xFFFF then n else n + 1
  }

  /** What a counter shows of n events. */
  function Capped(n: nat): U16 {
    Min(n, 0xFFFF)
  }

  function Be16(n: U16): seq<Byte> {
    [n / 256, n % 256]
  }

  function GetBe16(b: seq<Byte>, i: nat): U16
    requires i + 2 <= |b|
  {
    var hi: int, lo: int := b[i], b[i + 1];
    hi * 256 + lo
  }

  /** A PDU result: the new state and the reply, empty when the PDU is dropped. */
  type Result = (Server, seq<Byte>)

  function Exception(s: Server, fc: Byte, code: Byte): Result {
    (s.(diag := s.diag.(exc := Sat(s.diag.exc))), [if fc >= 128 then fc else fc + 128, code])
  }

  /* ---- reading bits ---- */

  /** Bits a, a+1, .. of a word collected into a byte, lowest first. */
  function Collected(v: nat, a: nat, m: nat): (r: nat)
    decreases m
  {
    if m == 0 then 0
    else if BitAt(v, a + m - 1) then SetBit(Collected(v, a, m - 1), m - 1, true)
    else Collected(v, a, m - 1)
  }

  /** The collected byte holds exactly those bits, padded with zeros. */
  lemma {:induction false} CollectedBits(v: nat, a: nat, m: nat, j: nat)
    ensures BitAt(Collected(v, a, m), j) <==> j < m && BitAt(v, a + j)
    decreases m
  {
    if m == 0 {
      ZeroBits(j);
    } else {
      CollectedBits(v, a, m - 1, j);
      SetBitAt(Collected(v, a, m - 1), m - 1, true, j);
    }
  }

  lemma {:induction false} CollectedBound(v: nat, a: nat, m: nat, k: nat)
    requires m <= k
    ensures Collected(v, a, m) < Pow2(k)
    decreases m
  {
    if m > 0 {
      CollectedBound(v, a, m - 1, k);
      SetBitBound(Collected(v, a, m - 1), m - 1, true, k);
    }
  }

  function BitByte(v: nat, a: nat, m: nat): Byte
    requires m <= 8
  {
    CollectedBound(v, a, m, 8);
    Pow2Sixteen();
    Collected(v, a, m)
  }

  /** Reply data of a bit read: byte k holds bits 8k to 8k+7 of the request. */
  function BitBytes(v: nat, a: nat, qty: nat, n: nat): (r: seq<Byte>)
    ensures |r| == n
  {
    seq(n, k requires 0 <= k < n => BitByte(v, a + 8 * k, if qty <= 8 * k then 0 else Min(8, qty - 8 * k)))
  }

  /** Bit i of the reply is bit a+i of the word, and the padding is zero. */
  lemma BitOfReply(v: nat, a: nat, qty: nat, n: nat, i: nat)
    requires i < 8 * n
    ensures BitAt(BitBytes(v, a, qty, n)[i / 8], i % 8) <==> i < qty && BitAt(v, a + i)
  {
    var k := i / 8;
    var m := if qty <= 8 * k then 0 else Min(8, qty - 8 * k);
    assert i == 8 * k + i % 8 && a + 8 * k + i % 8 == a + i;
    CollectedBits(v, a + 8 * k, m, i % 8);
  }

  /** FC01 and FC02: `num` bits exist, in register value `v`. */
  function ReadBits(s: Server, fc: Byte, d: seq<Byte>, num: nat, v: U16): Result {
    if |d| != 4 then (s, [])
    else
      var addr, qty := GetBe16(d, 0), GetBe16(d, 2);
      if qty == 0 || qty > 2000 then Exception(s, fc, 3)
      else if addr + qty > num then Exception(s, fc, 2)
      else (s, [fc, (qty - 1) / 8 + 1] + BitBytes(v, addr, qty, (qty - 1) / 8 + 1))
  }

  /* ---- reading registers ---- */

  function HoldingBytes(r: Regs, now: U32, addr: nat, qty: nat): (b: seq<Byte>)
    requires addr + qty <= HOLDING_NUM
    ensures |b| == 2 * qty
    decreases qty
  {
    if qty == 0 then [] else HoldingBytes(r, now, addr, qty - 1) + Be16(ReadHolding(r, addr + qty - 1, now))
  }

  function InputBytes(r: Regs, addr: nat, qty: nat): (b: seq<Byte>)
    requires Shape(r) && addr + qty <= INPUT_NUM
    ensures |b| == 2 * qty
    decreases qty
  {
    if qty == 0 then [] else InputBytes(r, addr, qty - 1) + Be16(r.input[addr + qty - 1])
  }

  function Fc03(s: Server, d: seq<Byte>, now: U32): Result {
    if |d| != 4 then (s, [])
    else
      var addr, qty := GetBe16(d, 0), GetBe16(d, 2);
      if qty == 0 || qty > 125 then Exception(s, 3, 3)
      else if addr >= 5000 then Exception(s, 3, 1)
      else if addr + qty > HOLDING_NUM then Exception(s, 3, 2)
      else (s, [3, 2 * qty] + HoldingBytes(s.regs, now, addr, qty))
  }

  function Fc04(s: Server, d: seq<Byte>): Result
    requires Shape(s.regs)
  {
    if |d| != 4 then (s, [])
    else
      var addr, qty := GetBe16(d, 0), GetBe16(d, 2);
      if qty == 0 || qty > 125 then Exception(s, 4, 3)
      else if addr >= 5000 then Exception(s, 4, 1)
      else if addr + qty > INPUT_NUM then Exception(s, 4, 2)
      else (s, [4, 2 * qty] + InputBytes(s.regs, addr, qty))
  }

  /* ---- writing ---- */

  /** FC05: any value but zero is ON. */
  function Fc05(s: Server, d: seq<Byte>): Result
    requires Shape(s.regs)
  {
    if |d| != 4 then (s, [])
    else
      var w := WriteDoBit(s.regs, GetBe16(d, 0), GetBe16(d, 2) != 0);
      if !w.1 then Exception(s, 5, 2) else (s.(regs := w.0), [5] + d)
  }

  function Fc06(s: Server, d: seq<Byte>): Result
    requires Shape(s.regs)
  {
    if |d| != 4 then (s, [])
    else
      var w := WriteHolding(s.regs, GetBe16(d, 0), GetBe16(d, 2));
      if !w.1 then Exception(s, 6, 2) else (s.(regs := w.0), [6] + d)
  }

  /** FC08: echo, clear or read a counter. */
  function Fc08(s: Server, d: seq<Byte>): Result {
    if |d| != 4 then (s, [])
    else
      var sub, g := GetBe16(d, 0), s.diag;
      if sub == 0 then (s, [8] + d)
      else if sub == 0x0A then (s.(diag := Diag(0, 0, 0, 0, 0)), [8] + d)
      else if sub == 0x0B then (s, [8] + d[..2] + Be16(g.busMsg))
      else if sub == 0x0C then (s, [8] + d[..2] + Be16(g.crcErr))
      else if sub == 0x0D then (s, [8] + d[..2] + Be16(g.exc))
      else if sub == 0x0E then (s, [8] + d[..2] + Be16(g.srvMsg))
      else if sub == 0x0F then (s, [8] + d[..2] + Be16(g.noResp))
      else Exception(s, 8, 1)
  }

  /** Coil addresses wrap. */
  function CoilAddr(addr: U16, i: nat): U16 {
    (addr + i) % 0x1_0000
  }

  lemma CoilAddrPlain(addr: U16, i: nat)
    ensures addr + i < 0x1_0000 ==> CoilAddr(addr, i) == addr + i
    ensures addr + i == 0x1_0000 ==> CoilAddr(addr, i) == 0
  {
  }

  /** The state FC15 sends for coil i. */
  predicate CoilBit(data: seq<Byte>, i: nat)
    requires i / 8 < |data|
  {
    BitAt(data[i / 8], i % 8)
  }

  /** Coils i to qty - 1 in order, up to the first that does not exist. */
  function WriteCoils(r: Regs, addr: U16, data: seq<Byte>, i: nat, qty: nat): (w: (Regs, bool))
    requires Shape(r) && i <= qty && qty <= 8 * |data|
    ensures Shape(w.0)
    decreases qty - i
  {
    if i == qty then (r, true)
    else
      var w := WriteDoBit(r, CoilAddr(addr, i), CoilBit(data, i));
      if !w.1 then w else WriteCoils(w.0, addr, data, i + 1, qty)
  }

  function Fc15(s: Server, d: seq<Byte>): Result
    requires Shape(s.regs)
  {
    if |d| < 6 then (s, [])
    else
      var addr, qty, n := GetBe16(d, 0), GetBe16(d, 2), d[4];
      if qty == 0 || qty > 2000 then Exception(s, 15, 3)
      else if (qty - 1) / 8 + 1 != n || |d| != n + 5 then Exception(s, 15, 3)
      else
        var w := WriteCoils(s.regs, addr, d[5..], 0, qty);
        if !w.1 then Exception(s.(regs := w.0), 15, 2) else (s.(regs := w.0), [15] + d[..4])
  }

  /** Registers i to qty - 1 in order, up to the first that does not exist. */
  function WriteRegs(r: Regs, addr: nat, data: seq<Byte>, i: nat, qty: nat): (w: (Regs, bool))
    requires Shape(r) && i <= qty && 2 * qty <= |data| && addr + qty < 0x1_0000
    ensures Shape(w.0)
    decreases qty - i
  {
    if i == qty then (r, true)
    else
      var w := WriteHolding(r, addr + i, GetBe16(data, 2 * i));
      if !w.1 then w else WriteRegs(w.0, addr, data, i + 1, qty)
  }

  /** FC16, with the quotient the source tests instead of the product. */
  function Fc16(s: Server, d: seq<Byte>): Result
    requires Shape(s.regs)
  {
    if |d| < 6 then (s, [])
    else
      var addr, qty, n := GetBe16(d, 0), GetBe16(d, 2), d[4];
      if qty == 0 || qty > 125 then Exception(s, 16, 3)
      else if addr >= 5000 then Exception(s, 16, 1)
      else if |d| - 5 != n then Exception(s, 16, 3)
      else if n / qty != 2 then Exception(s, 16, 3)
      else
        QuotientTwo(n, qty);
        var w := WriteRegs(s.regs, addr, d[5..], 0, qty);
        if !w.1 then Exception(s.(regs := w.0), 16, 2) else (s.(regs := w.0), [16] + d[..4])
  }

  lemma QuotientTwo(n: nat, qty: nat)
    requires qty > 0 && n / qty == 2
    ensures 2 * qty <= n
  {
  }

  function Counted(s: Server): Server {
    s.(diag := s.diag.(busMsg := Sat(s.diag.busMsg), srvMsg := Sat(s.diag.srvMsg)))
  }

  /** One PDU. */
  function Process(s: Server, pdu: seq<Byte>, now: U32): Result
    requires Shape(s.regs)
  {
    if pdu == [] then (s, [])
    else
      var c, fc, d := Counted(s), pdu[0], pdu[1..];
      if fc == 1 then ReadBits(c, 1, d, DO_NUM, s.regs.holding[DO_IDX])
      else if fc == 2 then ReadBits(c, 2, d, DI_NUM, s.regs.input[DI_IDX])
      else if fc == 3 then Fc03(c, d, now)
      else if fc == 4 then Fc04(c, d)
      else if fc == 5 then Fc05(c, d)
      else if fc == 6 then Fc06(c, d)
      else if fc == 8 then Fc08(c, d)
      else if fc == 15 then Fc15(c, d)
      else if fc == 16 then Fc16(c, d)
      else Exception(c, fc, 1)
  }

  /* ---- what every PDU keeps ---- */

  lemma {:induction false} WriteCoilsInv(r: Regs, addr: U16, data: seq<Byte>, i: nat, qty: nat)
    requires RegMap.Inv(r) && i <= qty && qty <= 8 * |data|
    ensures RegMap.Inv(WriteCoils(r, addr, data, i, qty).0)
    decreases qty - i
  {
    if i < qty {
      var bit, on := CoilAddr(addr, i), CoilBit(data, i);
      WriteDoBitInv(r, bit, on);
      if WriteDoBit(r, bit, on).1 {
        WriteCoilsInv(WriteDoBit(r, bit, on).0, addr, data, i + 1, qty);
      }
    }
  }

  lemma {:induction false} WriteRegsInv(r: Regs, addr: nat, data: seq<Byte>, i: nat, qty: nat)
    requires RegMap.Inv(r) && i <= qty && 2 * qty <= |data| && addr + qty < 0x1_0000
    ensures RegMap.Inv(WriteRegs(r, addr, data, i, qty).0)
    decreases qty - i
  {
    if i < qty {
      var reg := GetBe16(data, 2 * i);
      WriteHoldingInv(r, addr + i, reg);
      if WriteHolding(r, addr + i, reg).1 {
        WriteRegsInv(WriteHolding(r, addr + i, reg).0, addr, data, i + 1, qty);
      }
    }
  }

  lemma Fc15Inv(s: Server, d: seq<Byte>)
    requires RegMap.Inv(s.regs)
    ensures RegMap.Inv(Fc15(s, d).0.regs)
  {
    if |d| >= 6 && 0 < GetBe16(d, 2) <= 2000 && (GetBe16(d, 2) - 1) / 8 + 1 == d[4] && |d| == d[4] + 5 {
      WriteCoilsInv(s.regs, GetBe16(d, 0), d[5..], 0, GetBe16(d, 2));
    }
  }

  lemma Fc16Inv(s: Server, d: seq<Byte>)
    requires RegMap.Inv(s.regs)
    ensures RegMap.Inv(Fc16(s, d).0.regs)
  {
    if |d| >= 6 && 0 < GetBe16(d, 2) <= 125 && GetBe16(d, 0) < 5000 && |d| - 5 == d[4] && d[4] / GetBe16(d, 2) == 2 {
      QuotientTwo(d[4], GetBe16(d, 2));
      WriteRegsInv(s.regs, GetBe16(d, 0), d[5..], 0, GetBe16(d, 2));
    }
  }

  /** No PDU separates the outputs from their register or leaves a trigger set. */
  lemma ProcessInv(s: Server, pdu: seq<Byte>, now: U32)
    requires RegMap.Inv(s.regs)
    ensures RegMap.Inv(Process(s, pdu, now).0.regs)
  {
    if pdu != [] {
      var c, fc, d := Counted(s), pdu[0], pdu[1..];
      if fc == 5 {
        if |d| == 4 { WriteDoBitInv(c.regs, GetBe16(d, 0), GetBe16(d, 2) != 0); }
      } else if fc == 6 {
        if |d| == 4 { WriteHoldingInv(c.regs, GetBe16(d, 0), GetBe16(d, 2)); }
      } else if fc == 15 {
        Fc15Inv(c, d);
      } else if fc == 16 {
        Fc16Inv(c, d);
      }
    }
  }

  /* ---- several coils at once ---- */

  /** The FC05 request for one coil. */
  function CoilPdu(addr: U16, on: bool): seq<Byte> {
    [5] + Be16(addr) + (if on then [0xFF, 0] else [0, 0])
  }

  /** The same writes as separate FC05 requests, all of them. */
  function WriteSingly(s: Server, addr: U16, data: seq<Byte>, i: nat, qty: nat): (t: Server)
    requires Shape(s.regs) && i <= qty && qty <= 8 * |data|
    ensures Shape(t.regs)
    decreases qty - i
  {
    if i == qty then s
    else
      var t := Process(s, CoilPdu(CoilAddr(addr, i), CoilBit(data, i)), 0).0;
      CoilPduEffect(s, CoilAddr(addr, i), CoilBit(data, i));
      WriteSingly(t, addr, data, i + 1, qty)
  }

  lemma CoilPduEffect(s: Server, addr: U16, on: bool)
    requires Shape(s.regs)
    ensures Process(s, CoilPdu(addr, on), 0).0.regs == WriteDoBit(s.regs, addr, on).0
  {
    var p := CoilPdu(addr, on);
    var d := p[1..];
    assert d == Be16(addr) + (if on then [0xFF, 0] else [0, 0]);
    assert GetBe16(d, 0) == addr;
    assert GetBe16(d, 2) == if on then 0xFF00 else 0;
  }

  /** The same writes on the registers alone: a missing coil is skipped. */
  function WriteEach(r: Regs, addr: U16, data: seq<Byte>, i: nat, qty: nat): (w: Regs)
    requires Shape(r) && i <= qty && qty <= 8 * |data|
    ensures Shape(w)
    decreases qty - i
  {
    if i == qty then r
    else WriteEach(WriteDoBit(r, CoilAddr(addr, i), CoilBit(data, i)).0, addr, data, i + 1, qty)
  }

  lemma {:induction false} SinglyIsEach(s: Server, addr: U16, data: seq<Byte>, i: nat, qty: nat)
    requires Shape(s.regs) && i <= qty && qty <= 8 * |data|
    ensures WriteSingly(s, addr, data, i, qty).regs == WriteEach(s.regs, addr, data, i, qty)
    decreases qty - i
  {
    if i < qty {
      var a, on := CoilAddr(addr, i), CoilBit(data, i);
      CoilPduEffect(s, a, on);
      SinglyIsEach(Process(s, CoilPdu(a, on), 0).0, addr, data, i + 1, qty);
    }
  }

  lemma MissingCoil(r: Regs, a: U16, on: bool)
    requires Shape(r) && a >= DO_NUM
    ensures WriteDoBit(r, a, on) == (r, false)
  {
  }

  // Beyond the last coil nothing is written, as long as the address does not wrap.
  lemma {:induction false} EachBeyond(r: Regs, addr: U16, data: seq<Byte>, i: nat, qty: nat)
    requires Shape(r) && i <= qty && qty <= 8 * |data|
    requires addr + i >= DO_NUM && addr + qty <= 0x1_0000
    ensures WriteEach(r, addr, data, i, qty) == r
    decreases qty - i
  {
    if i < qty {
      CoilAddrPlain(addr, i);
      MissingCoil(r, CoilAddr(addr, i), CoilBit(data, i));
      EachBeyond(r, addr, data, i + 1, qty);
    }
  }

  lemma {:induction false} CoilsAreEach(r: Regs, addr: U16, data: seq<Byte>, i: nat, qty: nat)
    requires Shape(r) && i <= qty && qty <= 8 * |data| && addr + qty <= 0x1_0000
    ensures WriteCoils(r, addr, data, i, qty).0 == WriteEach(r, addr, data, i, qty)
    decreases qty - i
  {
    if i < qty {
      CoilAddrPlain(addr, i);
      var w := WriteDoBit(r, CoilAddr(addr, i), CoilBit(data, i));
      if w.1 {
        CoilsAreEach(w.0, addr, data, i + 1, qty);
      } else {
        EachBeyond(r, addr, data, i + 1, qty);
      }
    }
  }

  // Every separate write that reaches a coil drives the outputs.
  lemma {:induction false} EachDrives(r: Regs, addr: U16, data: seq<Byte>, i: nat, qty: nat)
    requires Shape(r) && i <= qty && qty <= 8 * |data|
    ensures var log := WriteEach(r, addr, data, i, qty).log;
            |log| >= |r.log| && (addr + i <= 0x1_0000 < addr + qty ==> |log| > |r.log|)
    decreases qty - i
  {
    if i < qty {
      EachDrives(WriteDoBit(r, CoilAddr(addr, i), CoilBit(data, i)).0, addr, data, i + 1, qty);
      CoilAddrPlain(addr, i);
    }
  }

  lemma CoilsAreSingleIff(s: Server, addr: U16, data: seq<Byte>, qty: nat)
    requires Shape(s.regs) && 0 < qty <= 2000 && qty <= 8 * |data|
    ensures WriteCoils(s.regs, addr, data, 0, qty).0 == WriteSingly(s, addr, data, 0, qty).regs
            <==> addr + qty <= 0x1_0000
  {
    SinglyIsEach(s, addr, data, 0, qty);
    if addr + qty <= 0x1_0000 {
      CoilsAreEach(s.regs, addr, data, 0, qty);
    } else {
      CoilAddrPlain(addr, 0);
      MissingCoil(s.regs, addr, CoilBit(data, 0));
      EachDrives(s.regs, addr, data, 0, qty);
    }
  }

  /** The FC15 request for `qty` coils. */
  function CoilsPdu(addr: U16, qty: U16, data: seq<Byte>): seq<Byte>
    requires |data| < 256
  {
    [15] + (Be16(addr) + Be16(qty) + [|data|] + data)
  }

  lemma CoilsPduEffect(s: Server, addr: U16, qty: U16, data: seq<Byte>, now: U32)
    requires Shape(s.regs) && 0 < qty <= 2000 && |data| == (qty - 1) / 8 + 1
    ensures Process(s, CoilsPdu(addr, qty, data), now).0.regs == WriteCoils(s.regs, addr, data, 0, qty).0
  {
    var d := CoilsPdu(addr, qty, data)[1..];
    assert d == Be16(addr) + Be16(qty) + [|data|] + data;
    assert GetBe16(d, 0) == addr && GetBe16(d, 2) == qty && d[5..] == data;
  }

  /** An FC15 request has the effect of the same FC05 requests in order, if and
      only if the addresses do not run past the end of the address space: there
      FC15 stops where the separate requests go on at coil 0. */
  lemma MultipleIsSingleIff(s: Server, addr: U16, qty: U16, data: seq<Byte>, now: U32)
    requires Shape(s.regs) && 0 < qty <= 2000 && |data| == (qty - 1) / 8 + 1
    ensures Process(s, CoilsPdu(addr, qty, data), now).0.regs == WriteSingly(s, addr, data, 0, qty).regs
            <==> addr + qty <= 0x1_0000
  {
    CoilsPduEffect(s, addr, qty, data, now);
    CoilsAreSingleIff(s, addr, data, qty);
  }

  /* ---- accounting ---- */

  /** The request that clears the counters. */
  predicate ClearsCounters(pdu: seq<Byte>) {
    |pdu| == 5 && pdu[0] == 8 && GetBe16(pdu, 1) == 0x0A
  }

  /** The decoder never counts a missing response itself, counts every PDU once
      as a bus and a server message, and answers in at most 256 bytes. */
  lemma ProcessCounts(s: Server, pdu: seq<Byte>, now: U32)
    requires Shape(s.regs) && pdu != []
    ensures var r := Process(s, pdu, now);
            && |r.1| <= 256 && Shape(r.0.regs)
            && (!ClearsCounters(pdu) ==>
                  && r.0.diag.noResp == s.diag.noResp && r.0.diag.crcErr == s.diag.crcErr
                  && r.0.diag.busMsg == Sat(s.diag.busMsg) && r.0.diag.srvMsg == Sat(s.diag.srvMsg))
            && (ClearsCounters(pdu) ==> r.0.diag == Diag(0, 0, 0, 0, 0) && r.1 != [])
  {
  }
}
