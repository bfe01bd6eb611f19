/** What single-bit and single-word requests mean to a client: which bits a reply
    carries, what a written coil or word leaves to be read, and which hooks run. */
module MbCoils {
  import opened Bits
  import opened Bytes
  import opened RegMap
  import opened MbServer
  import opened MbReplies

  /* ---- reading bits ---- */

  /** The exception a bit read gets, if any. */
  function BitFault(addr: U16, qty: U16, num: nat): Option<Byte> {
    if qty == 0 || qty > 2000 then Some(3) else if addr + qty > num then Some(2) else None
  }

  /** The bits a reply carries, lowest first. */
  predicate ReplyBit(out: seq<Byte>, i: nat)
    requires 2 + i / 8 < |out|
  {
    BitAt(out[2 + i / 8], i % 8)
  }

  /** A reply of `qty` bits of a word from `addr` on, padded with zeros to whole bytes. */
  predicate CarriesBits(out: seq<Byte>, fc: Byte, word: U16, addr: nat, qty: nat) {
    && 0 < qty <= 2000 && |out| == 2 + (qty + 7) / 8 && out[..2] == [fc, (qty + 7) / 8]
    && forall i :: 0 <= i < 8 * ((qty + 7) / 8) ==> (ReplyBit(out, i) <==> i < qty && BitAt(word, addr + i))
  }

  lemma BitsCarried(s: Server, fc: Byte, d: seq<Byte>, addr: U16, qty: U16, num: nat, word: U16)
    requires |d| == 4 && GetBe16(d, 0) == addr && GetBe16(d, 2) == qty
    ensures var r := ReadBits(s, fc, d, num, word); var fault := BitFault(addr, qty, num);
            && r.0.regs == s.regs
            && (fault.Some? ==> r.1 == [if fc >= 128 then fc else fc + 128, fault.value])
            && (fault.None? ==> CarriesBits(r.1, fc, word, addr, qty))
  {
    if BitFault(addr, qty, num).None? {
      var n := (qty - 1) / 8 + 1;
      assert n == (qty + 7) / 8;
      var out := ReadBits(s, fc, d, num, word).1;
      assert out == [fc, n] + BitBytes(word, addr, qty, n);
      forall i | 0 <= i < 8 * n ensures ReplyBit(out, i) <==> i < qty && BitAt(word, addr + i) {
        BitOfReply(word, addr, qty, n, i);
        assert out[2 + i / 8] == BitBytes(word, addr, qty, n)[i / 8];
      }
    }
  }

  /** FC01: an exception with the code of the first fault, or a reply whose bit i is
      coil addr + i, the state of that digital output in holding register 0. */
  lemma CoilReply(s: Server, addr: U16, qty: U16, now: U32)
    requires Shape(s.regs)
    ensures var r := Process(s, Request(1, addr, qty), now); var fault := BitFault(addr, qty, 8);
            && r.0.regs == s.regs
            && (fault.Some? ==> r.1 == [0x81, fault.value])
            && (fault.None? ==> CarriesBits(r.1, 1, s.regs.holding[0], addr, qty))
  {
    RequestParts(1, addr, qty);
    BitsCarried(Counted(s), 1, Request(1, addr, qty)[1..], addr, qty, 8, s.regs.holding[0]);
  }

  /** FC02: the same for the sixteen digital inputs in input register 5. */
  lemma DiscreteReply(s: Server, addr: U16, qty: U16, now: U32)
    requires Shape(s.regs)
    ensures var r := Process(s, Request(2, addr, qty), now); var fault := BitFault(addr, qty, 16);
            && r.0.regs == s.regs
            && (fault.Some? ==> r.1 == [0x82, fault.value])
            && (fault.None? ==> CarriesBits(r.1, 2, s.regs.input[5], addr, qty))
  {
    RequestParts(2, addr, qty);
    BitsCarried(Counted(s), 2, Request(2, addr, qty)[1..], addr, qty, 16, s.regs.input[5]);
  }

  /* ---- writing one coil or word ---- */

  lemma CoilWritten(s: Server, bit: U16, val: U16, now: U32)
    requires Shape(s.regs)
    ensures var w := Process(s, Request(5, bit, val), now);
            if bit < 8 then w.1 == Request(5, bit, val) && w.0.regs == WriteDoBit(s.regs, bit, val != 0).0
            else w.1 == [0x85, 2] && w.0.regs == s.regs
  {
    RequestParts(5, bit, val);
  }

  /** FC05 and then FC01: the coil that was written is on exactly when its value was
      not zero, every other coil is as before, and a missing one is refused. */
  lemma CoilRoundTrip(s: Server, bit: U16, val: U16, c: U16, now: U32, later: U32)
    requires Shape(s.regs) && c < 8
    ensures var w := Process(s, Request(5, bit, val), now);
            && Shape(w.0.regs) && w.1 == (if bit < 8 then Request(5, bit, val) else [0x85, 2])
            && var r := Process(w.0, Request(1, c, 1), later);
               && |r.1| == 3 && r.1[..2] == [1, 1]
               && (ReplyBit(r.1, 0) <==> if c == bit then val != 0 else BitAt(s.regs.holding[0], c))
  {
    CoilWritten(s, bit, val, now);
    var w := Process(s, Request(5, bit, val), now);
    CoilReply(w.0, c, 1, later);
    if bit < 8 { CoilReadsBack(s.regs, bit, val != 0, c); }
  }

  /** FC06 stores the word it was sent, echoes the request, and touches nothing else;
      a missing register is refused. */
  lemma WordWritten(s: Server, addr: U16, val: U16, now: U32)
    requires RegMap.Inv(s.regs)
    ensures var w := Process(s, Request(6, addr, val), now);
            if addr < 18 then w.1 == Request(6, addr, val) && w.0.regs.input == s.regs.input
                              && w.0.regs.holding == s.regs.holding[addr := Stored(addr, val)]
            else w.1 == [0x86, 2] && w.0.regs == s.regs
  {
    RequestParts(6, addr, val);
    if addr < 18 { WriteHoldingStores(s.regs, addr, val); }
  }

  /* ---- several coils at once ---- */

  /** FC15 in the registers: coil c of the range is bit c - addr of the data, lowest bit
      of the first byte first, and the others are as before. */
  lemma {:induction false} CoilsStored(r: Regs, addr: U16, data: seq<Byte>, i: nat, qty: nat, c: nat)
    requires Shape(r) && i <= qty <= 8 * |data| && addr + qty <= 8 && c < 8
    ensures var w := WriteCoils(r, addr, data, i, qty);
            && w.1 && w.0.input == r.input
            && (BitAt(w.0.holding[0], c) <==>
                if addr + i <= c < addr + qty then BitAt(data[(c - addr) / 8], (c - addr) % 8)
                else BitAt(r.holding[0], c))
    decreases qty - i
  {
    if i < qty {
      CoilAddrPlain(addr, i);
      CoilReadsBack(r, addr + i, CoilBit(data, i), c);
      CoilsStored(WriteDoBit(r, CoilAddr(addr, i), CoilBit(data, i)).0, addr, data, i + 1, qty, c);
    }
  }

  /** The reply to FC15 and its effect: an echo of address and quantity if and only if
      one to 2000 coils are asked for, with as many bytes as hold them, and all exist. */
  lemma CoilsServed(s: Server, addr: U16, qty: U16, data: seq<Byte>, now: U32)
    requires Shape(s.regs) && 0 < |data| < 256
    ensures var r := Process(s, CoilsPdu(addr, qty, data), now);
            && r.1 == (if qty == 0 || qty > 2000 || (qty + 7) / 8 != |data| then [0x8F, 3]
                       else if addr + qty > 8 then [0x8F, 2] else [15] + (Be16(addr) + Be16(qty)))
            && (r.1[0] == 15 ==> r.0.regs == WriteCoils(s.regs, addr, data, 0, qty).0)
  {
    CoilsParts(addr, qty, data);
    Fc15Served(Counted(s), CoilsPdu(addr, qty, data)[1..], addr, qty, data);
  }

  lemma CoilsParts(addr: U16, qty: U16, data: seq<Byte>)
    requires |data| < 256
    ensures var d := CoilsPdu(addr, qty, data)[1..];
            && |d| == 5 + |data| && GetBe16(d, 0) == addr && GetBe16(d, 2) == qty && d[4] == |data|
            && d[5..] == data && d[..4] == Be16(addr) + Be16(qty)
  {
    assert CoilsPdu(addr, qty, data)[1..] == Be16(addr) + Be16(qty) + [|data|] + data;
  }

  lemma Fc15Served(s: Server, d: seq<Byte>, addr: U16, qty: U16, data: seq<Byte>)
    requires Shape(s.regs) && 0 < |data| < 256 && |d| == 5 + |data| && d[4] == |data| && d[5..] == data
    requires GetBe16(d, 0) == addr && GetBe16(d, 2) == qty && d[..4] == Be16(addr) + Be16(qty)
    ensures var r := Fc15(s, d);
            && r.1 == (if qty == 0 || qty > 2000 || (qty + 7) / 8 != |data| then [0x8F, 3]
                       else if addr + qty > 8 then [0x8F, 2] else [15] + (Be16(addr) + Be16(qty)))
            && (r.1[0] == 15 ==> r.0.regs == WriteCoils(s.regs, addr, data, 0, qty).0)
  {
    if 0 < qty <= 2000 && (qty + 7) / 8 == |data| {
      assert (qty - 1) / 8 + 1 == (qty + 7) / 8;
      if addr + qty <= 8 {
        CoilsStored(s.regs, addr, data, 0, qty, 0);
      } else {
        SomeMissing(s.regs, addr, data, 0, qty);
      }
    }
  }

  lemma {:induction false} SomeMissing(r: Regs, addr: U16, data: seq<Byte>, i: nat, qty: nat)
    requires Shape(r) && i < qty <= 8 * |data| && addr + qty > 8
    ensures addr + i <= 0xFFFF ==> !WriteCoils(r, addr, data, i, qty).1
    decreases qty - i
  {
    if addr + i < 8 {
      CoilAddrPlain(addr, i);
      SomeMissing(WriteDoBit(r, CoilAddr(addr, i), CoilBit(data, i)).0, addr, data, i + 1, qty);
    } else if addr + i <= 0xFFFF {
      CoilAddrPlain(addr, i);
    }
  }

  /** FC15 and then FC01 over the same range: the coils read back as they were sent. */
  lemma CoilsRoundTrip(s: Server, addr: U16, qty: U16, data: seq<Byte>, now: U32, later: U32)
    requires Shape(s.regs) && 0 < qty && addr + qty <= 8 && |data| == 1
    ensures var w := Process(s, CoilsPdu(addr, qty, data), now); Shape(w.0.regs)
    ensures var w := Process(s, CoilsPdu(addr, qty, data), now); var r := Process(w.0, Request(1, addr, qty), later);
            && |r.1| == 3 && r.1[..2] == [1, 1]
            && forall i :: 0 <= i < 8 ==> (BitAt(r.1[2], i) <==> i < qty && BitAt(data[0], i))
  {
    var w := Process(s, CoilsPdu(addr, qty, data), now).0;
    CoilsIn(s, addr, qty, data, now, w);
    CoilsRead(w, addr, qty, data[0], later);
  }

  lemma CoilsIn(s: Server, addr: U16, qty: U16, data: seq<Byte>, now: U32, w: Server)
    requires Shape(s.regs) && 0 < qty && addr + qty <= 8 && |data| == 1
    requires w == Process(s, CoilsPdu(addr, qty, data), now).0
    ensures Shape(w.regs)
    ensures forall c :: addr <= c < addr + qty ==> (BitAt(w.regs.holding[0], c) <==> BitAt(data[0], c - addr))
  {
    CoilsServed(s, addr, qty, data, now);
    CoilsAll(s.regs, addr, data, qty);
  }

  lemma CoilsAll(r: Regs, addr: U16, data: seq<Byte>, qty: nat)
    requires Shape(r) && 0 < qty && addr + qty <= 8 && |data| == 1
    ensures var h := WriteCoils(r, addr, data, 0, qty).0.holding;
            forall c :: addr <= c < addr + qty ==> (BitAt(h[0], c) <==> BitAt(data[0], c - addr))
  {
    forall c | addr <= c < addr + qty
      ensures BitAt(WriteCoils(r, addr, data, 0, qty).0.holding[0], c) <==> BitAt(data[0], c - addr)
    {
      CoilsStored(r, addr, data, 0, qty, c);
    }
  }

  lemma CoilsRead(w: Server, addr: U16, qty: U16, b: Byte, later: U32)
    requires Shape(w.regs) && 0 < qty && addr + qty <= 8
    requires forall c :: addr <= c < addr + qty ==> (BitAt(w.regs.holding[0], c) <==> BitAt(b, c - addr))
    ensures var r := Process(w, Request(1, addr, qty), later);
            && |r.1| == 3 && r.1[..2] == [1, 1]
            && forall i :: 0 <= i < 8 ==> (BitAt(r.1[2], i) <==> i < qty && BitAt(b, i))
  {
    CoilReply(w, addr, qty, later);
    SameBits(Process(w, Request(1, addr, qty), later).1, w.regs.holding[0], addr, qty, b);
  }

  lemma SameBits(out: seq<Byte>, word: U16, addr: nat, qty: nat, b: Byte)
    requires 0 < qty <= 8 && addr + qty <= 8 && CarriesBits(out, 1, word, addr, qty)
    requires forall c :: addr <= c < addr + qty ==> (BitAt(word, c) <==> BitAt(b, c - addr))
    ensures |out| == 3 && out[..2] == [1, 1]
    ensures forall i :: 0 <= i < 8 ==> (BitAt(out[2], i) <==> i < qty && BitAt(b, i))
  {
    forall i | 0 <= i < 8 ensures BitAt(out[2], i) <==> i < qty && BitAt(b, i) {
      assert ReplyBit(out, i) <==> i < qty && BitAt(word, addr + i);
      if i < qty { assert BitAt(word, addr + i) <==> BitAt(b, addr + i - addr); }
    }
  }

  /* ---- requests that are refused ---- */

  /** FC16 with any quantity and any number of data bytes: an echo of address and
      quantity if and only if one to 125 registers are asked for, all exist, and the
      bytes divided by the quantity give two, which lets up to a third too many pass. */
  lemma WordsServed(s: Server, addr: U16, qty: U16, data: seq<Byte>, now: U32)
    requires RegMap.Inv(s.regs) && 0 < |data| < 256
    ensures Process(s, WritePdu(addr, qty, data), now).1 ==
            if qty == 0 || qty > 125 then [0x90, 3]
            else if addr >= 5000 then [0x90, 1]
            else if !(2 * qty <= |data| < 3 * qty) then [0x90, 3]
            else if addr + qty > 18 then [0x90, 2]
            else [16] + (Be16(addr) + Be16(qty))
  {
    WordsParts(addr, qty, data);
    if 0 < qty <= 125 {
      Quotient(|data|, qty);
      if addr < 5000 && 2 * qty <= |data| { WriteRegsStores(s.regs, addr, data, 0, qty); }
    }
    Fc16Served(Counted(s), WritePdu(addr, qty, data)[1..], addr, qty, data);
  }

  lemma Quotient(n: nat, q: nat)
    requires q > 0
    ensures n / q == 2 <==> 2 * q <= n < 3 * q
  {
    var k := n / q;
    assert n == q * k + n % q;
    assert k <= 1 ==> q * k <= q;
    assert k >= 3 ==> q * k >= 3 * q;
  }

  lemma WordsParts(addr: U16, qty: U16, data: seq<Byte>)
    requires |data| < 256
    ensures var d := WritePdu(addr, qty, data)[1..];
            && |d| == 5 + |data| && GetBe16(d, 0) == addr && GetBe16(d, 2) == qty && d[4] == |data|
            && d[5..] == data && d[..4] == Be16(addr) + Be16(qty)
  {
    assert WritePdu(addr, qty, data)[1..] == Be16(addr) + Be16(qty) + [|data|] + data;
  }

  lemma Fc16Served(s: Server, d: seq<Byte>, addr: U16, qty: U16, data: seq<Byte>)
    requires Shape(s.regs) && 0 < |data| < 256 && |d| == 5 + |data| && d[4] == |data| && d[5..] == data
    requires GetBe16(d, 0) == addr && GetBe16(d, 2) == qty && d[..4] == Be16(addr) + Be16(qty)
    requires qty > 0 ==> (|data| / qty == 2 <==> 2 * qty <= |data| < 3 * qty)
    requires 0 < qty <= 125 && addr < 5000 && 2 * qty <= |data| ==>
               (WriteRegs(s.regs, addr, data, 0, qty).1 <==> addr + qty <= 18)
    ensures Fc16(s, d).1 ==
            if qty == 0 || qty > 125 then [0x90, 3]
            else if addr >= 5000 then [0x90, 1]
            else if !(2 * qty <= |data| < 3 * qty) then [0x90, 3]
            else if addr + qty > 18 then [0x90, 2]
            else [16] + (Be16(addr) + Be16(qty))
  {
  }

  predicate Known(fc: Byte) {
    fc in {1, 2, 3, 4, 5, 6, 8, 15, 16}
  }

  /** A function code that is not served gets exception 1 and changes no register; a
      served one of the wrong length gets no reply and changes none either. */
  lemma Refused(s: Server, pdu: seq<Byte>, now: U32)
    requires Shape(s.regs) && pdu != []
    ensures var r := Process(s, pdu, now);
            && (!Known(pdu[0]) ==> r.1 == [if pdu[0] >= 128 then pdu[0] else pdu[0] + 128, 1])
            && (Known(pdu[0]) ==> (r.1 == [] <==> if pdu[0] < 15 then |pdu| != 5 else |pdu| < 7))
            && (!Known(pdu[0]) || r.1 == [] ==> r.0.regs == s.regs)
  {
  }

  /** FC08: sub-function 0 is echoed, and one that is not served gets exception 1. */
  lemma EchoQuery(s: Server, sub: U16, x: U16, now: U32)
    requires Shape(s.regs) && (sub == 0 || !(0x0A <= sub <= 0x0F))
    ensures var r := Process(s, Request(8, sub, x), now);
            r.0.regs == s.regs && r.1 == if sub == 0 then Request(8, 0, x) else [0x88, 1]
  {
    RequestParts(8, sub, x);
  }

  /* ---- the hooks of a write ---- */

  /** Switching the history: the hook runs with what the register says from then on, if
      and only if the register changes. */
  lemma HistorySwitched(s: Server, val: U16, now: U32)
    requires RegMap.Inv(s.regs)
    ensures Process(s, Request(6, 5, val), now).0.regs.log ==
            s.regs.log + if val == s.regs.holding[5] then [] else [HistoryEnable(val != 0)]
  {
    RequestParts(6, 5, val);
  }

  lemma LowWordSets(r: Regs, hi: U16, lo: U16)
    requires RegMap.Inv(r)
    ensures var w := WriteHolding(WriteHolding(r, 14, hi).0, 15, lo).0;
            w.log == r.log + if lo == r.holding[15] then [] else [SetTimestamp(hi * 0x1_0000 + lo)]
  {
    WriteHoldingStores(r, 14, hi);
    assert WriteHolding(r, 14, hi).0.log == r.log;
  }

  /** Setting the clock with FC16: it is set, to exactly the 32-bit value sent, if and
      only if the low word differs from the one written last; the high word alone does
      not set it. */
  lemma ClockSetIff(s: Server, hi: U16, lo: U16, now: U32)
    requires RegMap.Inv(s.regs)
    ensures Process(s, WritePdu(14, 2, Be16(hi) + Be16(lo)), now).0.regs.log ==
            s.regs.log + if lo == s.regs.holding[15] then [] else [SetTimestamp(hi * 0x1_0000 + lo)]
  {
    var data := Be16(hi) + Be16(lo);
    WritePduEffect(s, 14, 2, data, now);
    assert GetBe16(data, 0) == hi && GetBe16(data, 2) == lo;
    WriteHoldingStores(s.regs, 14, hi);
    WriteHoldingInv(s.regs, 14, hi);
    var r1 := WriteHolding(s.regs, 14, hi).0;
    WriteHoldingStores(r1, 15, lo);
    LowWordSets(s.regs, hi, lo);
    var r2 := WriteHolding(r1, 15, lo).0;
    assert WriteRegs(r2, 14, data, 2, 2) == (r2, true);
    assert WriteRegs(r1, 14, data, 1, 2) == WriteRegs(r2, 14, data, 2, 2);
    assert WriteRegs(s.regs, 14, data, 0, 2) == WriteRegs(r1, 14, data, 1, 2);
  }
}
