/** Requests as clients build them, through either transport and back: what is sent
    reaches the decoder whole, and the answer carries what the client matches it by. */
module MbExchange {
  import opened Bits
  import opened Bytes
  import opened RegMap
  import opened MbServer
  import MbTcpStream
  import opened MbTransport

  /** The server with one more missing response. */
  function Unanswered(s: Server): Server {
    s.(diag := s.diag.(noResp := Capped(s.diag.noResp + 1)))
  }

  /* ---- Modbus TCP ---- */

  /** Transaction, protocol, length, unit, PDU. */
  function Adu(trans: U16, proto: U16, unit: Byte, pdu: seq<Byte>): (r: seq<Byte>)
    requires |pdu| < 0xFFFF
    ensures |r| == 7 + |pdu|
  {
    Be16(trans) + Be16(proto) + Be16(|pdu| + 1) + [unit] + pdu
  }

  lemma AduParts(trans: U16, proto: U16, unit: Byte, pdu: seq<Byte>)
    requires |pdu| < 0xFFFF
    ensures var a := Adu(trans, proto, unit, pdu);
            && a[..2] == Be16(trans) && a[..4] == Be16(trans) + Be16(proto) && GetBe16(a, 2) == proto
            && GetBe16(a, 4) == |pdu| + 1 && a[6] == unit && a[7..] == pdu
  {
  }

  /** The reply to a request of any PDU that fits: the same transaction and unit, the
      protocol 0, the length of what follows, and what the decoder answers; nothing to
      a broadcast or a PDU the decoder drops. */
  lemma AduServed(trans: U16, unit: Byte, pdu: seq<Byte>, s: Server, now: U32)
    requires Shape(s.regs) && 1 <= |pdu| <= 255
    ensures var p := Process(s, pdu, now);
            && |p.1| <= 256
            && AduProcess(Adu(trans, 0, unit, pdu), s, now) ==
               if unit == 0 || p.1 == [] then (Unanswered(p.0), []) else (p.0, Adu(trans, 0, unit, p.1))
  {
    var a := Adu(trans, 0, unit, pdu);
    PduReached(trans, unit, pdu);
    ProcessCounts(s, pdu, now);
    var p := Process(s, a[7..7 + PduLen(a)], now);
    HeaderOf(trans, unit, p.1, a);
  }

  lemma PduReached(trans: U16, unit: Byte, pdu: seq<Byte>)
    requires 1 <= |pdu| <= 255
    ensures var a := Adu(trans, 0, unit, pdu);
            && GetBe16(a, 2) == 0 && a[6] == unit && a[..2] == Be16(trans) && a[7..7 + PduLen(a)] == pdu
  {
    var a := Adu(trans, 0, unit, pdu);
    AduParts(trans, 0, unit, pdu);
    assert a[7..7 + |pdu|] == pdu;
  }

  lemma HeaderOf(trans: U16, unit: Byte, out: seq<Byte>, a: seq<Byte>)
    requires |a| >= 8 && a[..2] == Be16(trans) && a[6] == unit && |out| <= 256
    ensures a[..2] + [0, 0] + Be16((|out| + 1) % 0x1_0000) + [a[6]] + out == Adu(trans, 0, unit, out)
  {
    assert Be16(0) == [0, 0];
  }

  /** A length field that does not match: bytes beyond the announced end are not served,
      a length beyond what came is cut to that, and one below two means a function code
      alone. */
  lemma WrongLength(trans: U16, len: U16, unit: Byte, pdu: seq<Byte>, k: nat, s: Server, now: U32)
    requires Shape(s.regs) && pdu != [] && k == Min(if len < 2 then 1 else Min(len, 256) - 1, |pdu|)
    ensures 1 <= k <= 255
    ensures AduProcess(Be16(trans) + Be16(0) + Be16(len) + [unit] + pdu, s, now) ==
            AduProcess(Adu(trans, 0, unit, pdu[..k]), s, now)
  {
    var a, b := Be16(trans) + Be16(0) + Be16(len) + [unit] + pdu, Adu(trans, 0, unit, pdu[..k]);
    PduReached(trans, unit, pdu[..k]);
    assert GetBe16(a, 2) == 0 && GetBe16(a, 4) == len && a[6] == b[6] && a[..2] == b[..2];
    assert a[7..7 + PduLen(a)] == pdu[..k];
    SameService(a, b, s, now);
  }

  lemma SameService(a: seq<Byte>, b: seq<Byte>, s: Server, now: U32)
    requires Shape(s.regs) && |a| >= 8 && |b| >= 8 && GetBe16(a, 2) == 0 && GetBe16(b, 2) == 0
    requires a[6] == b[6] && a[..2] == b[..2] && a[7..7 + PduLen(a)] == b[7..7 + PduLen(b)]
    ensures AduProcess(a, s, now) == AduProcess(b, s, now)
  {
  }

  /** A foreign protocol is refused under its own header, and nothing is counted. */
  lemma ForeignRefused(trans: U16, proto: U16, unit: Byte, pdu: seq<Byte>, s: Server, now: U32)
    requires Shape(s.regs) && 1 <= |pdu| < 0xFFFF && proto != 0
    ensures AduProcess(Adu(trans, proto, unit, pdu), s, now) ==
            (s, Adu(trans, proto, unit, [if pdu[0] >= 128 then pdu[0] else pdu[0] + 128, 4]))
  {
    var a := Adu(trans, proto, unit, pdu);
    AduParts(trans, proto, unit, pdu);
    assert a[7] == a[7..][0] == pdu[0];
    var e: seq<Byte> := [if pdu[0] >= 128 then pdu[0] else pdu[0] + 128, 4];
    assert a[..4] + Be16(3) + [a[6], e[0], e[1]] == Adu(trans, proto, unit, e);
  }

  datatype Sent = Sent(trans: U16, unit: Byte, pdu: seq<Byte>)

  predicate Sendable(q: Sent) {
    1 <= |q.pdu| <= 255
  }

  predicate AllSendable(qs: seq<Sent>) {
    forall i :: 0 <= i < |qs| ==> Sendable(qs[i])
  }

  function AduOf(q: Sent): seq<Byte>
    requires Sendable(q)
  {
    Adu(q.trans, 0, q.unit, q.pdu)
  }

  /** All requests, one behind the other. */
  function Wire(qs: seq<Sent>): seq<Byte>
    requires AllSendable(qs)
  {
    if qs == [] then [] else AduOf(qs[0]) + Wire(qs[1..])
  }

  function Adus(qs: seq<Sent>): (r: seq<seq<Byte>>)
    requires AllSendable(qs)
    ensures |r| == |qs| && forall i :: 0 <= i < |qs| ==> r[i] == AduOf(qs[i])
  {
    seq(|qs|, i requires 0 <= i < |qs| => AduOf(qs[i]))
  }

  /** Requests sent back to back are taken apart where they were put together. */
  lemma {:induction false} RequestsFramed(qs: seq<Sent>)
    requires AllSendable(qs)
    ensures MbTcpStream.Frames(Wire(qs)) == Adus(qs) && MbTcpStream.Rest(Wire(qs)) == []
    decreases |qs|
  {
    if qs != [] {
      var a, rest := AduOf(qs[0]), Wire(qs[1..]);
      AduParts(qs[0].trans, 0, qs[0].unit, qs[0].pdu);
      var w := Wire(qs);
      assert w[4] == a[4] && w[5] == a[5];
      assert MbTcpStream.FrameLen(w) == |a| && MbTcpStream.Consumed(w) == |a|;
      assert w[..|a|] == a && w[|a|..] == rest;
      RequestsFramed(qs[1..]);
      assert Adus(qs) == [a] + Adus(qs[1..]);
    }
  }

  /* ---- Modbus RTU ---- */

  /** ... and one with one more message on the bus. */
  function Heard(s: Server): Server {
    s.(diag := s.diag.(busMsg := Capped(s.diag.busMsg + 1)))
  }

  /** Broken frames, too long, too short or with a wrong CRC: nothing is answered, no
      register changes, and each is counted on the bus, as unanswered, and in the last
      case as a CRC error. */
  lemma BrokenFrame(rx: Rtu, unit: Byte, s: Server, now: U32)
    requires Shape(s.regs) && rx.buf != [] && (rx.overflow || |rx.buf| < 4 || FrameCrc(rx.buf) != {})
    ensures var t := Unanswered(Heard(s));
            Expire(rx, unit, s, now) ==
            if rx.overflow || |rx.buf| < 4 then (t, None)
            else (t.(diag := t.diag.(crcErr := Capped(s.diag.crcErr + 1))), None)
  {
    var crcOk := |rx.buf| >= FRAME_MIN && CrcOk(rx.buf);
    if |rx.buf| >= 4 { CrcOkIffZero(rx.buf); }
    NotServed(rx, crcOk, unit, s, now);
  }

  lemma NotServed(rx: Rtu, crcOk: bool, unit: Byte, s: Server, now: U32)
    requires Shape(s.regs) && rx.buf != [] && (rx.overflow || |rx.buf| < 4 || !crcOk)
    ensures var t := Unanswered(Heard(s));
            Judge(rx, crcOk, unit, s, now) ==
            if rx.overflow || |rx.buf| < 4 then (t, None)
            else (t.(diag := t.diag.(crcErr := Capped(s.diag.crcErr + 1))), None)
  {
  }

  /** A frame a master sends: to this unit, or to all, it is served, and answered under
      the same unit number with the CRC behind it; to another it is only counted. */
  lemma RtuServed(unit: Byte, to: Byte, pdu: seq<Byte>, s: Server, now: U32)
    requires Shape(s.regs) && 1 <= |pdu| <= 253
    ensures var p := Process(s, pdu, now);
            Expire(Received(Closed([to] + pdu)), unit, s, now) ==
            if to != 0 && to != unit then (Unanswered(Heard(s)), None)
            else if to == 0 || p.1 == [] then (Unanswered(p.0), None)
            else (p.0, Some(Closed([to] + p.1)))
  {
    RtuReached(to, pdu);
    Judged(Closed([to] + pdu), unit, s, now);
    Answered(to, Process(s, pdu, now));
  }

  lemma RtuReached(to: Byte, pdu: seq<Byte>)
    requires 1 <= |pdu| <= 253
    ensures var f := Closed([to] + pdu);
            && Received(f) == Rtu(f, false) && |f| >= 4 && CrcOk(f) && f[0] == to && f[1..|f| - 2] == pdu
  {
    var f := Closed([to] + pdu);
    ClosedFrameOk([to] + pdu);
    assert f[..|f|] == f;
  }

  lemma Judged(f: seq<Byte>, unit: Byte, s: Server, now: U32)
    requires Shape(s.regs) && |f| >= 4
    ensures Judge(Rtu(f, false), true, unit, s, now) ==
            if f[0] != 0 && f[0] != unit then (Unanswered(Heard(s)), None)
            else Answer(f[0], Process(s, f[1..|f| - 2], now))
  {
  }

  lemma Answered(to: Byte, p: Result)
    ensures Answer(to, p) ==
            if to == 0 || p.1 == [] then (Unanswered(p.0), None) else (p.0, Some(Closed([to] + p.1)))
  {
  }

  lemma NibbleUp(v: nat, i: nat)
    requires i >= 4
    ensures BitAt(v, i) == BitAt(v / 16, i - 4)
  {
    var a := v / 2;
    var b := a / 2;
    var c := b / 2;
    assert BitAt(v, i) == BitAt(a, i - 1) == BitAt(b, i - 2) == BitAt(c, i - 3) == BitAt(c / 2, i - 4);
  }

  /** The generator of the frame CRC is 0xA001, and the register starts with all ones. */
  lemma Generator(i: nat)
    ensures i in MODBUS <==> i < 16 && BitAt(0xA001, i)
    ensures i in ONES16 <==> i < 16
  {
    if 12 <= i < 16 {
      NibbleUp(0xA001, i);
      NibbleUp(0xA00, i - 4);
      NibbleUp(0xA0, i - 8);
      Nibble(0xA, i - 12);
    } else if 8 <= i < 12 {
      NibbleUp(0xA001, i);
      NibbleUp(0xA00, i - 4);
      Nibble(0, i - 8);
    } else if 4 <= i < 8 {
      NibbleUp(0xA001, i);
      Nibble(0, i - 4);
    } else if i < 4 {
      Nibble(0xA001, i);
    }
  }

  lemma Nibble(v: nat, i: nat)
    requires i < 4
    ensures BitAt(v, i) <==> v / (if i == 0 then 1 else if i == 1 then 2 else if i == 2 then 4 else 8) % 2 == 1
  {
    var a := v / 2;
    var b := a / 2;
    assert b == v / 4 && b / 2 == v / 8;
    assert BitAt(v, 0) <==> v % 2 == 1;
    assert BitAt(v, 1) <==> BitAt(a, 0);
    assert BitAt(v, 2) == BitAt(a, 1) == BitAt(b, 0);
    assert BitAt(v, 3) == BitAt(a, 2) == BitAt(b, 1) == BitAt(b / 2, 0);
  }
}
