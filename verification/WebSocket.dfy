/** The client-frame parser of the WebSocket server (sections 5.2 and 5.3 of
    RFC 6455): a byte-driven state machine against an encoder of frames. */
module WebSocket {
  import opened Bits
  import opened Bytes
  import opened Streams

  const PAYLOAD_MAX: nat := 10 * 1024 + 16

  /* ---- masking ---- */

  function XorBits(a: nat, b: nat, k: nat): (r: nat)
    decreases k
  {
    if k == 0 then 0 else 2 * XorBits(a / 2, b / 2, k - 1) + (a + b) % 2
  }

  lemma XorOnce(x: nat, d: nat, y: nat)
    requires y == 2 * x + d && d < 2
    ensures y / 2 == x && y % 2 == d
  {
  }

  lemma ParityTwice(a: nat, b: nat, y: nat)
    requires y % 2 == (a + b) % 2
    ensures (y + b) % 2 == a % 2
  {
    var n := (a + b) / 2;
    assert a + b == 2 * n + y % 2;
    assert y + b == 2 * (y / 2) + y % 2 + b;
    assert y + b + a == 2 * (y / 2 + n + y % 2);
  }

  lemma {:induction false} XorBitsTwice(a: nat, b: nat, k: nat)
    requires a < Pow2(k) && b < Pow2(k)
    ensures XorBits(a, b, k) < Pow2(k) && XorBits(XorBits(a, b, k), b, k) == a
    decreases k
  {
    if k > 0 {
      XorBitsTwice(a / 2, b / 2, k - 1);
      var x, y := XorBits(a / 2, b / 2, k - 1), XorBits(a, b, k);
      XorOnce(x, (a + b) % 2, y);
      ParityTwice(a, b, y);
      assert XorBits(y, b, k) == 2 * XorBits(x, b / 2, k - 1) + (y + b) % 2;
    }
  }

  lemma ByteXor(a: Byte, b: Byte)
    ensures XorBits(a, b, 8) < 256 && XorBits(XorBits(a, b, 8), b, 8) == a
  {
    assert Pow2(4) == 16 && Pow2(8) == 16 * Pow2(4);
    XorBitsTwice(a, b, 8);
  }

  /** Exclusive or of bytes, which undoes itself. */
  function XorByte(a: Byte, b: Byte): Byte {
    ByteXor(a, b);
    XorBits(a, b, 8)
  }

  lemma XorTwice(a: Byte, b: Byte)
    ensures XorByte(XorByte(a, b), b) == a
  {
    ByteXor(a, b);
  }

  lemma {:induction false} XorBitsAt(a: nat, b: nat, k: nat, i: nat)
    requires i < k
    ensures BitAt(XorBits(a, b, k), i) <==> BitAt(a, i) != BitAt(b, i)
    decreases k
  {
    var x, y := XorBits(a / 2, b / 2, k - 1), XorBits(a, b, k);
    XorOnce(x, (a + b) % 2, y);
    if i > 0 {
      XorBitsAt(a / 2, b / 2, k - 1, i - 1);
    } else {
      Parity(a, b);
    }
  }

  lemma Parity(a: nat, b: nat)
    ensures (a + b) % 2 == 1 <==> a % 2 != b % 2
  {
    var p, q := a / 2, b / 2;
    assert a + b == 2 * (p + q) + a % 2 + b % 2;
  }

  /** It is the exclusive or, bit by bit. */
  lemma XorByteBit(a: Byte, b: Byte, i: nat)
    requires i < 8
    ensures BitAt(XorByte(a, b), i) <==> BitAt(a, i) != BitAt(b, i)
  {
    XorBitsAt(a, b, 8, i);
  }

  /* ---- the parser ---- */

  datatype Feed = Header | Len16 | Len64 | Mask | Payload

  datatype Event = Frame(fin: bool, opcode: nat, payload: seq<Byte>)

  /** The parser's fields, the frames it reported and whether the session is
      still open.  `hdrGot` counts header, length and mask bytes alike. */
  datatype Parser = Parser(state: Feed, hdr: seq<Byte>, hdrGot: nat, fin: bool, opcode: nat, masked: bool,
                           mask: seq<Byte>, plen: nat, payload: seq<Byte>, events: seq<Event>, open: bool)

  predicate WellFormed(p: Parser) {
    && |p.hdr| == 10 && |p.mask| == 4 && |p.payload| <= PAYLOAD_MAX
    && p.hdrGot < (match p.state case Header => 2 case Len16 => 2 case Len64 => 8 case Mask => 4 case Payload => 1)
  }

  function AfterLength(masked: bool): Feed {
    if masked then Mask else Payload
  }

  /** Eight length bytes, most significant first. */
  function Big64(h: seq<Byte>, k: nat): nat
    requires k <= |h|
    decreases k
  {
    if k == 0 then 0 else Big64(h, k - 1) * 256 + h[k - 1]
  }

  function HeaderByte(p: Parser, b: Byte): (q: Parser)
    requires WellFormed(p) && p.state == Header
    ensures WellFormed(q)
  {
    var h := p.hdr[p.hdrGot := b];
    if p.hdrGot == 0 then p.(hdr := h, hdrGot := 1)
    else
      var n, masked := h[1] % 128, h[1] >= 128;
      var r := p.(hdr := h, hdrGot := 0, fin := h[0] >= 128, opcode := h[0] % 16, masked := masked, plen := n,
                  payload := []);
      if n == 126 then r.(state := Len16)
      else if n == 127 then r.(state := Len64)
      else if n > PAYLOAD_MAX then r.(open := false)
      else r.(state := AfterLength(masked))
  }

  function Len16Byte(p: Parser, b: Byte): (q: Parser)
    requires WellFormed(p) && p.state == Len16
    ensures WellFormed(q)
  {
    var h := p.hdr[p.hdrGot := b];
    if p.hdrGot == 0 then p.(hdr := h, hdrGot := 1)
    else
      var n := Big64(h, 2);
      if n > PAYLOAD_MAX then p.(hdr := h, hdrGot := 0, plen := n, open := false)
      else p.(hdr := h, hdrGot := 0, plen := n, state := AfterLength(p.masked))
  }

  /** The 64-bit length is cut to the 32 bits of the target's `usize`. */
  function Len64Byte(p: Parser, b: Byte): (q: Parser)
    requires WellFormed(p) && p.state == Len64
    ensures WellFormed(q)
  {
    var h := p.hdr[p.hdrGot := b];
    if p.hdrGot < 7 then p.(hdr := h, hdrGot := p.hdrGot + 1)
    else
      var n := Wrap32(Big64(h, 8));
      if n > PAYLOAD_MAX then p.(hdr := h, hdrGot := 0, open := false)
      else p.(hdr := h, hdrGot := 0, plen := n, state := AfterLength(p.masked))
  }

  function MaskByte(p: Parser, b: Byte): (q: Parser)
    requires WellFormed(p) && p.state == Mask
    ensures WellFormed(q)
  {
    var m := p.mask[p.hdrGot := b];
    if p.hdrGot < 3 then p.(mask := m, hdrGot := p.hdrGot + 1) else p.(mask := m, hdrGot := 0, state := Payload)
  }

  function PayloadByte(p: Parser, b: Byte): (q: Parser)
    requires WellFormed(p) && p.state == Payload
    ensures WellFormed(q)
  {
    var idx := |p.payload|;
    if idx >= PAYLOAD_MAX then p.(open := false)
    else
      var data := p.payload + [if p.masked then XorByte(b, p.mask[idx % 4]) else b];
      if |data| == p.plen
      then p.(payload := data, events := p.events + [Frame(p.fin, p.opcode, data)], state := Header, hdrGot := 0)
      else p.(payload := data)
  }

  /** One byte; a closed session ignores what follows. */
  function Step(p: Parser, b: Byte): (q: Parser)
    requires WellFormed(p)
    ensures WellFormed(q)
  {
    if !p.open then p
    else
      match p.state
      case Header => HeaderByte(p, b)
      case Len16 => Len16Byte(p, b)
      case Len64 => Len64Byte(p, b)
      case Mask => MaskByte(p, b)
      case Payload => PayloadByte(p, b)
  }

  type WsParser = p: Parser | WellFormed(p)
    witness Parser(Header, [0, 0, 0, 0, 0, 0, 0, 0, 0, 0], 0, false, 0, false, [0, 0, 0, 0], 0, [], [], true)

  function Next(p: WsParser, b: Byte): WsParser {
    Step(p, b)
  }

  /** All bytes of a stream. */
  function Parse(p: WsParser, data: seq<Byte>): WsParser {
    Fold(Next, p, data)
  }

  function ParseChunks(p: WsParser, chunks: seq<seq<Byte>>): WsParser {
    FoldChunks(Next, p, chunks)
  }

  /** However the stream is cut into calls, parsing ends the same. */
  lemma ChunkingIrrelevant(p: WsParser, chunks: seq<seq<Byte>>)
    ensures ParseChunks(p, chunks) == Parse(p, Flatten(chunks))
  {
    ChunksIrrelevant(Next, p, chunks);
  }

  /* ---- frames as a client sends them ---- */

  datatype Form = Short | Medium | Long

  datatype ClientFrame = ClientFrame(fin: bool, rsv: nat, opcode: nat, payload: seq<Byte>,
                                     mask: Option<seq<Byte>>, form: Form)

  /** A payload the parser has room for, in any length form that can hold it. */
  predicate Sendable(f: ClientFrame) {
    && f.rsv < 8 && f.opcode < 16
    && |f.payload| <= PAYLOAD_MAX && (f.form == Short ==> |f.payload| < 126)
    && (f.mask.Some? ==> |f.mask.value| == 4)
  }

  function FirstByte(f: ClientFrame): Byte
    requires Sendable(f)
  {
    (if f.fin then 128 else 0) + 16 * f.rsv + f.opcode
  }

  function SecondByte(f: ClientFrame): Byte
    requires Sendable(f)
  {
    (if f.mask.Some? then 128 else 0) +
    (match f.form case Short => |f.payload| case Medium => 126 case Long => 127)
  }

  function LengthBytes(f: ClientFrame): seq<Byte>
    requires Sendable(f)
  {
    match f.form
    case Short => []
    case Medium => BeBytes(|f.payload|, 2)
    case Long => BeBytes(|f.payload|, 8)
  }

  function MaskBytes(f: ClientFrame): seq<Byte> {
    if f.mask.Some? then f.mask.value else []
  }

  /** The byte that travels for payload byte k. */
  function Travelling(f: ClientFrame, k: nat): Byte
    requires Sendable(f) && k < |f.payload|
  {
    if f.mask.Some? then XorByte(f.payload[k], f.mask.value[k % 4]) else f.payload[k]
  }

  /** The payload as it travels, from byte k on. */
  function Masked(f: ClientFrame, k: nat): seq<Byte>
    requires Sendable(f) && k <= |f.payload|
    decreases |f.payload| - k
  {
    if k == |f.payload| then []
    else [Travelling(f, k)] + Masked(f, k + 1)
  }

  function Encode(f: ClientFrame): seq<Byte>
    requires Sendable(f)
  {
    [FirstByte(f), SecondByte(f)] + (LengthBytes(f) + (MaskBytes(f) + Masked(f, 0)))
  }

  function Reported(f: ClientFrame): Event {
    Frame(f.fin, f.opcode, f.payload)
  }

  /* ---- where the parser stands inside a frame ---- */

  predicate Ready(q: WsParser, es: seq<Event>) {
    q.open && q.state == Header && q.hdrGot == 0 && q.events == es
  }

  predicate Inside(q: WsParser, f: ClientFrame, es: seq<Event>, got: nat) {
    && q.open && q.events == es && q.fin == f.fin && q.opcode == f.opcode && q.masked == f.mask.Some?
    && q.hdrGot == got
  }

  predicate AtLength(q: WsParser, f: ClientFrame, es: seq<Event>, state: Feed, got: nat) {
    Inside(q, f, es, got) && q.payload == [] && q.state == state
  }

  predicate AtMask(q: WsParser, f: ClientFrame, es: seq<Event>) {
    Inside(q, f, es, 0) && q.payload == [] && q.plen == |f.payload| && q.state == AfterLength(q.masked)
  }

  predicate InMask(q: WsParser, f: ClientFrame, es: seq<Event>, got: nat) {
    && Inside(q, f, es, got) && q.payload == [] && q.plen == |f.payload| && q.state == Mask
    && f.mask.Some? && |f.mask.value| == 4 && got <= 4 && q.mask[..got] == f.mask.value[..got]
  }

  predicate AtPayload(q: WsParser, f: ClientFrame, es: seq<Event>, k: nat) {
    && Inside(q, f, es, 0) && q.state == Payload && q.plen == |f.payload| && k <= |f.payload|
    && q.payload == f.payload[..k] && (f.mask.Some? ==> q.mask == f.mask.value)
  }

  lemma HeaderParsed(p: WsParser, f: ClientFrame, es: seq<Event>)
    requires Ready(p, es) && Sendable(f)
    ensures var q := Next(Next(p, FirstByte(f)), SecondByte(f));
            match f.form
            case Short => AtMask(q, f, es)
            case Medium => AtLength(q, f, es, Len16, 0)
            case Long => AtLength(q, f, es, Len64, 0)
  {
  }

  lemma {:induction false} BigPrefix(h: seq<Byte>, d: seq<Byte>, k: nat)
    requires k <= |h| && k <= |d| && h[..k] == d[..k]
    ensures Big64(h, k) == Big64(d, k)
    decreases k
  {
    if k > 0 {
      assert h[..k - 1] == h[..k][..k - 1] && d[..k - 1] == d[..k][..k - 1];
      assert h[k - 1] == h[..k][k - 1] && d[k - 1] == d[..k][k - 1];
      BigPrefix(h, d, k - 1);
    }
  }

  lemma {:induction false} BigOfBe(n: nat, k: nat)
    requires n == 0 || (k >= 1 && n < 256) || (k >= 2 && n < 0x1_0000)
    ensures Big64(BeBytes(n, k), k) == n
    decreases k
  {
    if k > 0 {
      BigOfBe(n / 256, k - 1);
      assert BeBytes(n, k)[..k - 1] == BeBytes(n / 256, k - 1)[..k - 1];
      BigPrefix(BeBytes(n, k), BeBytes(n / 256, k - 1), k - 1);
    }
  }

  lemma Len16Parsed(q: WsParser, f: ClientFrame, es: seq<Event>)
    requires AtLength(q, f, es, Len16, 0) && |f.payload| <= PAYLOAD_MAX
    ensures AtMask(Parse(q, BeBytes(|f.payload|, 2)), f, es)
  {
    var d := BeBytes(|f.payload|, 2);
    BigOfBe(|f.payload|, 2);
    var q1 := Next(q, d[0]);
    var q2 := Next(q1, d[1]);
    assert d[1..] == [d[1]] && d[1..][1..] == [];
    BigPrefix(q2.hdr, d, 2);
    assert Parse(q, d) == Parse(q1, d[1..]) == Parse(q2, []);
  }

  // The stream from byte k on: one byte, then the rest.
  lemma ParseFrom(q: WsParser, d: seq<Byte>, k: nat)
    requires k < |d|
    ensures Parse(q, d[k..]) == Parse(Next(q, d[k]), d[k + 1..])
  {
    assert d[k..][0] == d[k] && d[k..][1..] == d[k + 1..];
  }

  lemma ParseEnd(q: WsParser, d: seq<Byte>)
    ensures Parse(q, d[|d|..]) == q
  {
    assert d[|d|..] == [];
  }

  // Storing byte k extends an agreeing prefix.
  lemma Extends(h: seq<Byte>, d: seq<Byte>, k: nat)
    requires k < |h| && k < |d| && h[..k] == d[..k]
    ensures h[k := d[k]][..k + 1] == d[..k + 1]
  {
    var x, y := h[k := d[k]][..k + 1], d[..k + 1];
    forall i | 0 <= i <= k ensures x[i] == y[i] {
      if i < k {
        assert h[..k][i] == d[..k][i];
      }
    }
  }

  lemma Len64Last(q: WsParser, f: ClientFrame, es: seq<Event>, d: seq<Byte>)
    requires |d| == 8 && AtLength(q, f, es, Len64, 7) && q.hdr[..7] == d[..7]
    requires Big64(d, 8) == |f.payload| <= PAYLOAD_MAX
    ensures AtMask(Next(q, d[7]), f, es)
  {
    Extends(q.hdr, d, 7);
    var h := q.hdr[7 := d[7]];
    BigPrefix(h, d, 8);
    NoWrap(Big64(h, 8));
    assert Next(q, d[7]) == q.(hdr := h, hdrGot := 0, plen := |f.payload|, state := AfterLength(q.masked));
  }

  lemma NoWrap(n: nat)
    requires n < 0x1_0000_0000
    ensures Wrap32(n) == n
  {
  }

  lemma {:induction false} Len64Parsed(q: WsParser, f: ClientFrame, es: seq<Event>, d: seq<Byte>, k: nat)
    requires |d| == 8 && k < 8 && AtLength(q, f, es, Len64, k) && q.hdr[..k] == d[..k]
    requires Big64(d, 8) == |f.payload| <= PAYLOAD_MAX
    ensures AtMask(Parse(q, d[k..]), f, es)
    decreases 8 - k
  {
    ParseFrom(q, d, k);
    if k < 7 {
      Extends(q.hdr, d, k);
      Len64Parsed(Next(q, d[k]), f, es, d, k + 1);
    } else {
      Len64Last(q, f, es, d);
      ParseEnd(Next(q, d[7]), d);
    }
  }

  lemma MaskLast(q: WsParser, f: ClientFrame, es: seq<Event>)
    requires InMask(q, f, es, 3)
    ensures AtPayload(Next(q, f.mask.value[3]), f, es, 0)
  {
    var m := f.mask.value;
    Extends(q.mask, m, 3);
    assert m[..4] == m && q.mask[3 := m[3]][..4] == q.mask[3 := m[3]];
  }

  lemma {:induction false} MaskParsed(q: WsParser, f: ClientFrame, es: seq<Event>, k: nat)
    requires k < 4 && InMask(q, f, es, k)
    ensures AtPayload(Parse(q, f.mask.value[k..]), f, es, 0)
    decreases 4 - k
  {
    ParseFrom(q, f.mask.value, k);
    if k < 3 {
      Extends(q.mask, f.mask.value, k);
      MaskParsed(Next(q, f.mask.value[k]), f, es, k + 1);
    } else {
      MaskLast(q, f, es);
      ParseEnd(Next(q, f.mask.value[3]), f.mask.value);
    }
  }

  lemma PayloadStep(q: WsParser, f: ClientFrame, es: seq<Event>, k: nat)
    requires Sendable(f) && k < |f.payload| && AtPayload(q, f, es, k)
    ensures var q' := Next(q, Travelling(f, k));
            if k + 1 < |f.payload| then AtPayload(q', f, es, k + 1) else Ready(q', es + [Reported(f)])
  {
    if f.mask.Some? {
      XorTwice(f.payload[k], f.mask.value[k % 4]);
    }
    assert f.payload[..k + 1] == f.payload[..k] + [f.payload[k]];
    if k + 1 == |f.payload| {
      assert f.payload[..k + 1] == f.payload;
    }
  }

  lemma {:induction false} PayloadParsed(q: WsParser, f: ClientFrame, es: seq<Event>, k: nat)
    requires Sendable(f) && k < |f.payload| && AtPayload(q, f, es, k)
    ensures Ready(Parse(q, Masked(f, k)), es + [Reported(f)])
    decreases |f.payload| - k
  {
    PayloadStep(q, f, es, k);
    var d := Masked(f, k);
    assert d[0..] == d && d[0] == Travelling(f, k) && d[1..] == Masked(f, k + 1);
    ParseFrom(q, d, 0);
    if k + 1 < |f.payload| {
      PayloadParsed(Next(q, Travelling(f, k)), f, es, k + 1);
    } else {
      ParseEnd(Next(q, Travelling(f, k)), d);
    }
  }

  // Length and mask fields in all their forms.
  lemma LengthParsed(p: WsParser, f: ClientFrame, es: seq<Event>)
    requires Ready(p, es) && Sendable(f)
    ensures AtMask(Parse(Next(Next(p, FirstByte(f)), SecondByte(f)), LengthBytes(f)), f, es)
  {
    HeaderParsed(p, f, es);
    var q := Next(Next(p, FirstByte(f)), SecondByte(f));
    match f.form
    case Short =>
    case Medium => Len16Parsed(q, f, es);
    case Long =>
      var d := BeBytes(|f.payload|, 8);
      BigOfBe(|f.payload|, 8);
      assert d[0..] == d;
      Len64Parsed(q, f, es, d, 0);
  }

  lemma MaskFieldParsed(q: WsParser, f: ClientFrame, es: seq<Event>)
    requires AtMask(q, f, es) && Sendable(f)
    ensures AtPayload(Parse(q, MaskBytes(f)), f, es, 0)
  {
    if f.mask.Some? {
      assert f.mask.value[0..] == f.mask.value;
      MaskParsed(q, f, es, 0);
    }
  }

  lemma FrontParsed(p: WsParser, f: ClientFrame, es: seq<Event>) returns (q: WsParser)
    requires Ready(p, es) && Sendable(f)
    ensures AtPayload(q, f, es, 0)
    ensures forall rest ::
      Parse(q, rest) == Parse(p, [FirstByte(f), SecondByte(f)] + (LengthBytes(f) + (MaskBytes(f) + rest)))
  {
    var h := Next(Next(p, FirstByte(f)), SecondByte(f));
    var l := Parse(h, LengthBytes(f));
    LengthParsed(p, f, es);
    q := Parse(l, MaskBytes(f));
    MaskFieldParsed(l, f, es);
    forall rest
      ensures Parse(q, rest) == Parse(p, [FirstByte(f), SecondByte(f)] + (LengthBytes(f) + (MaskBytes(f) + rest)))
    {
      FoldConcat(Next, l, MaskBytes(f), rest);
      FoldConcat(Next, h, LengthBytes(f), MaskBytes(f) + rest);
      FoldConcat(Next, p, [FirstByte(f), SecondByte(f)], LengthBytes(f) + (MaskBytes(f) + rest));
      assert [FirstByte(f), SecondByte(f)][1..] == [SecondByte(f)] && [SecondByte(f)][1..] == [];
    }
  }

  /* ---- whole streams ---- */

  /** A frame with a payload is reported exactly, unmasked, and the parser is
      ready for the next. */
  lemma FrameParsed(p: WsParser, f: ClientFrame, es: seq<Event>)
    requires Ready(p, es) && Sendable(f) && f.payload != []
    ensures Ready(Parse(p, Encode(f)), es + [Reported(f)])
  {
    var q := FrontParsed(p, f, es);
    PayloadParsed(q, f, es, 0);
  }

  /** x is the exclusive or of a and b. */
  predicate IsXor(x: Byte, a: Byte, b: Byte) {
    forall i :: 0 <= i < 8 ==> (BitAt(x, i) <==> BitAt(a, i) != BitAt(b, i))
  }

  lemma XorIsXor(a: Byte, b: Byte)
    ensures IsXor(XorByte(a, b), a, b)
  {
    forall i | 0 <= i < 8 ensures BitAt(XorByte(a, b), i) <==> BitAt(a, i) != BitAt(b, i) { XorByteBit(a, b, i); }
  }

  function Unmask(wire: seq<Byte>, mask: seq<Byte>): (r: seq<Byte>)
    requires |mask| == 4
    ensures |r| == |wire| && forall k :: 0 <= k < |wire| ==> r[k] == XorByte(wire[k], mask[k % 4])
  {
    seq(|wire|, k requires 0 <= k < |wire| => XorByte(wire[k], mask[k % 4]))
  }

  lemma {:induction false} Wired(f: ClientFrame, wire: seq<Byte>, k: nat)
    requires Sendable(f) && f.mask.Some? && k <= |wire| == |f.payload|
    requires forall j :: 0 <= j < |wire| ==> f.payload[j] == XorByte(wire[j], f.mask.value[j % 4])
    ensures Masked(f, k) == wire[k..]
    decreases |wire| - k
  {
    if k < |wire| {
      XorTwice(wire[k], f.mask.value[k % 4]);
      Wired(f, wire, k + 1);
    }
  }

  /** The bytes of a frame, from what travels in it. */
  function OnWire(f: ClientFrame, mask: seq<Byte>): seq<Byte>
    requires Sendable(f)
  {
    [FirstByte(f), SecondByte(f)] + (LengthBytes(f) + (mask + f.payload))
  }

  lemma SameFront(f: ClientFrame, g: ClientFrame, data: seq<Byte>)
    requires Sendable(f) && g == f.(payload := data) && |data| == |f.payload|
    ensures Sendable(g) && FirstByte(g) == FirstByte(f) && SecondByte(g) == SecondByte(f)
    ensures LengthBytes(g) == LengthBytes(f)
  {
  }

  lemma WireEncoded(f: ClientFrame, g: ClientFrame, mask: seq<Byte>)
    requires Sendable(f) && f.mask == Some(mask) && g == f.(payload := Unmask(f.payload, mask))
    ensures Sendable(g) && Encode(g) == OnWire(f, mask)
  {
    var data := Unmask(f.payload, mask);
    SameFront(f, g, data);
    Wired(g, f.payload, 0);
    assert f.payload[0..] == f.payload;
    assert Masked(g, 0) == f.payload && MaskBytes(g) == mask;
  }

  /** A masked frame, whatever bytes travel in it (`wire.payload`): the payload that is
      reported is, byte for byte, what travelled combined with mask byte k % 4. */
  lemma MaskedFrameRead(p: WsParser, wire: ClientFrame, mask: seq<Byte>, es: seq<Event>) returns (data: seq<Byte>)
    requires Ready(p, es) && Sendable(wire) && wire.mask == Some(mask) && wire.payload != []
    ensures Ready(Parse(p, OnWire(wire, mask)), es + [Frame(wire.fin, wire.opcode, data)])
    ensures |data| == |wire.payload|
    ensures forall k :: 0 <= k < |data| ==> IsXor(data[k], wire.payload[k], mask[k % 4])
  {
    data := Unmask(wire.payload, mask);
    var g := wire.(payload := data);
    WireEncoded(wire, g, mask);
    FrameParsed(p, g, es);
    forall k | 0 <= k < |data| ensures IsXor(data[k], wire.payload[k], mask[k % 4]) {
      XorIsXor(wire.payload[k], mask[k % 4]);
    }
  }

  const HELLO_MASK: seq<Byte> := [0x37, 0xFA, 0x21, 0x3D]
  const HELLO_WIRE: seq<Byte> := [0x7F, 0x9F, 0x4D, 0x51, 0x58]
  const HELLO: seq<Byte> := [0x48, 0x65, 0x6C, 0x6C, 0x6F]

  lemma HelloByte0()
    ensures XorByte(0x7F, 0x37) == 0x48
  {
    assert XorBits(0x01, 0x00, 2) == 0x01 && XorBits(0x07, 0x03, 4) == 0x04 && XorBits(0x1F, 0x0D, 6) == 0x12;
  }

  lemma HelloByte1()
    ensures XorByte(0x9F, 0xFA) == 0x65
  {
    assert XorBits(0x02, 0x03, 2) == 0x01 && XorBits(0x09, 0x0F, 4) == 0x06 && XorBits(0x27, 0x3E, 6) == 0x19;
  }

  lemma HelloByte2()
    ensures XorByte(0x4D, 0x21) == 0x6C
  {
    assert XorBits(0x01, 0x00, 2) == 0x01 && XorBits(0x04, 0x02, 4) == 0x06 && XorBits(0x13, 0x08, 6) == 0x1B;
  }

  lemma HelloByte3()
    ensures XorByte(0x51, 0x3D) == 0x6C
  {
    assert XorBits(0x01, 0x00, 2) == 0x01 && XorBits(0x05, 0x03, 4) == 0x06 && XorBits(0x14, 0x0F, 6) == 0x1B;
  }

  lemma HelloByte4()
    ensures XorByte(0x58, 0x37) == 0x6F
  {
    assert XorBits(0x01, 0x00, 2) == 0x01 && XorBits(0x05, 0x03, 4) == 0x06 && XorBits(0x16, 0x0D, 6) == 0x1B;
  }

  lemma HelloXor()
    ensures Unmask(HELLO_WIRE, HELLO_MASK) == HELLO
  {
    var u := Unmask(HELLO_WIRE, HELLO_MASK);
    HelloByte0();
    HelloByte1();
    HelloByte2();
    HelloByte3();
    HelloByte4();
    assert u[0] == 0x48 && u[1] == 0x65 && u[2] == 0x6C && u[3] == 0x6C && u[4] == 0x6F;
  }

  /** The masked text frame of section 5.7 of RFC 6455 reports "Hello". */
  lemma HelloFrame(p: WsParser)
    requires Ready(p, [])
    ensures Ready(Parse(p, [0x81, 0x85] + (HELLO_MASK + HELLO_WIRE)), [Frame(true, 1, HELLO)])
  {
    var wire := ClientFrame(true, 0, 1, HELLO_WIRE, Some(HELLO_MASK), Short);
    HelloXor();
    WireEncoded(wire, wire.(payload := HELLO), HELLO_MASK);
    FrameParsed(p, wire.(payload := HELLO), []);
    assert OnWire(wire, HELLO_MASK) == [0x81, 0x85] + ([] + (HELLO_MASK + HELLO_WIRE));
    assert [] + (HELLO_MASK + HELLO_WIRE) == HELLO_MASK + HELLO_WIRE;
    assert [] + [Frame(true, 1, HELLO)] == [Frame(true, 1, HELLO)];
  }

  predicate AllSendable(fs: seq<ClientFrame>) {
    forall k :: 0 <= k < |fs| ==> Sendable(fs[k])
  }

  function Stream(fs: seq<ClientFrame>): seq<Byte>
    requires AllSendable(fs)
  {
    if fs == [] then [] else Encode(fs[0]) + Stream(fs[1..])
  }

  function AllReported(fs: seq<ClientFrame>): (r: seq<Event>)
    ensures |r| == |fs|
  {
    if fs == [] then [] else [Reported(fs[0])] + AllReported(fs[1..])
  }

  /** Inside a frame of length zero the parser waits for a length that it has
      already passed, until the buffer is full. */
  predicate Stuck(q: WsParser, es: seq<Event>) {
    q.events == es && (!q.open || (q.state == Payload && q.plen == 0))
  }

  lemma {:induction false} StuckForever(q: WsParser, es: seq<Event>, rest: seq<Byte>)
    requires Stuck(q, es)
    ensures Stuck(Parse(q, rest), es)
    ensures !q.open || |q.payload| + |rest| > PAYLOAD_MAX ==> !Parse(q, rest).open
    decreases |rest|
  {
    if rest != [] {
      StuckForever(Next(q, rest[0]), es, rest[1..]);
    }
  }

  lemma Regroup(a: seq<Byte>, b: seq<Byte>, c: seq<Byte>, rest: seq<Byte>)
    ensures a + (b + (c + [])) + rest == a + (b + (c + rest))
  {
    assert c + [] == c;
  }

  lemma EmptyFrameSticks(p: WsParser, f: ClientFrame, es: seq<Event>, rest: seq<Byte>)
    requires Ready(p, es) && Sendable(f) && f.payload == []
    ensures Parse(p, Encode(f) + rest).events == es
  {
    var q := FrontParsed(p, f, es);
    StuckForever(q, es, rest);
    assert Masked(f, 0) == [];
    Regroup([FirstByte(f), SecondByte(f)], LengthBytes(f), MaskBytes(f), rest);
  }

  predicate NonEmpty(fs: seq<ClientFrame>) {
    forall k :: 0 <= k < |fs| ==> fs[k].payload != []
  }

  lemma NonEmptyRest(fs: seq<ClientFrame>)
    requires fs != [] && fs[0].payload != []
    ensures NonEmpty(fs) <==> NonEmpty(fs[1..])
  {
    if !NonEmpty(fs) {
      var k :| 0 <= k < |fs| && fs[k].payload == [];
      assert fs[1..][k - 1].payload == [];
    }
  }

  /** What a stream does to a ready parser: everything, or too little. */
  predicate Delivered(q: WsParser, fs: seq<ClientFrame>, es: seq<Event>) {
    if NonEmpty(fs) then Ready(q, es + AllReported(fs)) else |q.events| < |es| + |fs|
  }

  lemma DeliveredNext(q: WsParser, fs: seq<ClientFrame>, es: seq<Event>)
    requires fs != [] && fs[0].payload != [] && Delivered(q, fs[1..], es + [Reported(fs[0])])
    ensures Delivered(q, fs, es)
  {
    NonEmptyRest(fs);
    var one, rest := [Reported(fs[0])], AllReported(fs[1..]);
    if NonEmpty(fs) {
      assert es + one + rest == es + (one + rest);
      assert AllReported(fs) == one + rest;
    }
  }

  lemma {:induction false} StreamParsed(p: WsParser, fs: seq<ClientFrame>, es: seq<Event>)
    requires Ready(p, es) && AllSendable(fs)
    ensures Delivered(Parse(p, Stream(fs)), fs, es)
    decreases |fs|
  {
    if fs == [] {
      assert es + AllReported(fs) == es;
    } else if fs[0].payload == [] {
      EmptyFrameSticks(p, fs[0], es, Stream(fs[1..]));
      assert !NonEmpty(fs);
    } else {
      FrameParsed(p, fs[0], es);
      StreamParsed(Parse(p, Encode(fs[0])), fs[1..], es + [Reported(fs[0])]);
      FoldConcat(Next, p, Encode(fs[0]), Stream(fs[1..]));
      DeliveredNext(Parse(p, Stream(fs)), fs, es);
    }
  }

  lemma DeliveredIff(q: WsParser, fs: seq<ClientFrame>)
    requires Delivered(q, fs, [])
    ensures q.events == AllReported(fs) <==> NonEmpty(fs)
  {
    assert [] + AllReported(fs) == AllReported(fs);
  }

  /** Any list of frames, masked or not, in any legal length form, cut into
      calls in any way: the reported frames are the sent ones if and only if no
      payload is empty. */
  lemma FramesReportedIff(p: WsParser, fs: seq<ClientFrame>, chunks: seq<seq<Byte>>)
    requires Ready(p, []) && AllSendable(fs) && Flatten(chunks) == Stream(fs)
    ensures ParseChunks(p, chunks).events == AllReported(fs) <==> NonEmpty(fs)
  {
    ChunkingIrrelevant(p, chunks);
    StreamParsed(p, fs, []);
    DeliveredIff(Parse(p, Stream(fs)), fs);
  }

  /** A 64-bit length is refused by its low 32 bits only. */
  lemma LongLengthIff(q: WsParser, f: ClientFrame, es: seq<Event>, d: seq<Byte>)
    requires |d| == 8 && AtLength(q, f, es, Len64, 7) && q.hdr[..7] == d[..7]
    ensures Next(q, d[7]).open <==> Wrap32(Big64(d, 8)) <= PAYLOAD_MAX
  {
    Extends(q.hdr, d, 7);
    BigPrefix(q.hdr[7 := d[7]], d, 8);
  }

  /* ---- the parser as it runs ---- */

  /** The fields are updated byte by byte; `events` is what the callback saw. */
  class Session {
    var state: Feed
    var hdr: seq<Byte>
    var hdrGot: nat
    var fin: bool
    var opcode: nat
    var masked: bool
    var mask: seq<Byte>
    var plen: nat
    var got: nat
    var payload: seq<Byte>
    var events: seq<Event>

    ghost predicate Valid()
      reads this
    {
      |payload| == PAYLOAD_MAX && got <= PAYLOAD_MAX && WellFormed(State(true))
    }

    ghost function State(open: bool): Parser
      reads this
    {
      Parser(state, hdr, hdrGot, fin, opcode, masked, mask, plen,
             if got <= |payload| then payload[..got] else [], events, open)
    }

    constructor ()
      ensures Valid() && Ready(State(true), [])
    {
      state, hdr, hdrGot, fin, opcode, masked := Header, seq(10, i => 0), 0, false, 0, false;
      mask, plen, got, payload, events := [0, 0, 0, 0], 0, 0, seq(PAYLOAD_MAX, i => 0), [];
    }

    method FeedHeader(b: Byte) returns (ok: bool)
      requires Valid() && state == Header
      modifies this
      ensures Valid() && State(ok) == HeaderByte(old(State(true)), b)
    {
      hdr := hdr[hdrGot := b];
      hdrGot := hdrGot + 1;
      if hdrGot < 2 {
        return true;
      }
      fin, opcode := hdr[0] >= 128, hdr[0] % 16;
      masked, plen := hdr[1] >= 128, hdr[1] % 128;
      got, hdrGot := 0, 0;
      if plen == 126 {
        state := Len16;
      } else if plen == 127 {
        state := Len64;
      } else if plen > PAYLOAD_MAX {
        return false;
      } else {
        state := AfterLength(masked);
      }
      ok := true;
    }

    method FeedLen16(b: Byte) returns (ok: bool)
      requires Valid() && state == Len16
      modifies this
      ensures Valid() && State(ok) == Len16Byte(old(State(true)), b)
    {
      hdr := hdr[hdrGot := b];
      if hdrGot == 0 {
        hdrGot := 1;
        return true;
      }
      hdrGot := 0;
      plen := Big64(hdr, 2);
      if plen > PAYLOAD_MAX {
        return false;
      }
      state := AfterLength(masked);
      ok := true;
    }

    method FeedLen64(b: Byte) returns (ok: bool)
      requires Valid() && state == Len64
      modifies this
      ensures Valid() && State(ok) == Len64Byte(old(State(true)), b)
    {
      hdr := hdr[hdrGot := b];
      if hdrGot < 7 {
        hdrGot := hdrGot + 1;
        return true;
      }
      hdrGot := 0;
      var v: nat := 0;
      for i := 0 to 8
        invariant v == Big64(hdr, i)
      {
        var low: int := hdr[i];
        v := v * 256 + low;
      }
      if Wrap32(v) > PAYLOAD_MAX {
        return false;
      }
      plen := Wrap32(v);
      state := AfterLength(masked);
      ok := true;
    }

    method FeedMask(b: Byte)
      requires Valid() && state == Mask
      modifies this
      ensures Valid() && State(true) == MaskByte(old(State(true)), b)
    {
      mask := mask[hdrGot := b];
      hdrGot := hdrGot + 1;
      if hdrGot == 4 {
        hdrGot, state := 0, Payload;
      }
    }

    method FeedPayload(b: Byte) returns (ok: bool)
      requires Valid() && state == Payload
      modifies this
      ensures Valid() && State(ok) == PayloadByte(old(State(true)), b)
    {
      var idx := got;
      if idx >= PAYLOAD_MAX {
        return false;
      }
      payload := payload[idx := if masked then XorByte(b, mask[idx % 4]) else b];
      got := idx + 1;
      assert payload[..got] == old(payload[..got]) + [payload[idx]];
      if got == plen {
        events := events + [Frame(fin, opcode, payload[..got])];
        state, hdrGot := Header, 0;
      }
      ok := true;
    }

    /** `feed`: byte by byte; stops at the byte that closes the session. */
    method Feed(data: seq<Byte>) returns (ok: bool)
      requires Valid()
      modifies this
      ensures Valid() && State(ok) == Parse(old(State(true)), data)
    {
      for i := 0 to |data|
        invariant Valid() && Parse(State(true), data[i..]) == Parse(old(State(true)), data)
      {
        ParseFrom(State(true), data, i);
        match state {
          case Header => ok := FeedHeader(data[i]);
          case Len16 => ok := FeedLen16(data[i]);
          case Len64 => ok := FeedLen64(data[i]);
          case Mask => FeedMask(data[i]); ok := true;
          case Payload => ok := FeedPayload(data[i]);
        }
        if !ok {
          ClosedIgnores(State(false), data[i + 1..]);
          return;
        }
      }
      ParseEnd(State(true), data);
      ok := true;
    }
  }

  lemma {:induction false} ClosedIgnores(p: WsParser, data: seq<Byte>)
    requires !p.open
    ensures Parse(p, data) == p
    decreases |data|
  {
    if data != [] { ClosedIgnores(p, data[1..]); }
  }

  /* ---- server frames ---- */

  /** `x >> 8n` on the target's 32-bit `usize`, where the shift amount wraps. */
  function ShrBytes(x: U32, n: nat): nat {
    if n % 4 == 0 then x else if n % 4 == 1 then x / 0x100
    else if n % 4 == 2 then x / 0x1_0000 else x / 0x100_0000
  }

  /** The header of a server frame: FIN, opcode, shortest length form. */
  function ServerHeader(opcode: nat, len: U32): seq<Byte>
    requires opcode < 16
  {
    [128 + opcode] +
    (if len < 126 then [len]
     else if len <= 0xFFFF then [126, len / 256, len % 256]
     else [127] + seq(8, i requires 0 <= i < 8 => ShrBytes(len, 7 - i) % 256))
  }

  /** `ws_frame_hdr`. */
  method WsFrameHdr(opcode: nat, len: U32) returns (hdr: seq<Byte>)
    requires opcode < 16
    ensures hdr == ServerHeader(opcode, len)
  {
    hdr := [128 + opcode];
    if len < 126 {
      hdr := hdr + [len];
    } else if len <= 0xFFFF {
      hdr := hdr + [126, len / 256, len % 256];
    } else {
      var tail: seq<Byte> := [];
      for i := 0 to 8
        invariant |tail| == i && forall j :: 0 <= j < i ==> tail[j] == ShrBytes(len, 7 - j) % 256
      {
        tail := tail + [ShrBytes(len, 7 - i) % 256];
      }
      hdr := hdr + ([127] + tail);
    }
  }

  /** The frame a server sends, as this parser's own format. */
  function ServerFrame(opcode: nat, payload: seq<Byte>): ClientFrame {
    ClientFrame(true, 0, opcode, payload, None, if |payload| < 126 then Short else Medium)
  }

  lemma {:induction false} Unmasked(f: ClientFrame, k: nat)
    requires Sendable(f) && f.mask.None? && k <= |f.payload|
    ensures Masked(f, k) == f.payload[k..]
    decreases |f.payload| - k
  {
    if k < |f.payload| {
      Unmasked(f, k + 1);
    }
  }

  /** Up to the parser's payload limit the server's header is the encoder's, so
      what the server sends parses back. */
  lemma ServerFrameEncodes(opcode: nat, payload: seq<Byte>)
    requires opcode < 16 && |payload| <= PAYLOAD_MAX
    ensures ServerHeader(opcode, |payload|) + payload == Encode(ServerFrame(opcode, payload))
  {
    var f := ServerFrame(opcode, payload);
    Unmasked(f, 0);
    assert f.payload[0..] == payload && [] + payload == payload;
    if |payload| >= 126 {
      assert BeBytes(|payload|, 2) == [|payload| / 256, |payload| % 256] by {
        assert BeBytes(|payload| / 256, 1) == [|payload| / 256];
      }
    }
  }

  /** The payload length a header announces (section 5.2 of RFC 6455). */
  function Announced(h: seq<Byte>): nat
    requires |h| >= 2 && (h[1] == 126 ==> |h| >= 4) && (h[1] == 127 ==> |h| >= 10)
  {
    if h[1] < 126 then h[1] else if h[1] == 126 then Big64(h[2..], 2) else if h[1] == 127 then Big64(h[2..], 8) else 0
  }

  lemma Quarters(len: U32)
    ensures len / 0x100_0000 % 256 * 0x100_0000 + len / 0x1_0000 % 256 * 0x1_0000 + len / 0x100 % 256 * 0x100
            + len % 256 == len
  {
    var a, b, c := len / 0x100, len / 0x1_0000, len / 0x100_0000;
    assert a / 0x100 == b && b / 0x100 == c && c < 0x100;
  }

  // Eight bytes, unrolled.
  lemma Big8(h: seq<Byte>)
    requires |h| >= 8
    ensures Big64(h, 4) == ((h[0] as int * 256 + h[1]) * 256 + h[2]) * 256 + h[3]
    ensures Big64(h, 8) == (((Big64(h, 4) * 256 + h[4]) * 256 + h[5]) * 256 + h[6]) * 256 + h[7]
  {
    assert Big64(h, 1) == h[0];
    assert Big64(h, 2) == h[0] as int * 256 + h[1];
  }

  lemma TailBytes(len: U32, t: seq<Byte>)
    requires |t| == 8 && forall i :: 0 <= i < 8 ==> t[i] == ShrBytes(len, 7 - i) % 256
    ensures t[0] == len / 0x100_0000 % 256 && t[1] == len / 0x1_0000 % 256
    ensures t[2] == len / 0x100 % 256 && t[3] == len % 256
    ensures t[4] == t[0] && t[5] == t[1] && t[6] == t[2] && t[7] == t[3]
  {
  }

  lemma TwiceValue(t: seq<Byte>, len: U32)
    requires |t| == 8 && t[4] == t[0] && t[5] == t[1] && t[6] == t[2] && t[7] == t[3]
    requires Big64(t, 4) == len
    ensures Big64(t, 8) == len * 0x1_0000_0000 + len
  {
    Big8(t);
  }

  // The wrapped shifts write the four length bytes twice.
  lemma LongTail(len: U32, t: seq<Byte>)
    requires |t| == 8 && forall i :: 0 <= i < 8 ==> t[i] == ShrBytes(len, 7 - i) % 256
    ensures Big64(t, 8) == len * 0x1_0000_0000 + len
  {
    TailBytes(len, t);
    Quarters(len);
    Big8(t);
    TwiceValue(t, len);
  }

  /** The server header announces the length of its payload if and only if that
      length fits 16 bits. */
  lemma AnnouncedIff(opcode: nat, len: U32)
    requires opcode < 16
    ensures Announced(ServerHeader(opcode, len)) == len <==> len <= 0xFFFF
  {
    var h := ServerHeader(opcode, len);
    if 126 <= len <= 0xFFFF {
      assert h[2..] == [len / 256, len % 256];
      assert Big64(h[2..], 1) == len / 256;
    } else if len > 0xFFFF {
      LongTail(len, h[2..]);
    }
  }
}
