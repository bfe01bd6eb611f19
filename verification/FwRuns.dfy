/** Every run of upgrade commands over one channel, with device failures at any
    step, and the go-back-N transfer on top. */
module FwRuns {
  import opened Bytes
  import opened Nor
  import opened Streams
  import opened FwUpgrade
  import opened FwTrailer
  import opened Tlv
  import Words

  /** END of the protocol: the trailer follows a successful `finish` only. */
  function End(s: Session, permanent: bool, crc: Option<Words.Word>): (Session, bool)
    requires s.total <= SLOT1_SIZE
  {
    var f := Finish(s, crc);
    if !f.1 then f
    else
      var t := SetPending(f.0.chip, permanent);
      (f.0.(chip := t.0), t.1)
  }

  /** DATA_V2: chunks of at most one page, results ignored. */
  function PutChunks(s: Session, data: seq<Byte>): (r: Session)
    requires |s.page| < PAGE
    ensures |r.page| < PAGE
    decreases |data|
  {
    if data == [] then s
    else
      var n := Min(|data|, PAGE);
      PutChunks(Write(s, data[..n]).0, data[n..])
  }

  /* ---- histories ---- */

  datatype Event =
    | StartEvent(total: nat, keyhash: Option<seq<Byte>>)
    | DataEvent(data: seq<Byte>)
    | AbortEvent
    | EndEvent(permanent: bool, crc: Option<Words.Word>)
    | DeviceEvent(fuse: nat, late: bool, readable: bool)

  /** `log` is everything written since the last start, `image` the image that
      passed `finish` since the last start. */
  datatype World = World(s: Session, log: seq<Byte>, image: Option<seq<Byte>>)

  /** The session is not given up and the data fits. */
  predicate Takes(s: Session, data: seq<Byte>) {
    s.active && !s.failed && s.written + |s.page| + |data| <= s.total
  }

  function Step(w: World, e: Event): World
    requires |w.s.page| < PAGE && w.s.total <= SLOT1_SIZE
  {
    match e
    case StartEvent(total, keyhash) =>
      var r := Start(w.s, total, keyhash);
      if r.1 == 0 then World(r.0, [], None) else w.(s := r.0)
    case DataEvent(data) =>
      World(Write(w.s, data).0, if Takes(w.s, data) then w.log + data else w.log, w.image)
    case AbortEvent => w.(s := Abort(w.s))
    case EndEvent(permanent, crc) =>
      World(End(w.s, permanent, crc).0, w.log,
            if Finish(w.s, crc).1 then Some(w.log) else w.image)
    case DeviceEvent(fuse, late, readable) =>
      w.(s := w.s.(chip := Chip(w.s.chip.mem, fuse, late, readable)))
  }

  /** What a command needs of the state. */
  predicate Sound(w: World) {
    |w.s.page| < PAGE && w.s.total <= SLOT1_SIZE
  }

  /** The last byte of the slot. */
  const LAST: nat := SLOT1_SIZE - 1

  /** The boot magic at the end of the slot. */
  predicate Magic(mem: Memory) {
    mem[MAGIC_OFF..SLOT1_SIZE] == BOOT_MAGIC
  }

  /** The slot holds this complete image, and it carries the key hash. */
  predicate Intact(mem: Memory, image: seq<Byte>) {
    |image| <= SLOT1_SIZE && mem[..|image|] == image && TlvOk(Padded1(image))
  }

  /** A start that gets to its erase, over a pending image, and whose erase stops
      part way: the device carries out one to six of the seven commands, whatever it
      reports. */
  predicate CutsPending(w: World, e: Event) {
    && e.StartEvent? && Admits(w.s, e.total, e.keyhash)
    && w.image.Some? && Magic(w.s.chip.mem) && 0 < w.s.chip.fuse < SLOT1_BLOCKS
  }

  predicate Fits(e: Event, limit: nat) {
    e.StartEvent? ==> e.total <= limit
  }

  /** Images of at most `limit` bytes; when they stay below the trailer, no erase
      over a pending image stops part way. */
  predicate Legal(w: World, e: Event, limit: nat) {
    Fits(e, limit) && (limit <= SWAP_INFO_OFF ==> !CutsPending(w, e))
  }

  /** Without an image that passed `finish` the trailer is blank; with one, a boot
      magic means that it is still there. */
  predicate TrailerOk(w: World) {
    match w.image
    case None => Blank(w.s.chip.mem, SWAP_INFO_OFF, SLOT1_SIZE)
    case Some(image) => Magic(w.s.chip.mem) ==> Intact(w.s.chip.mem, image)
  }

  /** While active: accepted bytes are what was sent, or after a failure a
      prefix of it. */
  predicate Inv(w: World, limit: nat) {
    && |w.s.page| < PAGE && w.s.total <= SLOT1_SIZE && w.s.written <= SLOT1_SIZE
    && (w.s.active ==> w.s.total <= limit && w.image == None && Blank(w.s.chip.mem, w.s.total, SLOT1_SIZE))
    && (w.s.active && !w.s.failed ==> Live(w.s) && Accepted(w.s) == w.log)
    && (w.s.active && w.s.failed ==> Accepted(w.s) <= w.log)
    && (limit <= SWAP_INFO_OFF ==> TrailerOk(w))
  }

  /** After power-up there is no session.  Runs start inside the invariant; for
      images below the trailer, exactly when no trailer is pending. */
  lemma InitialInv(c: Chip, limit: nat)
    ensures Inv(World(Session(c, false, false, 0, 0, []), [], None), limit) <==>
            (limit <= SWAP_INFO_OFF ==> Blank(c.mem, SWAP_INFO_OFF, SLOT1_SIZE))
  {
  }

  /** With a pending trailer too, when the slot holds the image it was written for. */
  lemma PendingInv(c: Chip, image: seq<Byte>, limit: nat)
    requires Intact(c.mem, image)
    ensures Inv(World(Session(c, false, false, 0, 0, []), [], Some(image)), limit)
  {
  }

  /* ---- one step ---- */

  lemma WipedFront(mem: Memory, n: nat)
    requires n <= MAGIC_OFF
    ensures Magic(Wiped(mem, 0, n)) <==> Magic(mem)
    ensures Blank(mem, SWAP_INFO_OFF, SLOT1_SIZE) ==> Blank(Wiped(mem, 0, n), SWAP_INFO_OFF, SLOT1_SIZE)
    ensures Wiped(mem, 0, n)[LAST] == mem[LAST]
  {
    var m := Wiped(mem, 0, n);
    WipedBlank(mem, 0, n);
    assert m[MAGIC_OFF..SLOT1_SIZE] == mem[MAGIC_OFF..SLOT1_SIZE];
  }

  lemma StartInv(w: World, total: nat, keyhash: Option<seq<Byte>>, limit: nat)
    requires Inv(w, limit) && Legal(w, StartEvent(total, keyhash), limit)
    ensures Inv(Step(w, StartEvent(total, keyhash)), limit)
  {
    if Start(w.s, total, keyhash).1 == 0 {
      StartLive(w.s, total, keyhash);
    } else if Admits(w.s, total, keyhash) {
      FailedStart(w, total, keyhash);
    }
  }

  // A start whose erase was not reported as done, whether or not it was.
  lemma FailedStart(w: World, total: nat, keyhash: Option<seq<Byte>>)
    requires Sound(w) && Admits(w.s, total, keyhash) && Start(w.s, total, keyhash).1 != 0
    ensures var v := Step(w, StartEvent(total, keyhash));
            && v == w.(s := w.s.(chip := v.s.chip))
            && (w.s.chip.fuse == 0 ==> v.s.chip.mem == w.s.chip.mem)
            && (Magic(v.s.chip.mem) <==> Magic(w.s.chip.mem) && w.s.chip.fuse < SLOT1_BLOCKS)
            && (Blank(w.s.chip.mem, SWAP_INFO_OFF, SLOT1_SIZE) ==> Blank(v.s.chip.mem, SWAP_INFO_OFF, SLOT1_SIZE))
            && (w.s.chip.mem[LAST] == ERASED ==> v.s.chip.mem[LAST] == ERASED)
  {
    var d := StartErases(w.s, total, keyhash, SLOT1_SIZE);
    assert Wiped(w.s.chip.mem, 0, 0) == w.s.chip.mem;
    if w.s.chip.fuse < SLOT1_BLOCKS {
      WipedFront(w.s.chip.mem, d);
    } else {
      WipedAll(w.s.chip.mem);
    }
  }

  lemma WipedAll(mem: Memory)
    ensures var m := Wiped(mem, 0, SLOT1_SIZE); !Magic(m) && Blank(m, SWAP_INFO_OFF, SLOT1_SIZE) && m[LAST] == ERASED
  {
    WipedBlank(mem, 0, SLOT1_SIZE);
    MagicByte(Wiped(mem, 0, SLOT1_SIZE));
  }

  lemma MagicByte(mem: Memory)
    ensures Magic(mem) ==> mem[LAST] == 0x80 && mem[MAGIC_OFF] == 0x77
  {
    assert mem[MAGIC_OFF..SLOT1_SIZE][15] == mem[LAST] && mem[MAGIC_OFF..SLOT1_SIZE][0] == mem[MAGIC_OFF];
  }

  lemma DataInv(w: World, data: seq<Byte>, limit: nat)
    requires Inv(w, limit)
    ensures Inv(Step(w, DataEvent(data)), limit)
  {
    if Takes(w.s, data) {
      PutLive(w.s, data);
      PutBehind(w.s, data);
    }
  }

  // Ending a session that failed, or whose tail, size, CRC or key hash is wrong.
  lemma RefusedInv(w: World, permanent: bool, crc: Option<Words.Word>, limit: nat)
    requires Inv(w, limit) && !Finish(w.s, crc).1
    ensures Inv(Step(w, EndEvent(permanent, crc)), limit)
  {
    if w.s.active && !w.s.failed {
      LastFlush(w.s);
    }
  }

  lemma EndEffect(w: World, permanent: bool, crc: Option<Words.Word>)
    requires Sound(w) && Finish(w.s, crc).1
    ensures var f := Finish(w.s, crc).0;
            Step(w, EndEvent(permanent, crc))
            == World(f.(chip := SetPending(f.chip, permanent).0), w.log, Some(w.log))
  {
  }

  lemma FinishedShape(s: Session, crc: Option<Words.Word>)
    requires Live(s) && Finish(s, crc).1
    ensures var f := Finish(s, crc).0;
            !f.active && |f.page| < PAGE && f.total == s.total && f.written <= SLOT1_SIZE
  {
    LastFlush(s);
  }

  // What the trailer leaves of a verified image below it.
  lemma MarkedIntact(c: Chip, image: seq<Byte>, permanent: bool)
    requires Intact(c.mem, image) && |image| <= SWAP_INFO_OFF
    ensures Intact(SetPending(c, permanent).0.mem, image)
  {
    TrailerFrame(c, permanent);
    ShorterPrefix(SetPending(c, permanent).0.mem, c.mem, SWAP_INFO_OFF, |image|);
  }

  lemma AcceptedInv(w: World, permanent: bool, crc: Option<Words.Word>, limit: nat)
    requires Inv(w, limit) && Finish(w.s, crc).1
    ensures Inv(Step(w, EndEvent(permanent, crc)), limit)
  {
    FinishIff(w.s, crc);
    FinishedShape(w.s, crc);
    EndEffect(w, permanent, crc);
    if limit <= SWAP_INFO_OFF {
      MarkedIntact(Finish(w.s, crc).0.chip, w.log, permanent);
    }
  }

  lemma StepInv(w: World, e: Event, limit: nat)
    requires Inv(w, limit) && Legal(w, e, limit)
    ensures Inv(Step(w, e), limit)
  {
    match e
    case StartEvent(total, keyhash) => StartInv(w, total, keyhash, limit);
    case DataEvent(data) => DataInv(w, data, limit);
    case AbortEvent =>
    case EndEvent(permanent, crc) =>
      if Finish(w.s, crc).1 { AcceptedInv(w, permanent, crc, limit); } else { RefusedInv(w, permanent, crc, limit); }
    case DeviceEvent(_, _, _) =>
  }

  /* ---- whole runs ---- */

  predicate LegalRun(w: World, es: seq<Event>, limit: nat)
    requires Inv(w, limit)
    decreases |es|
  {
    es == [] || (Legal(w, es[0], limit) && (StepInv(w, es[0], limit); LegalRun(Step(w, es[0]), es[1..], limit)))
  }

  function Run(w: World, es: seq<Event>, limit: nat): (r: World)
    requires Inv(w, limit) && LegalRun(w, es, limit)
    ensures Inv(r, limit)
    decreases |es|
  {
    if es == [] then w else StepInv(w, es[0], limit); Run(Step(w, es[0]), es[1..], limit)
  }

  /* ---- a boot magic was preceded by a verification ---- */

  predicate AllFit(es: seq<Event>, limit: nat) {
    forall i :: 0 <= i < |es| ==> Fits(es[i], limit)
  }

  /** A boot magic means that an image passed `finish` since the last start. */
  predicate Vouched(w: World) {
    Magic(w.s.chip.mem) ==> w.image.Some?
  }

  /** Until one did, the last byte of the slot is erased. */
  predicate Unmarked(w: World) {
    w.image == None ==> w.s.chip.mem[LAST] == ERASED
  }

  lemma UnmarkedVouched(w: World)
    requires Unmarked(w)
    ensures Vouched(w)
  {
    MagicByte(w.s.chip.mem);
  }

  lemma StepUnmarked(w: World, e: Event)
    requires Inv(w, LAST) && Unmarked(w) && Fits(e, LAST)
    ensures Inv(Step(w, e), LAST) && Unmarked(Step(w, e))
  {
    StepInv(w, e, LAST);
    match e
    case StartEvent(total, keyhash) =>
      if Admits(w.s, total, keyhash) && Start(w.s, total, keyhash).1 != 0 { FailedStart(w, total, keyhash); }
    case DataEvent(data) =>
      if Takes(w.s, data) { PutLive(w.s, data); }
    case AbortEvent =>
    case EndEvent(permanent, crc) =>
      if w.s.active && !w.s.failed { LastFlush(w.s); }
    case DeviceEvent(_, _, _) =>
  }

  /** Every state of the run is vouched for. */
  predicate AllVouched(w: World, es: seq<Event>)
    requires Sound(w)
    decreases |es|
  {
    Vouched(w) && (es != [] ==> (StepSound(w, es[0]); AllVouched(Step(w, es[0]), es[1..])))
  }

  /** Upgrade safety: with images that leave the last byte of the slot free, in every
      state of every run, with the device stopping anywhere, cut erases included, a
      boot magic means that an image passed `finish` since the last start. */
  lemma {:induction false} NoUnverifiedUpgrade(w: World, es: seq<Event>)
    requires Inv(w, LAST) && Unmarked(w) && AllFit(es, LAST)
    ensures AllVouched(w, es)
    decreases |es|
  {
    UnmarkedVouched(w);
    if es != [] {
      StepUnmarked(w, es[0]);
      NoUnverifiedUpgrade(Step(w, es[0]), es[1..]);
    }
  }

  /* ---- and the image is still there ---- */

  /** A boot magic means that the slot holds a complete image that passed `finish`. */
  predicate Safe(w: World) {
    Magic(w.s.chip.mem) ==> w.image.Some? && Intact(w.s.chip.mem, w.image.value)
  }

  lemma InvSafe(w: World)
    requires Inv(w, SWAP_INFO_OFF)
    ensures Safe(w)
  {
    MagicByte(w.s.chip.mem);
  }

  /** The erase that stops part way: the magic stays, and what it promises is gone. */
  lemma CutEraseUnsafe(w: World, e: Event)
    requires Inv(w, SWAP_INFO_OFF) && CutsPending(w, e)
    ensures var v := Step(w, e); Magic(v.s.chip.mem) && !Safe(v) && !TlvOk(SlotOf(v.s.chip.mem))
  {
    var n := StartErases(w.s, e.total, e.keyhash, SLOT1_SIZE);
    var v := Step(w, e);
    FailedStart(w, e.total, e.keyhash);
    WipedBlank(w.s.chip.mem, 0, n);
    assert SlotOf(v.s.chip.mem)[0] == ERASED;
    if TlvOk(SlotOf(v.s.chip.mem)) {
      HeaderByte(SlotOf(v.s.chip.mem));
    }
    HeaderByte(Padded1(w.image.value));
    assert w.image.value != [] && w.image.value[0] == 0x3D;
    assert v.s.chip.mem[..|w.image.value|][0] == ERASED;
  }

  /** One command, exactly: it leaves a safe state if and only if it is not a start
      over a pending image whose erase gets through one to six of its seven commands. */
  lemma StepSafeIff(w: World, e: Event)
    requires Inv(w, SWAP_INFO_OFF) && Fits(e, SWAP_INFO_OFF)
    ensures Safe(Step(w, e)) <==> !CutsPending(w, e)
  {
    if CutsPending(w, e) {
      CutEraseUnsafe(w, e);
    } else {
      StepInv(w, e, SWAP_INFO_OFF);
      InvSafe(Step(w, e));
    }
  }

  lemma StepSound(w: World, e: Event)
    requires Sound(w)
    ensures Sound(Step(w, e))
  {
    if e.DataEvent? { PutKeeps(w.s, e.data); }
  }

  /** Every state of the run is safe. */
  predicate AllSafe(w: World, es: seq<Event>)
    requires Sound(w)
    decreases |es|
  {
    Safe(w) && (es != [] ==> (StepSound(w, es[0]); AllSafe(Step(w, es[0]), es[1..])))
  }

  /** No erase over a pending image stops part way in it. */
  predicate NoCut(w: World, es: seq<Event>)
    requires Sound(w)
    decreases |es|
  {
    es != [] ==> !CutsPending(w, es[0]) && (StepSound(w, es[0]); NoCut(Step(w, es[0]), es[1..]))
  }

  /** Whole runs, exactly: with images below the trailer, all states of a run are safe
      if and only if no erase over a pending image stops part way. */
  lemma {:induction false} RunSafeIff(w: World, es: seq<Event>)
    requires Inv(w, SWAP_INFO_OFF) && AllFit(es, SWAP_INFO_OFF)
    ensures AllSafe(w, es) <==> NoCut(w, es)
    decreases |es|
  {
    InvSafe(w);
    if es != [] {
      var next := Step(w, es[0]);
      StepSafeIff(w, es[0]);
      StepSound(w, es[0]);
      if CutsPending(w, es[0]) {
        assert !Safe(next);
        assert !AllSafe(next, es[1..]);
      } else {
        StepInv(w, es[0], SWAP_INFO_OFF);
        RunSafeIff(next, es[1..]);
      }
    }
  }

  /* ---- such a run ---- */

  /** Start, the whole image, END. */
  function Upgraded(s0: Session, image: seq<Byte>, permanent: bool, crc: Option<Words.Word>): (w: World)
    requires Sound(World(s0, [], None))
    ensures Sound(w)
  {
    var w0 := World(s0, [], None);
    StepSound(w0, StartEvent(|image|, None));
    var w1 := Step(w0, StartEvent(|image|, None));
    StepSound(w1, DataEvent(image));
    var w2 := Step(w1, DataEvent(image));
    StepSound(w2, EndEvent(permanent, crc));
    Step(w2, EndEvent(permanent, crc))
  }

  /** A device that works long enough, with no session on it. */
  predicate Ready(s: Session) {
    && !s.active && |s.page| < PAGE && s.total <= SLOT1_SIZE
    && s.chip.readable && Good(s.chip) >= PLENTY
  }

  // The session that has received the image, in the words of the runs.
  lemma TransferredWorld(s0: Session, image: seq<Byte>)
    requires Ready(s0) && 64 <= |image| <= SLOT1_SIZE
    ensures var w1 := Step(World(s0, [], None), StartEvent(|image|, None));
            Sound(w1) && Step(w1, DataEvent(image)) == World(Loaded(s0, image), image, None)
  {
    ImageReceived(s0, image);
    StartLive(s0, |image|, None);
    StepSound(World(s0, [], None), StartEvent(|image|, None));
    assert [] + image == image;
  }

  lemma EndedWorld(s: Session, image: seq<Byte>, permanent: bool, crc: Option<Words.Word>)
    requires Live(s) && Accepted(s) == image && s.total == |image| <= SWAP_INFO_OFF && TlvOk(Padded1(image))
    requires s.chip.readable && Good(s.chip) >= SLOT1_SIZE && (crc.None? || crc.value == ImageCrc(image))
    ensures var w := Step(World(s, image, None), EndEvent(permanent, crc));
            w.image == Some(image) && Magic(w.s.chip.mem) && !w.s.active
  {
    FinishIff(s, crc);
    FinishFuse(s, crc);
    PendingReports(Finish(s, crc).0.chip, permanent);
    TrailerIntact(s, crc, permanent);
    EndEffect(World(s, image, None), permanent, crc);
  }

  /** On such a device the image is then pending, and the state is one the run
      theorems start from. */
  lemma PendingReached(s0: Session, image: seq<Byte>, permanent: bool, crc: Option<Words.Word>)
    requires Ready(s0) && 64 <= |image| <= SWAP_INFO_OFF && TlvOk(Padded1(image))
    requires crc.None? || crc.value == ImageCrc(image)
    ensures var w := Upgraded(s0, image, permanent, crc);
            Inv(w, SWAP_INFO_OFF) && w.image == Some(image) && Magic(w.s.chip.mem) && !w.s.active
  {
    TransferredWorld(s0, image);
    ImageReceived(s0, image);
    var s := Loaded(s0, image);
    EndedWorld(s, image, permanent, crc);
    LoadedInv(s, image);
    FinishIff(s, crc);
    AcceptedInv(World(s, image, None), permanent, crc, SWAP_INFO_OFF);
  }

  lemma LoadedInv(s: Session, image: seq<Byte>)
    requires Live(s) && Accepted(s) == image && s.total == |image| <= SWAP_INFO_OFF
    ensures Inv(World(s, image, None), SWAP_INFO_OFF)
  {
  }

  /** From any idle session: an upgrade that is accepted and pending, then another
      start, and the device stops after one to six erase commands.  The magic is
      there, and no image. */
  lemma CutEraseRun(s0: Session, total: nat, permanent: bool, fuse: nat, late: bool, next: nat)
    requires Ready(s0) && 0x228 <= total <= SWAP_INFO_OFF
    requires 0 < fuse < SLOT1_BLOCKS && 64 <= next <= SLOT1_SIZE
    ensures var w := Step(Upgraded(s0, ZeroImage(total), permanent, None), DeviceEvent(fuse, late, true));
            Safe(w) && Magic(Step(w, StartEvent(next, None)).s.chip.mem)
            && !Safe(Step(w, StartEvent(next, None))) && !TlvOk(SlotOf(Step(w, StartEvent(next, None)).s.chip.mem))
  {
    ZeroImageOk(total);
    PendingReached(s0, ZeroImage(total), permanent, None);
    PendingCut(Upgraded(s0, ZeroImage(total), permanent, None), fuse, late, next);
  }

  lemma PendingCut(u: World, fuse: nat, late: bool, next: nat)
    requires Inv(u, SWAP_INFO_OFF) && u.image.Some? && Magic(u.s.chip.mem) && !u.s.active
    requires 0 < fuse < SLOT1_BLOCKS && 64 <= next <= SLOT1_SIZE
    ensures var w := Step(u, DeviceEvent(fuse, late, true)); var v := Step(w, StartEvent(next, None));
            Safe(w) && Magic(v.s.chip.mem) && !Safe(v) && !TlvOk(SlotOf(v.s.chip.mem))
  {
    var w := Step(u, DeviceEvent(fuse, late, true));
    InvSafe(w);
    CutEraseUnsafe(w, StartEvent(next, None));
  }

  /* ---- images that reach into the trailer ---- */

  /** START and DATA alone: an image as large as the slot that ends in the boot magic
      puts it there, with no header, no key hash and no `finish`. */
  lemma WholeSlotMagic(s0: Session, image: seq<Byte>)
    requires Ready(s0) && |image| == SLOT1_SIZE && image[MAGIC_OFF..] == BOOT_MAGIC
    ensures var w1 := Step(World(s0, [], None), StartEvent(|image|, None));
            Sound(w1) && var w := Step(w1, DataEvent(image));
            Magic(w.s.chip.mem) && w.image == None && w.s.active && SlotOf(w.s.chip.mem) == image && !Vouched(w)
  {
    TransferredWorld(s0, image);
    ImageReceived(s0, image);
    var s := Loaded(s0, image);
    assert s.written == SLOT1_SIZE && s.page == [];
    assert Accepted(s) == s.chip.mem[..SLOT1_SIZE];
    assert s.chip.mem[MAGIC_OFF..SLOT1_SIZE] == image[MAGIC_OFF..];
  }

  /** Nothing but the magic: no header, so no key hash. */
  function MagicOnly(): (r: seq<Byte>)
    ensures |r| == SLOT1_SIZE && r[MAGIC_OFF..] == BOOT_MAGIC
  {
    Zeros(MAGIC_OFF) + BOOT_MAGIC
  }

  lemma MagicOnlyUnsigned()
    ensures !TlvOk(Padded1(MagicOnly()))
  {
    if TlvOk(Padded1(MagicOnly())) {
      HeaderByte(Padded1(MagicOnly()));
      assert false;
    }
  }

  /** After power-up, with the end of the slot erased. */
  function PowerUp(c: Chip): World {
    World(Session(c, false, false, 0, 0, []), [], None)
  }

  predicate FreshChip(c: Chip) {
    Blank(c.mem, SWAP_INFO_OFF, SLOT1_SIZE)
  }

  /** With images of at most `limit` bytes, every state of every run is vouched for. */
  ghost predicate AlwaysVouched(limit: nat) {
    forall c: Chip, es: seq<Event> :: FreshChip(c) && AllFit(es, limit) ==> AllVouched(PowerUp(c), es)
  }

  lemma FitsMore(es: seq<Event>, limit: nat, more: nat)
    requires AllFit(es, limit) && limit <= more
    ensures AllFit(es, more)
  {
  }

  lemma WorkingChip()
    ensures var c := Chip(Ones(CHIP_SIZE), PLENTY, false, true); FreshChip(c) && Ready(PowerUp(c).s)
  {
  }

  lemma WholeSlotRun(c: Chip, es: seq<Event>)
    requires Ready(PowerUp(c).s)
    requires es == [StartEvent(SLOT1_SIZE, None), DataEvent(MagicOnly())]
    ensures AllFit(es, SLOT1_SIZE) && !AllVouched(PowerUp(c), es)
  {
    WholeSlotMagic(PowerUp(c).s, MagicOnly());
    var w1 := Step(PowerUp(c), es[0]);
    StepSound(w1, es[1]);
    var w2 := Step(w1, es[1]);
    assert es[1..][0] == es[1];
    assert !AllVouched(w2, es[1..][1..]);
    assert !AllVouched(w1, es[1..]);
  }

  /** A boot magic was preceded by a successful `finish`, in every state of every run,
      if and only if images are kept below the size of the slot, which `start` does
      not do. */
  lemma VouchedIff(limit: nat)
    requires limit <= SLOT1_SIZE
    ensures AlwaysVouched(limit) <==> limit < SLOT1_SIZE
  {
    if limit < SLOT1_SIZE {
      forall c: Chip, es: seq<Event> | FreshChip(c) && AllFit(es, limit) ensures AllVouched(PowerUp(c), es) {
        FitsMore(es, limit, LAST);
        NoUnverifiedUpgrade(PowerUp(c), es);
      }
    } else {
      WorkingChip();
      WholeSlotRun(Chip(Ones(CHIP_SIZE), PLENTY, false, true), [StartEvent(SLOT1_SIZE, None), DataEvent(MagicOnly())]);
    }
  }

  /** A longer image that is accepted, verified and marked, and whose bytes the trailer
      then changes. */
  lemma LongImageSpoiled(s0: Session, total: nat, permanent: bool)
    requires Ready(s0) && SWAP_INFO_OFF < total <= SLOT1_SIZE
    ensures var w := Upgraded(s0, LongImage(total), permanent, None);
            Magic(w.s.chip.mem) && w.image == Some(LongImage(total)) && !Safe(w)
  {
    var image := LongImage(total);
    LongImageOk(total);
    TransferredWorld(s0, image);
    ImageReceived(s0, image);
    LongMarked(Loaded(s0, image), image, permanent);
  }

  lemma LongMarked(s: Session, image: seq<Byte>, permanent: bool)
    requires Live(s) && Accepted(s) == image && s.total == |image| && TlvOk(Padded1(image))
    requires s.chip.readable && Good(s.chip) >= SLOT1_SIZE
    requires SWAP_INFO_OFF < |image| && Blank(image, SWAP_INFO_OFF, |image|)
    ensures var w := Step(World(s, image, None), EndEvent(permanent, None));
            Magic(w.s.chip.mem) && w.image == Some(image) && !Safe(w)
  {
    FinishIff(s, None);
    FinishFuse(s, None);
    var c := Finish(s, None).0.chip;
    BlankBehind(c.mem, image);
    PendingReports(c, permanent);
    EndEffect(World(s, image, None), permanent, None);
    TrailerOver(c, image, permanent, SetPending(c, permanent).0.mem, SWAP_INFO_OFF);
  }

  // The swap type lies where the image has an erased byte.
  lemma TrailerOver(c: Chip, image: seq<Byte>, permanent: bool, m: Memory, at: nat)
    requires Blank(c.mem, SWAP_INFO_OFF, SLOT1_SIZE) && SetPending(c, permanent).1 && at == SWAP_INFO_OFF
    requires m == SetPending(c, permanent).0.mem && at < |image| <= SLOT1_SIZE && image[at] == ERASED
    ensures Magic(m) && m[..|image|] != image
  {
    TrailerReadsBack(c, permanent);
    assert m[..|image|][at] == m[at];
  }

  lemma BlankBehind(mem: Memory, image: seq<Byte>)
    requires SWAP_INFO_OFF < |image| <= SLOT1_SIZE && mem[..|image|] == image
    requires Blank(image, SWAP_INFO_OFF, |image|) && Blank(mem, |image|, SLOT1_SIZE)
    ensures Blank(mem, SWAP_INFO_OFF, SLOT1_SIZE)
  {
    forall i | SWAP_INFO_OFF <= i < SLOT1_SIZE ensures mem[i] == ERASED {
      if i < |image| { assert mem[..|image|][i] == image[i]; }
    }
  }

  /** With images of at most `limit` bytes, every run without a cut erase keeps what
      the magic promises. */
  ghost predicate AlwaysSafe(limit: nat) {
    forall c: Chip, es: seq<Event> ::
      FreshChip(c) && AllFit(es, limit) && NoCut(PowerUp(c), es) ==> AllSafe(PowerUp(c), es)
  }

  lemma LongRun(c: Chip, es: seq<Event>, total: nat)
    requires Ready(PowerUp(c).s) && SWAP_INFO_OFF < total <= SLOT1_SIZE
    requires es == [StartEvent(total, None), DataEvent(LongImage(total)), EndEvent(true, None)]
    ensures AllFit(es, total) && NoCut(PowerUp(c), es) && !AllSafe(PowerUp(c), es)
  {
    LongImageSpoiled(PowerUp(c).s, total, true);
    var w1 := Step(PowerUp(c), es[0]);
    StepSound(PowerUp(c), es[0]);
    var w2 := Step(w1, es[1]);
    StepSound(w1, es[1]);
    var w3 := Step(w2, es[2]);
    StepSound(w2, es[2]);
    assert es[1..][0] == es[1] && es[1..][1..][0] == es[2] && es[1..][1..][1..] == [];
    assert !AllSafe(w3, []) && NoCut(w3, []);
    assert !AllSafe(w2, es[1..][1..]) && NoCut(w2, es[1..][1..]);
    assert !AllSafe(w1, es[1..]) && NoCut(w1, es[1..]);
  }

  /** The image is still there, in every state of every run without a cut erase, if
      and only if images end at or before the swap-info word. */
  lemma SafeIff(limit: nat)
    requires limit <= SLOT1_SIZE
    ensures AlwaysSafe(limit) <==> limit <= SWAP_INFO_OFF
  {
    if limit <= SWAP_INFO_OFF {
      forall c: Chip, es: seq<Event> | FreshChip(c) && AllFit(es, limit) && NoCut(PowerUp(c), es)
        ensures AllSafe(PowerUp(c), es)
      {
        FitsMore(es, limit, SWAP_INFO_OFF);
        RunSafeIff(PowerUp(c), es);
      }
    } else {
      WorkingChip();
      LongRun(Chip(Ones(CHIP_SIZE), PLENTY, false, true),
              [StartEvent(limit, None), DataEvent(LongImage(limit)), EndEvent(true, None)], limit);
    }
  }

  /** Buffering is transparent: in every run over the whole slot, while a session
      is active, what it counts as received is exactly everything written to it
      since it was started, in whole pages on the flash; after a device failure
      it is a prefix of that. */
  lemma AcceptedIsLog(w: World, es: seq<Event>)
    requires Inv(w, SLOT1_SIZE) && LegalRun(w, es, SLOT1_SIZE)
    ensures var end := Run(w, es, SLOT1_SIZE);
            && (end.s.active && !end.s.failed ==> Accepted(end.s) == end.log && end.s.written % PAGE == 0)
            && (end.s.active && end.s.failed ==> Accepted(end.s) <= end.log)
  {
  }

  /* ---- go-back-N ---- */

  /** DATA_V2: only the packet that continues the received bytes is written. */
  function Packet(s: Session, off: nat, data: seq<Byte>): (r: Session)
    requires |s.page| < PAGE
    ensures |r.page| < PAGE
  {
    if off == s.written + |s.page| then PutChunks(s, data) else s
  }

  /** Live, or given up and no longer moving; never outside the slot. */
  predicate Settled(s: Session) {
    |s.page| < PAGE && s.written <= SLOT1_SIZE && (s.active && !s.failed ==> Live(s))
  }

  lemma ChunkPrefix(s: Session, chunk: seq<Byte>, image: seq<Byte>)
    requires Settled(s) && Accepted(s) <= image
    requires s.active && !s.failed ==> Accepted(s) + chunk <= image
    ensures var s' := Write(s, chunk).0;
            && Settled(s') && Accepted(s') <= image
            && (s'.active && !s'.failed ==> s.active && !s.failed && Accepted(s') == Accepted(s) + chunk)
  {
    if s.active && !s.failed && s.written + |s.page| + |chunk| <= s.total {
      PutLive(s, chunk);
    }
  }

  lemma {:induction false} ChunksPrefix(s: Session, data: seq<Byte>, image: seq<Byte>)
    requires Settled(s) && Accepted(s) <= image
    requires s.active && !s.failed ==> Accepted(s) + data <= image
    ensures Settled(PutChunks(s, data)) && Accepted(PutChunks(s, data)) <= image
    decreases |data|
  {
    if data != [] {
      var n := Min(|data|, PAGE);
      assert Accepted(s) + data == Accepted(s) + data[..n] + data[n..];
      ChunkPrefix(s, data[..n], image);
      ChunksPrefix(Write(s, data[..n]).0, data[n..], image);
    }
  }

  /** A packet cut from the image. */
  predicate CutFrom(image: seq<Byte>, off: nat, data: seq<Byte>) {
    off + |data| <= |image| && data == image[off..off + |data|]
  }

  lemma PacketPrefix(s: Session, off: nat, data: seq<Byte>, image: seq<Byte>)
    requires Settled(s) && Accepted(s) <= image && CutFrom(image, off, data)
    ensures Settled(Packet(s, off, data)) && Accepted(Packet(s, off, data)) <= image
  {
    if off == s.written + |s.page| {
      assert image[..off] == Accepted(s);
      assert Accepted(s) + data == image[..off + |data|];
      ChunksPrefix(s, data, image);
    }
  }

  function Receive(s: Session, packets: seq<(nat, seq<Byte>)>): Session
    requires |s.page| < PAGE
    decreases |packets|
  {
    if packets == [] then s else Receive(Packet(s, packets[0].0, packets[0].1), packets[1..])
  }

  /** Go-back-N: from a started session, any loss, repetition or reordering of
      packets cut from one image leaves a prefix of that image accepted, so the
      count every reply carries is that prefix's length. */
  lemma {:induction false} GoBackN(s: Session, packets: seq<(nat, seq<Byte>)>, image: seq<Byte>)
    requires Settled(s) && Accepted(s) <= image
    requires forall k :: 0 <= k < |packets| ==> CutFrom(image, packets[k].0, packets[k].1)
    ensures var e := Receive(s, packets);
            Settled(e) && Accepted(e) <= image && |Accepted(e)| == e.written + |e.page|
    decreases |packets|
  {
    if packets != [] {
      PacketPrefix(s, packets[0].0, packets[0].1, image);
      GoBackN(Packet(s, packets[0].0, packets[0].1), packets[1..], image);
    }
  }

  lemma {:induction false} ChunksSucceed(s: Session, data: seq<Byte>)
    requires Live(s) && s.written + |s.page| + |data| <= s.total && |s.page| + |data| <= Good(s.chip)
    ensures var r := PutChunks(s, data);
            && Live(r) && Accepted(r) == Accepted(s) + data && r.total == s.total
            && Good(r.chip) + |s.page| + |data| == Good(s.chip) + |r.page|
    decreases |data|
  {
    if data != [] {
      var n := Min(|data|, PAGE);
      PutLive(s, data[..n]);
      PutSucceeds(s, data[..n]);
      assert Accepted(s) + data == Accepted(s) + data[..n] + data[n..];
      ChunksSucceed(Write(s, data[..n]).0, data[n..]);
    } else {
      assert Accepted(s) + data == Accepted(s);
    }
  }

  /** Progress: the packet at the reported count is taken whole, however the
      session got there, while the device works. */
  lemma RetransmitAccepted(s: Session, data: seq<Byte>, image: seq<Byte>)
    requires Live(s) && Accepted(s) <= image && s.total == |image|
    requires CutFrom(image, |Accepted(s)|, data) && |s.page| + |data| <= Good(s.chip)
    ensures var s' := Packet(s, |Accepted(s)|, data);
            Live(s') && Accepted(s') == image[..|Accepted(s)| + |data|]
  {
    ChunksSucceed(s, data);
    assert Accepted(s) + data == image[..|Accepted(s)| + |data|];
  }

  /** Packets that carry these pieces one behind the other, from an offset on. */
  function InOrder(off: nat, pieces: seq<seq<Byte>>): seq<(nat, seq<Byte>)>
    decreases |pieces|
  {
    if pieces == [] then [] else [(off, pieces[0])] + InOrder(off + |pieces[0]|, pieces[1..])
  }

  /** A sender that goes on from the reported count gets the whole image through, however
      it cuts the rest, if the device works: then all of it is accepted. */
  lemma {:induction false} TransferCompletes(s: Session, pieces: seq<seq<Byte>>, image: seq<Byte>)
    requires Live(s) && Accepted(s) + Flatten(pieces) == image && s.total == |image|
    requires |s.page| + |Flatten(pieces)| <= Good(s.chip)
    ensures var r := Receive(s, InOrder(|Accepted(s)|, pieces));
            Live(r) && Accepted(r) == image && r.total == |image|
    decreases |pieces|
  {
    if pieces == [] {
      assert Accepted(s) + [] == Accepted(s);
    } else {
      var p, rest, ps := pieces[0], Flatten(pieces[1..]), InOrder(|Accepted(s)|, pieces);
      assert Flatten(pieces) == p + rest;
      ChunksSucceed(s, p);
      var r := Packet(s, |Accepted(s)|, p);
      assert Accepted(r) + rest == Accepted(s) + (p + rest);
      assert ps[0] == (|Accepted(s)|, p) && ps[1..] == InOrder(|Accepted(r)|, pieces[1..]);
      TransferCompletes(r, pieces[1..], image);
    }
  }
}
