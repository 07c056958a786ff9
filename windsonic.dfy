/** The Gill WindSonic decoder of serial_gill.cxx (gillProcessFrame_WindSonic).
    Each port owns a matcher that walks SonicTemplate one byte at a time: a
    byte in the class of the current slot is stored in the frame buffer and
    advances the cursor, a byte outside it throws the partial frame away. The
    byte after ETX must equal the XOR of the bytes between STX and ETX; then the
    frame is decoded and the port's slot of the shared sample table is
    overwritten. */
module WindSonic {
  import opened AnemometerTypes
  import opened GillProtocol

  /** addr, direction, speed, units and status as parsed from the last
      accepted frame. `status` is the `char` the code stores atoi's result
      in, as its byte. */
  datatype Reading = Reading(addr: bv8, direction: int, speed: Float, units: bv8, status: bv8)

  const NoReading: Reading := Reading(0, 0, Zero, 0, 0)

  /** One element of gill_frame_windsonic as a value: the cursor into
      SonicTemplate, the frame buffer, the running checksum and the parsed
      fields. */
  datatype State = State(pointer: nat, frame: seq<bv8>, checksum: bv8, last: Reading)

  /** The cursor always names a template slot, so every write through it lands
      inside the 100-byte buffer. */
  predicate Inv(s: State)
  {
    s.pointer < SonicLength && |s.frame| == FrameCapacity
  }

  /** The states a decoder can be in. */
  type Matcher = s: State | Inv(s) witness State(0, seq(FrameCapacity, _ => 0), 0, NoReading)

  /** A decoder as the zero-initialised static array holds it. */
  const Initial: Matcher := State(0, seq(FrameCapacity, _ => 0), 0, NoReading)

  /** An `int` stored in a `char`: C++ keeps its low eight bits, whether
      `char` is signed or not. */
  function ToChar(x: int): bv8
  {
    (x % 256) as bv8
  }

  /** The value of a `char` byte where `char` is signed (two's complement). */
  function SignedValue(c: bv8): int
  {
    if c < 0x80 then c as int else c as int - 256
  }

  /** A value in -128..127 stored in a `char` reads back as itself where
      `char` is signed; where it is not, exactly when it is not negative. */
  lemma ToCharRoundTrip(x: int)
    requires -128 <= x < 128
    ensures SignedValue(ToChar(x)) == x
    ensures ToChar(x) as int == x <==> x >= 0
  {
    if x >= 0 {
      assert x % 256 == x;
    } else {
      assert x % 256 == x + 256;
    }
    assert ToChar(x) as int == x % 256;
  }

  /** The fields of an accepted frame: address at 1, direction at 3..5 (atoi),
      speed at 7..12 (atof), units at 14, status at 16..17 (atoi, stored in
      a char). */
  function Decode(frame: seq<bv8>): Reading
    requires |frame| >= SonicLength
  {
    Reading(frame[1], Atoi(frame[3..6]), Atof(frame[7..13]), frame[14], ToChar(Atoi(frame[16..18])))
  }

  /** The direction field has three bytes, so atoi's result is exact in the
      float it is stored in. The status field has two, so atoi's result lies
      in -99..99: where `char` is signed the stored status reads back as that
      value, and where `char` is unsigned it does so exactly when the value
      is not negative. */
  lemma DecodeBounds(frame: seq<bv8>)
    requires |frame| >= SonicLength
    ensures -1000 < Decode(frame).direction < 1000
    ensures -100 < Atoi(frame[16..18]) < 100
    ensures SignedValue(Decode(frame).status) == Atoi(frame[16..18])
    ensures Decode(frame).status as int == Atoi(frame[16..18]) <==> Atoi(frame[16..18]) >= 0
  {
    AtoiBound(frame[3..6]);
    AtoiBound(frame[16..18]);
    assert Pow10(3) == 1000 && Pow10(2) == 100;
    ToCharRoundTrip(Atoi(frame[16..18]));
  }

  /** A status field "-5", which the 'X' slots admit, is stored as the byte
      0xFB: -5 where `char` is signed, 251 where it is not. */
  lemma NegativeStatus(frame: seq<bv8>)
    requires |frame| >= SonicLength && frame[16] == MINUS && frame[17] == 0x35
    ensures Decode(frame).status == 0xFB
    ensures SignedValue(Decode(frame).status) == -5 && Decode(frame).status as int == 251
  {
    var d: seq<bv8> := [0x35];
    assert frame[16..18][1..] == d;
    AtoiOfDigits(d);
  }

  /** What a decoded frame writes into the port's sample slot: the unit vector
      (-sin d, -cos d, 0) of the direction d, temperature 0, and the clock. */
  function Sample(r: Reading, now: int): AnemometerData
  {
    AnemometerData(Vec3(NegSin(r.direction), NegCos(r.direction), Zero), Zero, now)
  }

  /** A byte in the class of its slot is stored and folded into the checksum. */
  function Accept(s: State, b: bv8): State
    requires s.pointer < |s.frame|
  {
    s.(pointer := s.pointer + 1, frame := s.frame[s.pointer := b], checksum := s.checksum ^ b)
  }

  /** A byte outside the class of its slot discards the partial frame. */
  function Reset(s: State): State
  {
    s.(pointer := 0, checksum := 0)
  }

  /** One iteration of the decoding loop on byte `b`. */
  function Advance(s: Matcher, b: bv8): Outcome<Matcher, Reading>
  {
    var p := s.pointer;
    match SonicTemplate(p)
    case Start =>
      if b == STX then Outcome(s.(pointer := p + 1, frame := s.frame[p := b], checksum := 0), None)
      else Outcome(s, None)
    case Field =>
      if b != COMMA && b != DOT then Outcome(Accept(s, b), None)
      else if b == COMMA && p == 3 then
        // no direction below the speed floor: three NULs stand in for it
        Outcome(s.(pointer := 7, frame := s.frame[3 := 0][4 := 0][5 := 0][6 := b],
                   checksum := s.checksum ^ b), None)
      else Outcome(Reset(s), None)
    case Comma =>
      if b == COMMA then Outcome(Accept(s, b), None) else Outcome(Reset(s), None)
    case Dot =>
      if b == DOT then Outcome(Accept(s, b), None) else Outcome(Reset(s), None)
    case End =>
      if b == ETX then Outcome(s.(pointer := p + 1, frame := s.frame[p := b]), None)
      else Outcome(s.(pointer := 0), None)
    case Check =>
      var f := s.frame[p := b];
      if b != s.checksum then Outcome(s.(pointer := 0, frame := f), None)
      else
        var r := Decode(f);
        Outcome(State(0, f, s.checksum, r), Some(r))
    case Sign =>
      // the switch's default: no 'S' slot in this template
      Outcome(s, None)
  }

  /** The decoding loop over buf[lo..hi]. */
  function Run(s: Matcher, buf: seq<bv8>, lo: nat, hi: nat): Trace<Matcher, Reading>
    requires lo <= hi <= |buf|
  {
    Scan(Advance, s, buf, lo, hi)
  }

  /** The port's sample slot after a call: the last completed frame wins. */
  function LastSample(prev: AnemometerData, emitted: seq<Reading>, now: int): AnemometerData
  {
    if emitted == [] then prev else Sample(emitted[|emitted| - 1], now)
  }

  /** Two calls in a row that share the clock leave the sample slot as one
      call on everything they read would. */
  lemma {:induction false} LastSampleAppend(prev: AnemometerData, e1: seq<Reading>, e2: seq<Reading>, now: int)
    ensures LastSample(LastSample(prev, e1, now), e2, now) == LastSample(prev, e1 + e2, now)
  {
    if e2 == [] {
      assert e1 + e2 == e1;
    } else {
      assert (e1 + e2)[|e1 + e2| - 1] == e2[|e2| - 1];
    }
  }

  /** XOR of buf[lo..hi], accumulated from the first byte to the last. */
  function Checksum(buf: seq<bv8>, lo: nat, hi: nat): bv8
    requires lo <= hi <= |buf|
    decreases hi - lo
  {
    if hi == lo then 0 else Checksum(buf, lo, hi - 1) ^ buf[hi - 1]
  }

  lemma {:induction false} ChecksumSplit(buf: seq<bv8>, lo: nat, m: nat, hi: nat)
    requires lo <= m <= hi <= |buf|
    ensures Checksum(buf, lo, hi) == Checksum(buf, lo, m) ^ Checksum(buf, m, hi)
    decreases hi - m
  {
    if m < hi {
      ChecksumSplit(buf, lo, m, hi - 1);
    }
  }

  /** The checksum of a run depends only on the bytes in it. */
  lemma {:induction false} ChecksumShift(buf: seq<bv8>, lo: nat, hi: nat, other: seq<bv8>, start: nat)
    requires lo <= hi <= |buf| && start + (hi - lo) <= |other|
    requires forall j :: lo <= j < hi ==> buf[j] == other[start + (j - lo)]
    ensures Checksum(buf, lo, hi) == Checksum(other, start, start + (hi - lo))
    decreases hi - lo
  {
    if lo < hi {
      ChecksumShift(buf, lo, hi - 1, other, start);
    }
  }

  // ---- properties of one step ----

  /** In the start slot only STX does anything: it is stored at frame[0], the
      cursor moves to slot 1 and the checksum restarts. */
  lemma StartSlot(s: Matcher, b: bv8)
    requires s.pointer == 0
    ensures Advance(s, b).emitted == None
    ensures b != STX ==> Advance(s, b).next == s
    ensures b == STX ==> Advance(s, b).next == s.(pointer := 1, frame := s.frame[0 := STX], checksum := 0)
  {
  }

  /** A byte in the class of its slot. The 'X' class admits every byte but ','
      and '.'; the checksum slot admits every byte. */
  predicate Fits(slot: Slot, b: bv8)
  {
    match slot
    case Start => b == STX
    case Field => b != COMMA && b != DOT
    case Comma => b == COMMA
    case Dot => b == DOT
    case End => b == ETX
    case _ => true
  }

  /** A byte that violates an 'X', ',' or '.' slot (other than the comma that
      stands for a missing direction) sends the cursor back to 0 and clears the
      checksum; it is consumed, not looked at again as a start byte. */
  lemma ViolationResets(s: Matcher, b: bv8)
    requires SonicTemplate(s.pointer) in {Field, Comma, Dot}
    requires !Fits(SonicTemplate(s.pointer), b) && !(s.pointer == 3 && b == COMMA)
    ensures Advance(s, b).next == s.(pointer := 0, checksum := 0)
    ensures Advance(s, b).emitted == None
  {
  }

  /** At ETX's slot any other byte sends the cursor back to 0. */
  lemma EndSlotResets(s: Matcher, b: bv8)
    requires s.pointer == 19 && b != ETX
    ensures Advance(s, b).next == s.(pointer := 0)
    ensures Advance(s, b).emitted == None
  {
  }

  /** ETX in its slot is stored and moves the cursor to the checksum slot. */
  lemma EndStep(s: Matcher)
    requires s.pointer == 19
    ensures Advance(s, ETX).next == s.(pointer := 20, frame := s.frame[19 := ETX])
    ensures Advance(s, ETX).emitted == None
  {
  }

  /** The byte after ETX decides: a frame is emitted exactly when it equals the
      accumulated checksum, and either way the cursor is back at 0. */
  lemma ChecksumGate(s: Matcher, b: bv8)
    requires s.pointer == 20
    ensures Advance(s, b).next.pointer == 0
    ensures Advance(s, b).next.frame == s.frame[20 := b]
    ensures Advance(s, b).emitted.Some? <==> b == s.checksum
    ensures Advance(s, b).emitted.Some? ==>
      Advance(s, b).emitted.value == Decode(s.frame[20 := b]) == Advance(s, b).next.last
  {
  }

  /** Only the checksum slot completes a frame. */
  lemma EmitsOnlyAtCheck(s: Matcher, b: bv8)
    requires s.pointer != 20
    ensures Advance(s, b).emitted == None
  {
    assert SonicTemplate(s.pointer) != Check;
  }

  /** Between STX and ETX a byte that fits its slot is simply accepted. */
  lemma FitStep(s: Matcher, b: bv8)
    requires 1 <= s.pointer <= 18 && Fits(SonicTemplate(s.pointer), b)
    ensures Advance(s, b).next == Accept(s, b)
    ensures Advance(s, b).emitted == None
  {
    assert SonicTemplate(s.pointer) in {Field, Comma, Dot};
  }

  /** A comma where the direction should start stores three NULs and the comma,
      moves the cursor to the comma slot after the direction, and reads as
      direction 0 when the frame is decoded. */
  lemma LowSpeedStep(s: Matcher)
    requires s.pointer == 3
    ensures var n := Advance(s, COMMA).next;
      && n.pointer == 7
      && n.frame == s.frame[3 := 0][4 := 0][5 := 0][6 := COMMA]
      && n.checksum == s.checksum ^ COMMA
      && Atoi(n.frame[3..6]) == 0
    ensures Advance(s, COMMA).emitted == None
  {
    var n := Advance(s, COMMA).next;
    AtoiOfNuls(n.frame[3..6]);
  }

  // ---- runs of bytes ----

  /** Byte b fits template slot p. */
  predicate SlotFits(p: nat, b: bv8)
  {
    p < SonicLength && Fits(SonicTemplate(p), b)
  }

  /** An idle decoder ignores everything up to the next STX. */
  lemma {:induction false} IdleSkips(s: Matcher, buf: seq<bv8>, lo: nat, hi: nat)
    requires s.pointer == 0 && lo <= hi <= |buf|
    requires forall j :: lo <= j < hi ==> buf[j] != STX
    ensures Run(s, buf, lo, hi).state == s
    ensures Run(s, buf, lo, hi).emitted == []
    decreases hi - lo
  {
    if lo < hi {
      IdleSkips(s, buf, lo, hi - 1);
      StartSlot(s, buf[hi - 1]);
    }
  }

  /** Bytes that fit the field, comma and dot slots between STX and ETX are
      accepted one by one: the cursor advances over them, they fold into the
      checksum, and they complete nothing. */
  lemma {:induction false} BodyRun(s: Matcher, buf: seq<bv8>, lo: nat, hi: nat)
    requires lo <= hi <= |buf| && 1 <= s.pointer && s.pointer + (hi - lo) <= 19
    requires FitsRun(SlotFits, buf, lo, hi, s.pointer)
    ensures var t := Run(s, buf, lo, hi);
      && t.emitted == []
      && t.state.pointer == s.pointer + (hi - lo)
      && t.state.checksum == s.checksum ^ Checksum(buf, lo, hi)
    decreases hi - lo
  {
    if lo < hi {
      BodyRun(s, buf, lo, hi - 1);
      var mid := Run(s, buf, lo, hi - 1).state;
      FitStep(mid, buf[hi - 1]);
    }
  }

  /** ... and are stored in the buffer from the cursor on, leaving what lies
      before the cursor as it was. */
  lemma {:induction false} BodyRunStores(s: Matcher, buf: seq<bv8>, lo: nat, hi: nat)
    requires lo <= hi <= |buf| && 1 <= s.pointer && s.pointer + (hi - lo) <= 19
    requires FitsRun(SlotFits, buf, lo, hi, s.pointer)
    ensures var f := Run(s, buf, lo, hi).state.frame;
      && Copied(f, 0, s.frame, 0, s.pointer)
      && Copied(f, s.pointer, buf, lo, hi)
    decreases hi - lo
  {
    if lo == hi {
      CopiedEach(s.frame, 0, s.frame, 0, s.pointer);
    } else {
      BodyRunStores(s, buf, lo, hi - 1);
      BodyRun(s, buf, lo, hi - 1);
      var mid := Run(s, buf, lo, hi - 1).state;
      FitStep(mid, buf[hi - 1]);
      CopiedUpdate(mid.frame, 0, s.frame, 0, s.pointer, mid.pointer, buf[hi - 1]);
      CopiedUpdate(mid.frame, s.pointer, buf, lo, hi - 1, mid.pointer, buf[hi - 1]);
    }
  }

  // ---- whole frames ----

  /** A frame with the direction present at buf[lo..lo+21]: each byte in the
      class of its slot (the final checksum byte may be any byte). */
  predicate WellFormedAt(buf: seq<bv8>, lo: nat)
  {
    lo + SonicLength <= |buf| && FitsRun(SlotFits, buf, lo, lo + SonicLength, 0)
  }

  /** The transmitted checksum is the XOR of the bytes between STX and ETX. */
  predicate ChecksumMatchesAt(buf: seq<bv8>, lo: nat)
    requires lo + SonicLength <= |buf|
  {
    buf[lo + 20] == Checksum(buf, lo + 1, lo + 19)
  }

  /** Decode reads only the first 21 bytes of the buffer. */
  lemma DecodeReadsFrame(a: seq<bv8>, b: seq<bv8>)
    requires |a| >= SonicLength && |b| >= SonicLength
    requires forall j :: 0 <= j < SonicLength ==> a[j] == b[j]
    ensures Decode(a) == Decode(b)
  {
    assert a[3..6] == b[3..6];
    assert a[7..13] == b[7..13];
    assert a[16..18] == b[16..18];
  }

  /** A buffer holding a frame's 21 bytes decodes as the frame. */
  lemma DecodeCopied(f: seq<bv8>, src: seq<bv8>, lo: nat)
    requires lo + SonicLength <= |src| && SonicLength <= |f|
    requires Copied(f, 0, src, lo, lo + SonicLength)
    ensures Decode(f) == Decode(src[lo..lo + SonicLength])
  {
    CopiedEach(f, 0, src, lo, lo + SonicLength);
    DecodeReadsFrame(f, src[lo..lo + SonicLength]);
  }

  /** STX brings an idle decoder to slot 1 with STX stored and the checksum
      cleared. */
  lemma StxRun(s: Matcher, buf: seq<bv8>, lo: nat)
    requires s.pointer == 0 && lo < |buf| && buf[lo] == STX
    ensures var t := Run(s, buf, lo, lo + 1);
      && t.emitted == []
      && t.state == s.(pointer := 1, frame := s.frame[0 := STX], checksum := 0)
  {
    ScanOne(Advance, s, buf, lo);
    StartSlot(s, buf[lo]);
  }

  /** The first k bytes of a frame, up to at most the byte before ETX, bring
      an idle decoder to slot k, with the checksum of the bytes after STX. */
  lemma {:induction false} PrefixRun(s: Matcher, buf: seq<bv8>, lo: nat, k: nat)
    requires s.pointer == 0 && 1 <= k <= 19 && lo + k <= |buf|
    requires FitsRun(SlotFits, buf, lo, lo + k, 0)
    ensures var t := Run(s, buf, lo, lo + k);
      && t.emitted == []
      && t.state.pointer == k
      && t.state.checksum == Checksum(buf, lo + 1, lo + k)
  {
    if k == 1 {
      StxRun(s, buf, lo);
    } else {
      PrefixRun(s, buf, lo, k - 1);
      FitStep(Run(s, buf, lo, lo + k - 1).state, buf[lo + k - 1]);
    }
  }

  /** ... and with those k bytes in its buffer. */
  lemma {:induction false} PrefixRunStores(s: Matcher, buf: seq<bv8>, lo: nat, k: nat)
    requires s.pointer == 0 && 1 <= k <= 19 && lo + k <= |buf|
    requires FitsRun(SlotFits, buf, lo, lo + k, 0)
    ensures Copied(Run(s, buf, lo, lo + k).state.frame, 0, buf, lo, lo + k)
  {
    if k == 1 {
      StxRun(s, buf, lo);
    } else {
      PrefixRunStores(s, buf, lo, k - 1);
      PrefixRun(s, buf, lo, k - 1);
      var mid := Run(s, buf, lo, lo + k - 1).state;
      FitStep(mid, buf[lo + k - 1]);
      CopiedUpdate(mid.frame, 0, buf, lo, lo + k - 1, k - 1, buf[lo + k - 1]);
    }
  }

  /** ETX at buf[i] and the checksum byte after it, at the ETX slot: the
      decoder ends idle with both stored, and yields the decoded buffer exactly
      when the checksum byte equals the running checksum. */
  lemma Finish(s: Matcher, buf: seq<bv8>, i: nat)
    requires s.pointer == 19 && i + 2 <= |buf| && buf[i] == ETX
    ensures var t := Run(s, buf, i, i + 2);
      var f := s.frame[19 := ETX][20 := buf[i + 1]];
      && t.state.pointer == 0
      && t.state.frame == f
      && t.emitted == (if buf[i + 1] == s.checksum then [Decode(f)] else [])
  {
    EndStep(s);
    ScanOne(Advance, s, buf, i);
    var s20 := Run(s, buf, i, i + 1).state;
    ScanOne(Advance, s20, buf, i + 1);
    ChecksumGate(s20, buf[i + 1]);
    ScanSplit(Advance, s, buf, i, i + 1, i + 2);
  }

  /** Storing ETX and the checksum byte after 19 copied bytes completes the
      copy of a 21-byte frame. */
  lemma Completed(f: seq<bv8>, src: seq<bv8>, lo: nat, b: bv8)
    requires |f| == FrameCapacity && lo + SonicLength <= |src|
    requires Copied(f, 0, src, lo, lo + 19) && src[lo + 19] == ETX && src[lo + 20] == b
    ensures Copied(f[19 := ETX][20 := b], 0, src, lo, lo + SonicLength)
  {
    CopiedUpdate(f, 0, src, lo, lo + 19, 19, ETX);
    CopiedUpdate(f[19 := ETX], 0, src, lo, lo + 19, 20, b);
  }

  /** A well-formed frame fed to an idle decoder is emitted, decoded from its
      own bytes, exactly when its checksum matches; either way the decoder ends
      idle with the frame in its buffer. */
  lemma FrameDecoded(s: Matcher, buf: seq<bv8>, lo: nat)
    requires s.pointer == 0 && WellFormedAt(buf, lo)
    ensures var t := Run(s, buf, lo, lo + 21);
      && t.state.pointer == 0
      && Copied(t.state.frame, 0, buf, lo, lo + 21)
      && t.emitted == (if ChecksumMatchesAt(buf, lo) then [Decode(buf[lo..lo + 21])] else [])
  {
    FitsRunSplit(SlotFits, buf, lo, lo + 19, lo + 21, 0);
    FitsRunSplit(SlotFits, buf, lo + 19, lo + 20, lo + 21, 19);
    PrefixRun(s, buf, lo, 19);
    PrefixRunStores(s, buf, lo, 19);
    var s19 := Run(s, buf, lo, lo + 19).state;
    Finish(s19, buf, lo + 19);
    var f := s19.frame[19 := ETX][20 := buf[lo + 20]];
    Completed(s19.frame, buf, lo, buf[lo + 20]);
    DecodeCopied(f, buf, lo);
    ScanSplit(Advance, s, buf, lo, lo + 19, lo + 21);
  }

  /** A well-formed frame that arrives while the decoder is idle appends its
      reading to those completed before it exactly when its checksum matches. */
  lemma FrameAfter(s: Matcher, buf: seq<bv8>, m: nat)
    requires WellFormedAt(buf, m) && Run(s, buf, 0, m).state.pointer == 0
    ensures Run(s, buf, 0, m + 21).state.pointer == 0
    ensures Run(s, buf, 0, m + 21).emitted == Run(s, buf, 0, m).emitted +
      (if ChecksumMatchesAt(buf, m) then [Decode(buf[m..m + 21])] else [])
  {
    FrameDecoded(Run(s, buf, 0, m).state, buf, m);
    ScanSplit(Advance, s, buf, 0, m, m + 21);
  }

  /** Below the speed floor the sensor leaves the direction out: STX a , , then
      the rest of the frame from the speed on, 18 bytes in all, the bytes
      from the fifth on in the classes of slots 7 to 20. */
  predicate LowSpeedAt(buf: seq<bv8>, lo: nat)
  {
    && lo + 18 <= |buf| && FitsRun(SlotFits, buf, lo, lo + 3, 0) && buf[lo + 3] == COMMA
    && FitsRun(SlotFits, buf, lo + 4, lo + 18, 7)
  }

  /** The buffer contents the decoder builds from a low-speed frame: three NULs
      where the direction would be. */
  function Expand(f: seq<bv8>): (r: seq<bv8>)
    requires |f| >= 3
    ensures |r| == |f| + 3
    ensures forall j :: 0 <= j < 3 ==> r[j] == f[j]
    ensures r[3] == 0 && r[4] == 0 && r[5] == 0
    ensures forall j :: 3 <= j < |f| ==> r[j + 3] == f[j]
  {
    f[..3] + [0, 0, 0] + f[3..]
  }

  /** The first four bytes of a low-speed frame bring an idle decoder to slot
      7, with the checksum of the address and the comma. */
  lemma LowSpeedHead(s: Matcher, buf: seq<bv8>, lo: nat)
    requires s.pointer == 0 && LowSpeedAt(buf, lo)
    ensures var t := Run(s, buf, lo, lo + 4);
      && t.emitted == []
      && t.state.pointer == 7
      && t.state.checksum == Checksum(buf, lo + 1, lo + 4)
  {
    PrefixRun(s, buf, lo, 3);
    var s3 := Run(s, buf, lo, lo + 3).state;
    LowSpeedStep(s3);
    ScanOne(Advance, s3, buf, lo + 3);
    ScanSplit(Advance, s, buf, lo, lo + 3, lo + 4);
  }

  /** A buffer holding STX, the address and the comma, with three NULs and
      the next comma written after them, holds the head of the expanded frame. */
  lemma ExpandHead(f: seq<bv8>, buf: seq<bv8>, lo: nat)
    requires |f| == FrameCapacity && lo + 18 <= |buf| && buf[lo + 3] == COMMA
    requires Copied(f, 0, buf, lo, lo + 3)
    ensures Copied(f[3 := 0][4 := 0][5 := 0][6 := COMMA], 0, Expand(buf[lo..lo + 18]), 0, 7)
  {
    var e := Expand(buf[lo..lo + 18]);
    CopiedEach(f, 0, buf, lo, lo + 3);
    assert e[6] == buf[lo..lo + 18][3];
    CopiedEach(f[3 := 0][4 := 0][5 := 0][6 := COMMA], 0, e, 0, 7);
  }

  /** ... with STX, the address and the comma stored, three NULs where the
      direction would be, and the comma after them. */
  lemma LowSpeedHeadStores(s: Matcher, buf: seq<bv8>, lo: nat)
    requires s.pointer == 0 && LowSpeedAt(buf, lo)
    ensures Copied(Run(s, buf, lo, lo + 4).state.frame, 0, Expand(buf[lo..lo + 18]), 0, 7)
  {
    PrefixRun(s, buf, lo, 3);
    PrefixRunStores(s, buf, lo, 3);
    var s3 := Run(s, buf, lo, lo + 3).state;
    LowSpeedStep(s3);
    ScanOne(Advance, s3, buf, lo + 3);
    ScanSplit(Advance, s, buf, lo, lo + 3, lo + 4);
    ExpandHead(s3.frame, buf, lo);
  }

  /** A low-speed frame up to its ETX brings an idle decoder to the ETX slot;
      the checksum covers only the bytes actually sent. */
  lemma LowSpeedPrefix(s: Matcher, buf: seq<bv8>, lo: nat)
    requires s.pointer == 0 && LowSpeedAt(buf, lo)
    ensures var t := Run(s, buf, lo, lo + 16);
      && t.emitted == []
      && t.state.pointer == 19
      && t.state.checksum == Checksum(buf, lo + 1, lo + 16)
  {
    LowSpeedHead(s, buf, lo);
    var s4 := Run(s, buf, lo, lo + 4).state;
    FitsRunSplit(SlotFits, buf, lo + 4, lo + 16, lo + 18, 7);
    BodyRun(s4, buf, lo + 4, lo + 16);
    ScanSplit(Advance, s, buf, lo, lo + 4, lo + 16);
    ChecksumSplit(buf, lo + 1, lo + 4, lo + 16);
  }

  /** The bytes after the first comma of a low-speed frame are stored three
      places further on than they arrive. */
  lemma ExpandCopied(f: seq<bv8>, buf: seq<bv8>, lo: nat)
    requires lo + 18 <= |buf| && |f| == FrameCapacity
    requires Copied(f, 7, buf, lo + 4, lo + 16)
    ensures Copied(f, 7, Expand(buf[lo..lo + 18]), 7, 19)
  {
    var e := Expand(buf[lo..lo + 18]);
    CopiedEach(f, 7, buf, lo + 4, lo + 16);
    forall j | 7 <= j < 19 ensures f[7 + (j - 7)] == e[j] {
      assert e[(j - 3) + 3] == buf[lo..lo + 18][j - 3];
    }
    CopiedEach(f, 7, e, 7, 19);
  }

  /** A buffer that keeps the expanded head of an earlier buffer and holds
      the bytes after the first comma from slot 7 on holds the first 19 bytes
      of the expanded frame. */
  lemma ExpandPrefix(f: seq<bv8>, g: seq<bv8>, buf: seq<bv8>, lo: nat)
    requires |f| == FrameCapacity && |g| == FrameCapacity && lo + 18 <= |buf|
    requires Copied(g, 0, Expand(buf[lo..lo + 18]), 0, 7) && Copied(f, 0, g, 0, 7)
    requires Copied(f, 7, buf, lo + 4, lo + 16)
    ensures Copied(f, 0, Expand(buf[lo..lo + 18]), 0, 19)
  {
    var e := Expand(buf[lo..lo + 18]);
    CopiedEach(g, 0, e, 0, 7);
    CopiedEach(f, 0, g, 0, 7);
    CopiedEach(f, 0, e, 0, 7);
    ExpandCopied(f, buf, lo);
    CopiedJoin(f, 0, e, 0, 7, 19);
  }

  /** ... and so the buffer holds the frame as Expand gives it. */
  lemma LowSpeedPrefixStores(s: Matcher, buf: seq<bv8>, lo: nat)
    requires s.pointer == 0 && LowSpeedAt(buf, lo)
    ensures Copied(Run(s, buf, lo, lo + 16).state.frame, 0, Expand(buf[lo..lo + 18]), 0, 19)
  {
    LowSpeedHead(s, buf, lo);
    LowSpeedHeadStores(s, buf, lo);
    var s4 := Run(s, buf, lo, lo + 4).state;
    FitsRunSplit(SlotFits, buf, lo + 4, lo + 16, lo + 18, 7);
    BodyRunStores(s4, buf, lo + 4, lo + 16);
    ScanSplit(Advance, s, buf, lo, lo + 4, lo + 16);
    ExpandPrefix(Run(s, buf, lo, lo + 16).state.frame, s4.frame, buf, lo);
  }

  /** What a low-speed frame decodes to: direction 0, and the speed field
      where a full frame has it. */
  lemma LowSpeedReading(buf: seq<bv8>, lo: nat)
    requires lo + 18 <= |buf|
    ensures Decode(Expand(buf[lo..lo + 18])).direction == 0
    ensures Decode(Expand(buf[lo..lo + 18])).speed == Atof(buf[lo + 4..lo + 10])
  {
    var e := Expand(buf[lo..lo + 18]);
    AtoiOfNuls(e[3..6]);
    forall x | 0 <= x < 6 ensures e[7..13][x] == buf[lo + 4..lo + 10][x] {
      assert e[(4 + x) + 3] == buf[lo..lo + 18][4 + x];
    }
    assert e[7..13] == buf[lo + 4..lo + 10];
  }

  /** A low-speed frame ends in ETX and its checksum byte. */
  lemma LowSpeedEnds(buf: seq<bv8>, lo: nat)
    requires LowSpeedAt(buf, lo)
    ensures buf[lo + 16] == ETX
    ensures Expand(buf[lo..lo + 18])[19] == ETX
    ensures Expand(buf[lo..lo + 18])[20] == buf[lo + 17]
  {
    FitsRunSplit(SlotFits, buf, lo + 4, lo + 16, lo + 18, 7);
    FitsRunSplit(SlotFits, buf, lo + 16, lo + 17, lo + 18, 19);
    var e := Expand(buf[lo..lo + 18]);
    assert e[16 + 3] == buf[lo..lo + 18][16];
    assert e[17 + 3] == buf[lo..lo + 18][17];
  }

  /** Completing a buffer that holds the first 19 bytes of an expanded
      low-speed frame gives a buffer that decodes as the expanded frame. */
  lemma LowSpeedDecodes(f: seq<bv8>, buf: seq<bv8>, lo: nat)
    requires |f| == FrameCapacity && LowSpeedAt(buf, lo)
    requires Copied(f, 0, Expand(buf[lo..lo + 18]), 0, 19)
    ensures Decode(f[19 := ETX][20 := buf[lo + 17]]) == Decode(Expand(buf[lo..lo + 18]))
  {
    var e := Expand(buf[lo..lo + 18]);
    LowSpeedEnds(buf, lo);
    Completed(f, e, 0, buf[lo + 17]);
    DecodeCopied(f[19 := ETX][20 := buf[lo + 17]], e, 0);
    DecodeReadsFrame(e[0..21], e);
  }

  /** A low-speed frame is decoded exactly when the byte after ETX is the XOR of
      the bytes actually sent between STX and ETX (the NULs are not sent and do
      not count), and it reads as direction 0 with the speed field where a
      full frame has it. */
  lemma LowSpeedFrameDecoded(s: Matcher, buf: seq<bv8>, lo: nat)
    requires s.pointer == 0 && LowSpeedAt(buf, lo)
    ensures var t := Run(s, buf, lo, lo + 18);
      var r := Decode(Expand(buf[lo..lo + 18]));
      && t.state.pointer == 0
      && t.emitted == (if buf[lo + 17] == Checksum(buf, lo + 1, lo + 16) then [r] else [])
      && r.direction == 0
      && r.speed == Atof(buf[lo + 4..lo + 10])
  {
    LowSpeedPrefix(s, buf, lo);
    LowSpeedPrefixStores(s, buf, lo);
    LowSpeedEnds(buf, lo);
    var s16 := Run(s, buf, lo, lo + 16).state;
    Finish(s16, buf, lo + 16);
    LowSpeedDecodes(s16.frame, buf, lo);
    ScanSplit(Advance, s, buf, lo, lo + 16, lo + 18);
    LowSpeedReading(buf, lo);
  }

  // ---- resynchronisation ----

  /** A byte outside the class of a slot between STX and the checksum slot
      (other than the comma that stands for a missing direction) sends the
      cursor back to 0, completing nothing. */
  lemma BreakStep(s: Matcher, b: bv8)
    requires 1 <= s.pointer <= 19
    requires !Fits(SonicTemplate(s.pointer), b) && !(s.pointer == 3 && b == COMMA)
    ensures Advance(s, b).next.pointer == 0
    ensures Advance(s, b).emitted == None
  {
    if s.pointer == 19 {
      EndSlotResets(s, b);
    } else {
      assert SonicTemplate(s.pointer) in {Field, Comma, Dot};
      ViolationResets(s, b);
    }
  }

  /** A frame broken at its byte k (the first k bytes fit, byte k does not;
      at k = 19 that is any byte but ETX) leaves the decoder idle, having
      completed nothing. */
  lemma BrokenFrame(s: Matcher, buf: seq<bv8>, k: nat)
    requires s.pointer == 0 && 1 <= k <= 19 && k < |buf|
    requires FitsRun(SlotFits, buf, 0, k, 0)
    requires !Fits(SonicTemplate(k), buf[k]) && !(k == 3 && buf[k] == COMMA)
    ensures Run(s, buf, 0, k + 1).state.pointer == 0
    ensures Run(s, buf, 0, k + 1).emitted == []
  {
    PrefixRun(s, buf, 0, k);
    var sk := Run(s, buf, 0, k).state;
    BreakStep(sk, buf[k]);
    ScanOne(Advance, sk, buf, k);
    ScanSplit(Advance, s, buf, 0, k, k + 1);
  }

  /** A decoder idle after buf[lo..a] stays idle, completing nothing, while
      no STX arrives. */
  lemma IdleAfter(s: Matcher, buf: seq<bv8>, a: nat, m: nat)
    requires a <= m <= |buf|
    requires Run(s, buf, 0, a).state.pointer == 0 && Run(s, buf, 0, a).emitted == []
    requires forall j :: a <= j < m ==> buf[j] != STX
    ensures Run(s, buf, 0, m).state.pointer == 0
    ensures Run(s, buf, 0, m).emitted == []
  {
    IdleSkips(Run(s, buf, 0, a).state, buf, a, m);
    ScanSplit(Advance, s, buf, 0, a, m);
  }

  /** ... and if no STX follows before position m, the decoder is still idle
      there, having completed nothing. */
  lemma BrokenFrameIdle(s: Matcher, buf: seq<bv8>, k: nat, m: nat)
    requires s.pointer == 0 && 1 <= k <= 19 && k < m <= |buf|
    requires FitsRun(SlotFits, buf, 0, k, 0)
    requires !Fits(SonicTemplate(k), buf[k]) && !(k == 3 && buf[k] == COMMA)
    requires forall j :: k < j < m ==> buf[j] != STX
    ensures Run(s, buf, 0, m).state.pointer == 0
    ensures Run(s, buf, 0, m).emitted == []
  {
    BrokenFrame(s, buf, k);
    IdleAfter(s, buf, k + 1, m);
  }

  /** A frame broken at its byte k (the first k bytes fit, byte k does not)
      yields nothing; if no STX follows before the next frame at m, that frame,
      well-formed with a matching checksum, is decoded. An STX in between (the
      checksum byte of the broken frame can be 0x02) starts a false frame,
      which can swallow the next one. */
  lemma BrokenFrameThenResync(s: Matcher, buf: seq<bv8>, k: nat, m: nat)
    requires s.pointer == 0
    requires 1 <= k <= 19 && k < m && WellFormedAt(buf, m) && ChecksumMatchesAt(buf, m)
    requires FitsRun(SlotFits, buf, 0, k, 0)
    requires !Fits(SonicTemplate(k), buf[k]) && !(k == 3 && buf[k] == COMMA)
    requires forall j :: k < j < m ==> buf[j] != STX
    ensures Run(s, buf, 0, m).emitted == []
    ensures Run(s, buf, 0, m + 21).emitted == [Decode(buf[m..m + 21])]
  {
    BrokenFrameIdle(s, buf, k, m);
    FrameAfter(s, buf, m);
    assert [] + [Decode(buf[m..m + 21])] == [Decode(buf[m..m + 21])];
  }

  // ---- reads of a stream ----

  /** Handing a decoder two reads of its port one after the other has the
      effect of handing it both at once: the decoder ends in the same state,
      and, with one clock for both, the sample slot holds the same sample. A
      frame split across two reads is therefore decoded as if it had arrived
      whole. */
  lemma TwoReads(s: Matcher, a: seq<bv8>, b: seq<bv8>, prev: AnemometerData, now: int)
    ensures var ta := Run(s, a, 0, |a|);
      var tb := Run(ta.state, b, 0, |b|);
      var t := Run(s, a + b, 0, |a + b|);
      && t.state == tb.state
      && t.emitted == ta.emitted + tb.emitted
      && LastSample(LastSample(prev, ta.emitted, now), tb.emitted, now) == LastSample(prev, t.emitted, now)
  {
    ScanChunks(Advance, s, a, b);
    var ta := Run(s, a, 0, |a|);
    LastSampleAppend(prev, ta.emitted, Run(ta.state, b, 0, |b|).emitted, now);
  }

  // ---- a frame as the sensor sends it ----

  /** A frame as the sensor sends it: address Q, direction 045, speed
      002.30, units M, status 00, and `check` as the checksum byte. */
  function PolarFrame(check: bv8): (r: seq<bv8>)
    ensures |r| == SonicLength
  {
    [0x02, 0x51, 0x2C, 0x30, 0x34, 0x35, 0x2C, 0x30, 0x30, 0x32, 0x2E, 0x33, 0x30,
     0x2C, 0x4D, 0x2C, 0x30, 0x30, 0x2C, 0x03, check]
  }

  /** What the frame reads as. */
  const PolarReading: Reading := Reading(0x51, 45, Atof([0x30, 0x30, 0x32, 0x2E, 0x33, 0x30]), 0x4D, 0)

  lemma PolarFrameWellFormed(buf: seq<bv8>, lo: nat, check: bv8)
    requires lo + SonicLength <= |buf| && buf[lo..lo + SonicLength] == PolarFrame(check)
    ensures WellFormedAt(buf, lo)
  {
    var f := PolarFrame(check);
    forall j | lo <= j < lo + SonicLength ensures SlotFits(0 + (j - lo), buf[j]) {
      assert buf[j] == f[j - lo];
    }
    FitsRunEach(SlotFits, buf, lo, lo + SonicLength, 0);
  }

  /** The XOR of "Q,045,002.30,M,00," is 0x1E. */
  lemma PolarChecksum(check: bv8)
    ensures Checksum(PolarFrame(check), 1, 19) == 0x1E
  {
    var f := PolarFrame(check);
    assert Checksum(f, 1, 4) == 0x4D;
    assert Checksum(f, 1, 8) == 0x50;
    assert Checksum(f, 1, 12) == 0x4F;
    assert Checksum(f, 1, 16) == 0x32;
  }

  lemma PolarFrameChecksum(buf: seq<bv8>, lo: nat, check: bv8)
    requires lo + SonicLength <= |buf| && buf[lo..lo + SonicLength] == PolarFrame(check)
    ensures ChecksumMatchesAt(buf, lo) <==> check == 0x1E
  {
    var f := PolarFrame(check);
    forall j | lo + 1 <= j < lo + 19 ensures buf[j] == f[1 + (j - (lo + 1))] {
      assert buf[j] == buf[lo..lo + SonicLength][j - lo];
    }
    ChecksumShift(buf, lo + 1, lo + 19, f, 1);
    PolarChecksum(check);
    assert buf[lo + 20] == f[20];
  }

  lemma PolarFrameDirection(check: bv8)
    ensures Atoi(PolarFrame(check)[3..6]) == 45
  {
    var f := PolarFrame(check);
    var d: seq<bv8> := [0x30, 0x34, 0x35];
    assert f[3..6] == d;
    assert d[1..] == [0x34, 0x35] && d[1..][1..] == [0x35] && d[1..][1..][1..] == [];
    assert DecimalValue(d) == 45 by {
      assert Pow10(1) == 10 && Pow10(2) == 100;
    }
    AtoiOfDigits(d);
  }

  lemma PolarFrameStatus(check: bv8)
    ensures Atoi(PolarFrame(check)[16..18]) == 0
  {
    var f := PolarFrame(check);
    var d: seq<bv8> := [0x30, 0x30];
    assert f[16..18] == d;
    assert d[1..] == [0x30] && d[1..][1..] == [];
    AtoiOfDigits(d);
  }

  lemma PolarFrameSpeed(check: bv8)
    ensures PolarFrame(check)[7..13] == [0x30, 0x30, 0x32, 0x2E, 0x33, 0x30]
  {
    var f := PolarFrame(check);
    var speed: seq<bv8> := [0x30, 0x30, 0x32, 0x2E, 0x33, 0x30];
    forall x | 0 <= x < 6 ensures f[7..13][x] == speed[x] {
      assert f[7..13][x] == f[7 + x];
    }
  }

  lemma PolarFrameFields(check: bv8)
    ensures Decode(PolarFrame(check)) == PolarReading
  {
    PolarFrameDirection(check);
    PolarFrameStatus(check);
    PolarFrameSpeed(check);
  }

  /** Wherever it arrives, to an idle decoder, the frame decodes to
      direction 45, speed "002.30", units M and status 0 when its checksum
      byte is 0x1E, and yields nothing with any other checksum byte. Either
      way the decoder is idle again after it. */
  lemma PolarFrameDecoded(s: Matcher, buf: seq<bv8>, lo: nat, check: bv8)
    requires s.pointer == 0
    requires lo + SonicLength <= |buf| && buf[lo..lo + SonicLength] == PolarFrame(check)
    ensures var t := Run(s, buf, lo, lo + SonicLength);
      && t.state.pointer == 0
      && t.emitted == (if check == 0x1E then [PolarReading] else [])
  {
    PolarFrameWellFormed(buf, lo, check);
    PolarFrameChecksum(buf, lo, check);
    PolarFrameFields(check);
    FrameDecoded(s, buf, lo);
  }

  // ---- the decoder as the program holds it ----

  /** One element of the static gill_frame_windsonic table: the cursor, the
      100-byte frame buffer, the running checksum and the parsed fields. */
  class Decoder {
    const frame: array<bv8>
    var pointer: nat
    var checksum: bv8
    var last: Reading

    ghost predicate Valid()
      reads this
    {
      frame.Length == FrameCapacity && pointer < SonicLength
    }

    /** The decoder as a value. */
    ghost function Abs(): Matcher
      reads this, frame
      requires Valid()
    {
      State(pointer, frame[..], checksum, last)
    }

    /** A zero-initialised table element. */
    constructor ()
      ensures Valid() && fresh(frame)
      ensures Abs() == Initial
    {
      frame := new bv8[FrameCapacity](_ => 0);
      pointer := 0;
      checksum := 0;
      last := NoReading;
    }

    /** One pass of the decoding loop's switch on the template slot under the
        cursor, for byte `b`; returns the reading when `b` completes a frame
        whose checksum matches. */
    method Step(b: bv8) returns (r: Option<Reading>)
      requires Valid()
      modifies this, frame
      ensures Valid()
      ensures Abs() == Advance(old(Abs()), b).next
      ensures r == Advance(old(Abs()), b).emitted
    {
      var p := pointer;
      r := None;
      match SonicTemplate(p)
      case Start =>
        if b == STX {
          frame[p] := b;
          pointer := p + 1;
          checksum := 0;
        }
      case Field =>
        if b != COMMA && b != DOT {
          frame[p] := b;
          pointer := p + 1;
          checksum := checksum ^ b;
        } else if b == COMMA && p == 3 {
          frame[3] := 0;
          frame[4] := 0;
          frame[5] := 0;
          frame[6] := b;
          pointer := 7;
          checksum := checksum ^ b;
        } else {
          pointer := 0;
          checksum := 0;
        }
      case Comma =>
        if b == COMMA {
          frame[p] := b;
          pointer := p + 1;
          checksum := checksum ^ b;
        } else {
          pointer := 0;
          checksum := 0;
        }
      case Dot =>
        if b == DOT {
          frame[p] := b;
          pointer := p + 1;
          checksum := checksum ^ b;
        } else {
          pointer := 0;
          checksum := 0;
        }
      case End =>
        if b == ETX {
          frame[p] := b;
          pointer := p + 1;
        } else {
          pointer := 0;
        }
      case Check =>
        frame[p] := b;
        pointer := 0;
        if b == checksum {
          last := Decode(frame[..]);
          r := Some(last);
        }
      case Sign =>
    }
  }

  /** The static decoder table and the shared sample table: one decoder per
      port, each with its own buffer, none of them the sample table. */
  ghost predicate Tables(bank: array<Decoder>, wind: array<AnemometerData>)
    reads bank, set j | 0 <= j < bank.Length :: bank[j]
  {
    && bank.Length == MaxAnemometers && wind.Length == MaxAnemometers
    && (forall j :: 0 <= j < bank.Length ==> bank[j].Valid())
    && (forall j, k :: 0 <= j < k < bank.Length ==> bank[j] != bank[k] && bank[j].frame != bank[k].frame)
  }

  /** gillProcessFrame_WindSonic: feed buf[0..len] to the decoder of port
      `index`; every frame completed on the way overwrites that port's sample
      slot with the clock `now`. An index outside the table or an empty read
      changes nothing. */
  method ProcessFrame(bank: array<Decoder>, wind: array<AnemometerData>, buf: seq<bv8>, len: int,
                      index: int, now: int)
    requires Tables(bank, wind) && len <= |buf|
    modifies if 0 <= index < bank.Length then {bank[index], bank[index].frame} else {}, wind
    ensures Tables(bank, wind)
    ensures !(0 <= index < MaxAnemometers && len > 0) ==> wind[..] == old(wind[..])
    ensures 0 <= index < MaxAnemometers && len <= 0 ==> bank[index].Abs() == old(bank[index].Abs())
    ensures 0 <= index < MaxAnemometers && len > 0 ==>
      var t := Run(old(bank[index].Abs()), buf, 0, len);
      && bank[index].Abs() == t.state
      && wind[..] == old(wind[..])[index := LastSample(old(wind[index]), t.emitted, now)]
    ensures forall j :: 0 <= j < MaxAnemometers && j != index ==> bank[j].Abs() == old(bank[j].Abs())
  {
    if index < 0 || index >= MaxAnemometers {
      return;
    }
    if len <= 0 {
      return;
    }
    var d := bank[index];
    ghost var s0 := d.Abs();
    ghost var w0 := wind[..];
    for i := 0 to len
      invariant d.Valid()
      invariant d.Abs() == Run(s0, buf, 0, i).state
      invariant wind[..] == w0[index := LastSample(w0[index], Run(s0, buf, 0, i).emitted, now)]
    {
      var r := d.Step(buf[i]);
      if r.Some? {
        wind[index] := Sample(r.value, now);
      }
    }
  }
}
