/** The Gill WindMaster decoder of serial_gill.cxx (gillProcessFrame_WindMaster).
    The same slot-by-slot matcher as the WindSonic decoder, over a 36-slot
    template with sign slots and no checksum: a byte outside the class of its
    slot sends the cursor back to 0, while at the ETX slot any other byte is
    skipped. ETX completes the frame, which is decoded into the status words,
    the three velocity components and the temperature, and copied into the
    port's slot of the shared sample table. */
module WindMaster {
  import opened AnemometerTypes
  import opened GillProtocol

  /** StaA, StaD, u, v, w and T as parsed from the last completed frame. */
  datatype Reading = Reading(staA: bv16, staD: bv16, u: Float, v: Float, w: Float, temperature: Float)

  const NoReading: Reading := Reading(0, 0, Zero, Zero, Zero, Zero)

  /** One element of gill_frame_windmaster as a value: the cursor into
      MasterTemplate, the frame buffer and the parsed fields. `signedChar`
      is whether `char` is signed on the platform the decoder runs on; it
      decides how the status words come out and never changes. */
  datatype State = State(pointer: nat, frame: seq<bv8>, last: Reading, signedChar: bool)

  /** The cursor always names a template slot, so every write through it lands
      inside the 100-byte buffer. */
  predicate Inv(s: State)
  {
    s.pointer < MasterLength && |s.frame| == FrameCapacity
  }

  /** The states a decoder can be in. */
  type Matcher = s: State | Inv(s) witness State(0, seq(FrameCapacity, _ => 0), NoReading, false)

  /** A decoder as the zero-initialised static array holds it. */
  function Initial(signedChar: bool): (r: Matcher)
    ensures r.pointer == 0 && r.last == NoReading && r.signedChar == signedChar
    ensures forall j :: 0 <= j < FrameCapacity ==> r.frame[j] == 0
  {
    State(0, seq(FrameCapacity, _ => 0), NoReading, signedChar)
  }

  // ---- the status words ----

  /** C's conversion of a `char` to `short`: sign extension where `char` is
      signed, zero extension where it is not (the C standard leaves the choice
      to the platform). */
  function Widen(c: bv8, signedChar: bool): bv16
  {
    if signedChar && c >= 0x80 then (c as bv16) | 0xFF00 else c as bv16
  }

  /** The status word as the decoder computes it: the first character shifted
      into the high byte, then combined with the second by bitwise AND. */
  function PackAsWritten(hi: bv8, lo: bv8, signedChar: bool): bv16
  {
    (Widen(hi, signedChar) << 8) & Widen(lo, signedChar)
  }

  /** Whatever the signedness of `char`, a status word whose second character
      is ASCII comes out as 0, so the value says nothing about the status. */
  lemma PackAsWrittenLosesAscii(hi: bv8, lo: bv8, signedChar: bool)
    requires lo < 0x80
    ensures PackAsWritten(hi, lo, signedChar) == 0
  {
  }

  /** A concrete pair of distinct status fields, "00" and "62", that the
      decoder cannot tell apart. */
  lemma PackAsWrittenCollides(signedChar: bool)
    ensures PackAsWritten(0x30, 0x30, signedChar) == PackAsWritten(0x36, 0x32, signedChar) == 0
  {
    PackAsWrittenLosesAscii(0x30, 0x30, signedChar);
    PackAsWrittenLosesAscii(0x36, 0x32, signedChar);
  }

  /** The two characters of a status field side by side in one 16-bit word:
      the first in the high byte, the second in the low byte. */
  function Pack(hi: bv8, lo: bv8): bv16
  {
    (hi as bv16 << 8) | lo as bv16
  }

  /** Both characters can be read back from the word, so distinct fields give
      distinct words. */
  lemma PackRoundTrip(hi: bv8, lo: bv8)
    ensures (Pack(hi, lo) >> 8) as bv8 == hi
    ensures (Pack(hi, lo) & 0xFF) as bv8 == lo
  {
  }

  lemma PackInjective(hi: bv8, lo: bv8, hi': bv8, lo': bv8)
    ensures Pack(hi, lo) == Pack(hi', lo') <==> hi == hi' && lo == lo'
  {
    PackRoundTrip(hi, lo);
    PackRoundTrip(hi', lo');
  }

  // ---- decoding ----

  /** The fields of a completed frame: StaA from bytes 1 and 2, StaD from 4
      and 5, packed as the code packs them, and U, V, W and T, six characters
      each (sign, two digits, dot, two digits), at 7, 14, 21 and 28. */
  function Decode(frame: seq<bv8>, signedChar: bool): Reading
    requires |frame| >= MasterLength
  {
    Reading(PackAsWritten(frame[1], frame[2], signedChar), PackAsWritten(frame[4], frame[5], signedChar),
            Atof(frame[7..13]), Atof(frame[14..20]), Atof(frame[21..27]), Atof(frame[28..34]))
  }

  /** What a decoded frame writes into the port's sample slot: the velocity and
      the temperature. The time stamp is left as it was. */
  function Sample(prev: AnemometerData, r: Reading): AnemometerData
  {
    prev.(speed := Vec3(r.u, r.v, r.w), temperature := r.temperature)
  }

  /** The port's sample slot after a call: the last completed frame wins, and
      the time stamp is never touched. */
  function LastSample(prev: AnemometerData, emitted: seq<Reading>): AnemometerData
  {
    if emitted == [] then prev else Sample(prev, emitted[|emitted| - 1])
  }

  lemma {:induction false} LastSampleAppend(prev: AnemometerData, e1: seq<Reading>, e2: seq<Reading>)
    ensures LastSample(LastSample(prev, e1), e2) == LastSample(prev, e1 + e2)
  {
    if e2 == [] {
      assert e1 + e2 == e1;
    } else {
      assert (e1 + e2)[|e1 + e2| - 1] == e2[|e2| - 1];
    }
  }

  /** A decoded frame changes the velocity and the temperature of the slot
      and nothing else. */
  lemma LastSampleKeepsTime(prev: AnemometerData, emitted: seq<Reading>)
    ensures LastSample(prev, emitted).t == prev.t
    ensures emitted != [] ==>
      var r := emitted[|emitted| - 1];
      LastSample(prev, emitted).speed == Vec3(r.u, r.v, r.w) && LastSample(prev, emitted).temperature == r.temperature
  {
  }

  // ---- the matcher ----

  /** A byte in the class of its slot. The 'X' class admits every byte but
      ',', '.', '+' and '-'; the 'S' class admits '+' and '-'. */
  predicate Fits(slot: Slot, b: bv8)
  {
    match slot
    case Start => b == STX
    case Field => b != COMMA && b != DOT && b != PLUS && b != MINUS
    case Sign => b == PLUS || b == MINUS
    case Comma => b == COMMA
    case Dot => b == DOT
    case End => b == ETX
    case Check => true
  }

  /** Byte b fits template slot p. */
  predicate SlotFits(p: nat, b: bv8)
  {
    p < MasterLength && Fits(MasterTemplate(p), b)
  }

  /** A byte in the class of its slot is stored and the cursor moves on. */
  function Accept(s: State, b: bv8): State
    requires s.pointer < |s.frame|
  {
    s.(pointer := s.pointer + 1, frame := s.frame[s.pointer := b])
  }

  /** One iteration of the decoding loop on byte `b`. */
  function Advance(s: Matcher, b: bv8): Outcome<Matcher, Reading>
  {
    var p := s.pointer;
    match MasterTemplate(p)
    case Start =>
      if b == STX then Outcome(Accept(s, b), None) else Outcome(s, None)
    case End =>
      if b == ETX then
        var f := s.frame[p := b];
        var r := Decode(f, s.signedChar);
        Outcome(s.(pointer := 0, frame := f, last := r), Some(r))
      else Outcome(s, None)
    case Check =>
      // the switch's default: no 'C' slot in this template
      Outcome(s, None)
    case _ =>
      if Fits(MasterTemplate(p), b) then Outcome(Accept(s, b), None)
      else Outcome(s.(pointer := 0), None)
  }

  /** The decoding loop over buf[lo..hi]. */
  function Run(s: Matcher, buf: seq<bv8>, lo: nat, hi: nat): Trace<Matcher, Reading>
    requires lo <= hi <= |buf|
  {
    Scan(Advance, s, buf, lo, hi)
  }

  /** The decoding loop never changes the platform's signedness of `char`. */
  lemma {:induction false} RunKeepsSignedness(s: Matcher, buf: seq<bv8>, lo: nat, hi: nat)
    requires lo <= hi <= |buf|
    ensures Run(s, buf, lo, hi).state.signedChar == s.signedChar
    decreases hi - lo
  {
    if lo < hi {
      RunKeepsSignedness(s, buf, lo, hi - 1);
    }
  }

  // ---- properties of one step ----

  /** In the start slot only STX does anything: it is stored at frame[0] and
      the cursor moves to slot 1. */
  lemma StartSlot(s: Matcher, b: bv8)
    requires s.pointer == 0
    ensures Advance(s, b).emitted == None
    ensures b != STX ==> Advance(s, b).next == s
    ensures b == STX ==> Advance(s, b).next == s.(pointer := 1, frame := s.frame[0 := STX])
  {
  }

  /** A byte that violates an 'X', 'S', ',' or '.' slot sends the cursor back
      to 0 and changes nothing else; it is consumed, not looked at again as a
      start byte. */
  lemma ViolationResets(s: Matcher, b: bv8)
    requires MasterTemplate(s.pointer) in {Field, Sign, Comma, Dot}
    requires !Fits(MasterTemplate(s.pointer), b)
    ensures Advance(s, b).next == s.(pointer := 0)
    ensures Advance(s, b).emitted == None
  {
  }

  /** Between STX and ETX a byte that fits its slot is simply accepted. */
  lemma FitStep(s: Matcher, b: bv8)
    requires 1 <= s.pointer <= 34 && Fits(MasterTemplate(s.pointer), b)
    ensures Advance(s, b).next == Accept(s, b)
    ensures Advance(s, b).emitted == None
  {
    assert MasterTemplate(s.pointer) in {Field, Sign, Comma, Dot};
  }

  /** At the ETX slot every other byte is skipped: the decoder keeps waiting
      for ETX with the frame it has. */
  lemma EndSlotWaits(s: Matcher, b: bv8)
    requires s.pointer == 35 && b != ETX
    ensures Advance(s, b).next == s
    ensures Advance(s, b).emitted == None
  {
  }

  /** ETX in its slot completes the frame: it is stored, the frame is decoded
      and emitted, and the cursor is back at 0. */
  lemma EndStep(s: Matcher)
    requires s.pointer == 35
    ensures Advance(s, ETX).next.pointer == 0
    ensures Advance(s, ETX).next.frame == s.frame[35 := ETX]
    ensures Advance(s, ETX).emitted == Some(Decode(s.frame[35 := ETX], s.signedChar))
    ensures Advance(s, ETX).next.last == Decode(s.frame[35 := ETX], s.signedChar)
    ensures Advance(s, ETX).next.signedChar == s.signedChar
  {
  }

  /** Only ETX in the ETX slot completes a frame. */
  lemma EmitsOnlyAtEnd(s: Matcher, b: bv8)
    requires s.pointer != 35 || b != ETX
    ensures Advance(s, b).emitted == None
  {
    assert MasterTemplate(s.pointer) == End ==> s.pointer == 35;
  }

  // ---- whole frames ----

  /** A frame at buf[lo..lo+36]: each byte in the class of its slot. */
  predicate WellFormedAt(buf: seq<bv8>, lo: nat)
  {
    lo + MasterLength <= |buf| && FitsRun(SlotFits, buf, lo, lo + MasterLength, 0)
  }

  /** Decode reads only the first 36 bytes of the buffer. */
  lemma DecodeReadsFrame(a: seq<bv8>, b: seq<bv8>, signedChar: bool)
    requires |a| >= MasterLength && |b| >= MasterLength
    requires forall j :: 0 <= j < MasterLength ==> a[j] == b[j]
    ensures Decode(a, signedChar) == Decode(b, signedChar)
  {
    assert a[7..13] == b[7..13];
    assert a[14..20] == b[14..20];
    assert a[21..27] == b[21..27];
    assert a[28..34] == b[28..34];
  }

  /** A buffer holding a frame's 36 bytes decodes as the frame. */
  lemma DecodeCopied(f: seq<bv8>, src: seq<bv8>, lo: nat, signedChar: bool)
    requires lo + MasterLength <= |src| && MasterLength <= |f|
    requires Copied(f, 0, src, lo, lo + MasterLength)
    ensures Decode(f, signedChar) == Decode(src[lo..lo + MasterLength], signedChar)
  {
    CopiedEach(f, 0, src, lo, lo + MasterLength);
    DecodeReadsFrame(f, src[lo..lo + MasterLength], signedChar);
  }

  /** The first k bytes of a frame, up to the byte before ETX, bring an idle
      decoder to slot k, completing nothing. */
  lemma {:induction false} PrefixRun(s: Matcher, buf: seq<bv8>, lo: nat, k: nat)
    requires s.pointer == 0 && 1 <= k <= 35 && lo + k <= |buf|
    requires FitsRun(SlotFits, buf, lo, lo + k, 0)
    ensures Run(s, buf, lo, lo + k).emitted == []
    ensures Run(s, buf, lo, lo + k).state.pointer == k
  {
    if k == 1 {
      ScanOne(Advance, s, buf, lo);
      StartSlot(s, buf[lo]);
    } else {
      PrefixRun(s, buf, lo, k - 1);
      FitStep(Run(s, buf, lo, lo + k - 1).state, buf[lo + k - 1]);
    }
  }

  /** ... and with those k bytes in its buffer. */
  lemma {:induction false} PrefixRunStores(s: Matcher, buf: seq<bv8>, lo: nat, k: nat)
    requires s.pointer == 0 && 1 <= k <= 35 && lo + k <= |buf|
    requires FitsRun(SlotFits, buf, lo, lo + k, 0)
    ensures Copied(Run(s, buf, lo, lo + k).state.frame, 0, buf, lo, lo + k)
  {
    if k == 1 {
      ScanOne(Advance, s, buf, lo);
      StartSlot(s, buf[lo]);
    } else {
      PrefixRunStores(s, buf, lo, k - 1);
      PrefixRun(s, buf, lo, k - 1);
      var mid := Run(s, buf, lo, lo + k - 1).state;
      FitStep(mid, buf[lo + k - 1]);
      CopiedUpdate(mid.frame, 0, buf, lo, lo + k - 1, k - 1, buf[lo + k - 1]);
    }
  }

  /** At the ETX slot, bytes other than ETX pass by without effect. */
  lemma {:induction false} WaitRun(s: Matcher, buf: seq<bv8>, lo: nat, hi: nat)
    requires s.pointer == 35 && lo <= hi <= |buf|
    requires forall j :: lo <= j < hi ==> buf[j] != ETX
    ensures Run(s, buf, lo, hi).state == s
    ensures Run(s, buf, lo, hi).emitted == []
    decreases hi - lo
  {
    if lo < hi {
      WaitRun(s, buf, lo, hi - 1);
      EndSlotWaits(s, buf[hi - 1]);
    }
  }

  /** ETX at buf[i] in the ETX slot completes the frame in the buffer. */
  lemma Finish(s: Matcher, buf: seq<bv8>, i: nat)
    requires s.pointer == 35 && i < |buf| && buf[i] == ETX
    ensures Run(s, buf, i, i + 1).state.pointer == 0
    ensures Run(s, buf, i, i + 1).emitted == [Decode(s.frame[35 := ETX], s.signedChar)]
  {
    ScanOne(Advance, s, buf, i);
    EndStep(s);
  }

  /** Storing ETX after 35 copied bytes completes the copy of a 36-byte frame. */
  lemma Completed(f: seq<bv8>, src: seq<bv8>, lo: nat)
    requires |f| == FrameCapacity && lo + MasterLength <= |src|
    requires Copied(f, 0, src, lo, lo + 35) && src[lo + 35] == ETX
    ensures Copied(f[35 := ETX], 0, src, lo, lo + MasterLength)
  {
    CopiedUpdate(f, 0, src, lo, lo + 35, 35, ETX);
  }

  /** A well-formed frame fed to an idle decoder is emitted, decoded from its
      own bytes, and the decoder ends idle. */
  lemma FrameDecoded(s: Matcher, buf: seq<bv8>, lo: nat)
    requires s.pointer == 0 && WellFormedAt(buf, lo)
    ensures Run(s, buf, lo, lo + 36).state.pointer == 0
    ensures Run(s, buf, lo, lo + 36).emitted == [Decode(buf[lo..lo + 36], s.signedChar)]
  {
    FitsRunSplit(SlotFits, buf, lo, lo + 35, lo + 36, 0);
    FitsRunEach(SlotFits, buf, lo + 35, lo + 36, 35);
    PrefixRun(s, buf, lo, 35);
    PrefixRunStores(s, buf, lo, 35);
    var s35 := Run(s, buf, lo, lo + 35).state;
    RunKeepsSignedness(s, buf, lo, lo + 35);
    Finish(s35, buf, lo + 35);
    Completed(s35.frame, buf, lo);
    DecodeCopied(s35.frame[35 := ETX], buf, lo, s.signedChar);
    ScanSplit(Advance, s, buf, lo, lo + 35, lo + 36);
  }

  /** As the code packs them, the status words of a well-formed frame whose
      status characters are ASCII both come out as 0: the decoder keeps
      nothing of the status address or the status data. */
  lemma FrameStatusLost(s: Matcher, buf: seq<bv8>, lo: nat)
    requires s.pointer == 0 && WellFormedAt(buf, lo)
    requires buf[lo + 2] < 0x80 && buf[lo + 5] < 0x80
    ensures var e := Run(s, buf, lo, lo + 36).emitted;
      |e| == 1 && e[0].staA == 0 && e[0].staD == 0
  {
    FrameDecoded(s, buf, lo);
    var f := buf[lo..lo + 36];
    PackAsWrittenLosesAscii(f[1], f[2], s.signedChar);
    PackAsWrittenLosesAscii(f[4], f[5], s.signedChar);
  }

  /** A buffer holding the 35 bytes before ETX, completed by ETX, decodes as
      those bytes followed by ETX. */
  lemma DecodeWithEtx(f: seq<bv8>, buf: seq<bv8>, lo: nat, signedChar: bool)
    requires |f| == FrameCapacity && lo + 35 <= |buf|
    requires Copied(f, 0, buf, lo, lo + 35)
    ensures Decode(f[35 := ETX], signedChar) == Decode(buf[lo..lo + 35] + [ETX], signedChar)
  {
    var g := buf[lo..lo + 35] + [ETX];
    CopiedEach(f, 0, buf, lo, lo + 35);
    forall j | 0 <= j < MasterLength ensures f[35 := ETX][j] == g[j] {
      if j < 35 {
        assert f[0 + (lo + j - lo)] == buf[lo + j];
      }
    }
    DecodeReadsFrame(f[35 := ETX], g, signedChar);
  }

  /** A decoder waiting at the ETX slot after buf[lo..a] is still waiting,
      in the same state, after further bytes that hold no ETX. */
  lemma WaitAfter(s: Matcher, buf: seq<bv8>, lo: nat, a: nat, e: nat)
    requires lo <= a <= e <= |buf| && Run(s, buf, lo, a).state.pointer == 35
    requires forall j :: a <= j < e ==> buf[j] != ETX
    ensures Run(s, buf, lo, e).state == Run(s, buf, lo, a).state
    ensures Run(s, buf, lo, e).emitted == Run(s, buf, lo, a).emitted
  {
    var w := Run(s, buf, lo, a);
    WaitRun(w.state, buf, a, e);
    ScanSplit(Advance, s, buf, lo, a, e);
    assert w.emitted + [] == w.emitted;
  }

  /** The 35 bytes before ETX, then bytes other than ETX, leave an idle
      decoder waiting at the ETX slot with those 35 bytes in its buffer. */
  lemma LateEtxWaits(s: Matcher, buf: seq<bv8>, lo: nat, e: nat)
    requires s.pointer == 0 && lo + 35 <= e <= |buf|
    requires FitsRun(SlotFits, buf, lo, lo + 35, 0)
    requires forall j :: lo + 35 <= j < e ==> buf[j] != ETX
    ensures Run(s, buf, lo, e).state.pointer == 35
    ensures Copied(Run(s, buf, lo, e).state.frame, 0, buf, lo, lo + 35)
    ensures Run(s, buf, lo, e).emitted == []
  {
    PrefixRun(s, buf, lo, 35);
    PrefixRunStores(s, buf, lo, 35);
    WaitAfter(s, buf, lo, lo + 35, e);
  }

  /** Unlike the WindSonic decoder, a frame whose ETX is late is still
      accepted: after the 35 bytes before ETX, any run of bytes that holds no
      ETX is skipped, and the ETX that follows completes the frame. */
  lemma LateEtxDecoded(s: Matcher, buf: seq<bv8>, lo: nat, e: nat)
    requires s.pointer == 0 && lo + 35 <= e < |buf| && buf[e] == ETX
    requires FitsRun(SlotFits, buf, lo, lo + 35, 0)
    requires forall j :: lo + 35 <= j < e ==> buf[j] != ETX
    ensures Run(s, buf, lo, e + 1).state.pointer == 0
    ensures Run(s, buf, lo, e + 1).emitted == [Decode(buf[lo..lo + 35] + [ETX], s.signedChar)]
  {
    LateEtxWaits(s, buf, lo, e);
    RunKeepsSignedness(s, buf, lo, e);
    var w := Run(s, buf, lo, e).state;
    Finish(w, buf, e);
    DecodeWithEtx(w.frame, buf, lo, s.signedChar);
    ScanSplit(Advance, s, buf, lo, e, e + 1);
  }

  /** A frame broken at its byte k (the first k bytes fit, byte k does not)
      leaves the decoder idle, having completed nothing. */
  lemma BrokenFrame(s: Matcher, buf: seq<bv8>, lo: nat, k: nat)
    requires s.pointer == 0 && 1 <= k <= 34 && lo + k < |buf|
    requires FitsRun(SlotFits, buf, lo, lo + k, 0)
    requires !Fits(MasterTemplate(k), buf[lo + k])
    ensures Run(s, buf, lo, lo + k + 1).state.pointer == 0
    ensures Run(s, buf, lo, lo + k + 1).emitted == []
  {
    PrefixRun(s, buf, lo, k);
    var sk := Run(s, buf, lo, lo + k).state;
    assert MasterTemplate(k) in {Field, Sign, Comma, Dot};
    ViolationResets(sk, buf[lo + k]);
    ScanOne(Advance, sk, buf, lo + k);
    ScanSplit(Advance, s, buf, lo, lo + k, lo + k + 1);
  }

  // ---- reads of a stream ----

  /** Handing a decoder two reads of its port one after the other has the
      effect of handing it both at once. */
  lemma TwoReads(s: Matcher, a: seq<bv8>, b: seq<bv8>, prev: AnemometerData)
    ensures var ta := Run(s, a, 0, |a|);
      var tb := Run(ta.state, b, 0, |b|);
      var t := Run(s, a + b, 0, |a + b|);
      && t.state == tb.state
      && t.emitted == ta.emitted + tb.emitted
      && LastSample(LastSample(prev, ta.emitted), tb.emitted) == LastSample(prev, t.emitted)
  {
    ScanChunks(Advance, s, a, b);
    var ta := Run(s, a, 0, |a|);
    LastSampleAppend(prev, ta.emitted, Run(ta.state, b, 0, |b|).emitted);
  }

  // ---- the decoder as the program holds it ----

  /** One element of the static gill_frame_windmaster table: the cursor, the
      100-byte frame buffer and the parsed fields. */
  class Decoder {
    const frame: array<bv8>
    const signedChar: bool
    var pointer: nat
    var last: Reading

    ghost predicate Valid()
      reads this
    {
      frame.Length == FrameCapacity && pointer < MasterLength
    }

    /** The decoder as a value. */
    ghost function Abs(): Matcher
      reads this, frame
      requires Valid()
    {
      State(pointer, frame[..], last, signedChar)
    }

    /** A zero-initialised table element on a platform whose `char` is
        signed or not as `signedChar` says. */
    constructor (signedChar: bool)
      ensures Valid() && fresh(frame)
      ensures Abs() == Initial(signedChar)
    {
      frame := new bv8[FrameCapacity](_ => 0);
      this.signedChar := signedChar;
      pointer := 0;
      last := NoReading;
    }

    /** One pass of the decoding loop's switch on the template slot under the
        cursor, for byte `b`; returns the reading when `b` completes a frame. */
    method Step(b: bv8) returns (r: Option<Reading>)
      requires Valid()
      modifies this, frame
      ensures Valid()
      ensures Abs() == Advance(old(Abs()), b).next
      ensures r == Advance(old(Abs()), b).emitted
    {
      var p := pointer;
      r := None;
      match MasterTemplate(p)
      case Start =>
        if b == STX {
          frame[p] := b;
          pointer := p + 1;
        }
      case Field =>
        if b != COMMA && b != DOT && b != PLUS && b != MINUS {
          frame[p] := b;
          pointer := p + 1;
        } else {
          pointer := 0;
        }
      case Sign =>
        if b == PLUS || b == MINUS {
          frame[p] := b;
          pointer := p + 1;
        } else {
          pointer := 0;
        }
      case Comma =>
        if b == COMMA {
          frame[p] := b;
          pointer := p + 1;
        } else {
          pointer := 0;
        }
      case Dot =>
        if b == DOT {
          frame[p] := b;
          pointer := p + 1;
        } else {
          pointer := 0;
        }
      case End =>
        if b == ETX {
          frame[p] := b;
          last := Decode(frame[..], signedChar);
          r := Some(last);
          pointer := 0;
        }
      case Check =>
    }
  }

  /** The static decoder table and the shared sample table: one decoder per
      port, each with its own buffer. */
  ghost predicate Tables(bank: array<Decoder>, wind: array<AnemometerData>)
    reads bank, set j | 0 <= j < bank.Length :: bank[j]
  {
    && bank.Length == MaxAnemometers && wind.Length == MaxAnemometers
    && (forall j :: 0 <= j < bank.Length ==> bank[j].Valid())
    && (forall j, k :: 0 <= j < k < bank.Length ==> bank[j] != bank[k] && bank[j].frame != bank[k].frame)
  }

  /** gillProcessFrame_WindMaster: feed buf[0..len] to the decoder of port
      `index`; every frame completed on the way overwrites the velocity and
      temperature of that port's sample slot. An index outside the table or
      an empty read changes nothing. */
  method ProcessFrame(bank: array<Decoder>, wind: array<AnemometerData>, buf: seq<bv8>, len: int, index: int)
    requires Tables(bank, wind) && len <= |buf|
    modifies if 0 <= index < bank.Length then {bank[index], bank[index].frame} else {}, wind
    ensures Tables(bank, wind)
    ensures !(0 <= index < MaxAnemometers && len > 0) ==> wind[..] == old(wind[..])
    ensures 0 <= index < MaxAnemometers && len <= 0 ==> bank[index].Abs() == old(bank[index].Abs())
    ensures 0 <= index < MaxAnemometers && len > 0 ==>
      var t := Run(old(bank[index].Abs()), buf, 0, len);
      && bank[index].Abs() == t.state
      && wind[..] == old(wind[..])[index := LastSample(old(wind[index]), t.emitted)]
    ensures forall j :: 0 <= j < MaxAnemometers && j != index ==> bank[j].Abs() == old(bank[j].Abs())
  {
    if index < 0 || index >= MaxAnemometers {
      return;
    }
    if len <= 0 {
      return;
    }
    var d := bank[index];
    ghost var s0 := d.Abs();
    ghost var w0 := wind[..];
    for i := 0 to len
      invariant d.Valid()
      invariant d.Abs() == Run(s0, buf, 0, i).state
      invariant wind[..] == w0[index := LastSample(w0[index], Run(s0, buf, 0, i).emitted)]
    {
      var r := d.Step(buf[i]);
      if r.Some? {
        wind[index] := Sample(wind[index], r.value);
      }
    }
  }
}
