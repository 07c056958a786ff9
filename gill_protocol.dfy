/** What the two Gill decoders of serial_gill.cxx share: the byte values they
    match, the slot classes their protocol templates are written in, the XOR
    checksum, the C library's `atoi` on a fixed-width text field, and the
    shape of the decoding loop: one step per received byte. */
module GillProtocol {
  import opened AnemometerTypes

  const STX: bv8 := 0x02
  const ETX: bv8 := 0x03
  const COMMA: bv8 := 0x2C
  const DOT: bv8 := 0x2E
  const PLUS: bv8 := 0x2B
  const MINUS: bv8 := 0x2D

  /** Size of the `frame` buffer of each decoder. */
  const FrameCapacity: int := 100

  /** The class of one template position. The source writes these as sentinel
      characters in a byte array: Start is 0x02, Field is 'X', Sign is 'S',
      Comma is ',', Dot is '.', End is 0x03 and Check is 'C'. */
  datatype Slot = Start | Field | Sign | Comma | Dot | End | Check

  /** Number of slots in the WindSonic template. */
  const SonicLength: nat := 21

  /** The WindSonic "Polar, Continuous" template, slot by slot:
        STX X , X X X , X X X . X X , X , X X , ETX C
      that is: address, direction (3), speed (6 with the dot), units,
      status (2), then ETX and the checksum byte. */
  function SonicTemplate(p: nat): Slot
    requires p < SonicLength
  {
    if p == 0 then Start
    else if p == 19 then End
    else if p == 20 then Check
    else if p == 10 then Dot
    else if p == 2 || p == 6 || p == 13 || p == 15 || p == 18 then Comma
    else Field
  }

  /** Number of slots in the WindMaster template. */
  const MasterLength: nat := 36

  /** The WindMaster template, slot by slot:
        STX X X , X X , then four times S X X . X X , and finally ETX
      that is: status address (2), status data (2), then U, V, W and the
      temperature, each a sign and five characters with the dot. */
  function MasterTemplate(p: nat): Slot
    requires p < MasterLength
  {
    if p == 0 then Start
    else if p == 35 then End
    else if p == 7 || p == 14 || p == 21 || p == 28 then Sign
    else if p == 10 || p == 17 || p == 24 || p == 31 then Dot
    else if p == 3 || p == 6 || p == 13 || p == 20 || p == 27 || p == 34 then Comma
    else Field
  }

  // ---- atoi ----

  /** isspace in the C locale: ' ', '\t', '\n', '\v', '\f', '\r'. */
  predicate IsSpace(b: bv8) { b == 0x20 || 0x09 <= b <= 0x0D }

  predicate IsDigit(b: bv8) { 0x30 <= b <= 0x39 }

  function DigitValue(b: bv8): (r: nat)
    requires IsDigit(b)
    ensures r <= 9
  {
    (b - 0x30) as nat
  }

  function Pow10(n: nat): (r: nat)
    ensures r >= 1
  {
    if n == 0 then 1 else 10 * Pow10(n - 1)
  }

  /** The digits at the front of `s` read onto `acc`, most significant first,
      the way atoi accumulates them; the first byte that is not a digit (the
      NUL after a copied field included) ends the number. */
  function Digits(s: seq<bv8>, acc: nat): nat
    decreases |s|
  {
    if s != [] && IsDigit(s[0]) then Digits(s[1..], acc * 10 + DigitValue(s[0])) else acc
  }

  /** C's atoi on a field copied into a zero-filled buffer: leading white
      space is skipped, one sign is read, then as many digits as follow. */
  function Atoi(s: seq<bv8>): int
    decreases |s|
  {
    if s == [] then 0
    else if IsSpace(s[0]) then Atoi(s[1..])
    else if s[0] == MINUS then -(Digits(s[1..], 0) as int)
    else if s[0] == PLUS then Digits(s[1..], 0)
    else Digits(s, 0)
  }

  /** The positional value of a string of decimal digits: the first digit
      weighs 10^(n-1), the last weighs 1. */
  function DecimalValue(ds: seq<bv8>): nat
    requires forall i :: 0 <= i < |ds| ==> IsDigit(ds[i])
  {
    if ds == [] then 0 else DigitValue(ds[0]) * Pow10(|ds| - 1) + DecimalValue(ds[1..])
  }

  lemma ShiftDigit(acc: nat, d: nat, p: nat)
    ensures (acc * 10 + d) * p == acc * (10 * p) + d * p
  {
  }

  lemma MulSucc(a: nat, q: nat)
    ensures (a + 1) * q == a * q + q && a * q >= 0
  {
  }

  lemma MulLe(a: nat, b: nat, q: nat)
    requires a <= b
    ensures a * q <= b * q
  {
  }

  /** Reading n more bytes onto `acc` at most appends n digits to it. */
  lemma {:induction false} DigitsBound(s: seq<bv8>, acc: nat)
    ensures acc <= Digits(s, acc) < (acc + 1) * Pow10(|s|)
    decreases |s|
  {
    var q := Pow10(|s|);
    if s != [] && IsDigit(s[0]) {
      var d := DigitValue(s[0]);
      var acc' := acc * 10 + d;
      DigitsBound(s[1..], acc');
      var p := Pow10(|s| - 1);
      assert q == 10 * p;
      MulLe(1, 10, acc);
      ShiftDigit(acc, d + 1, p);
      MulLe(d + 1, 10, p);
      MulSucc(acc, 10 * p);
    } else {
      MulSucc(acc, q);
    }
  }

  /** A field of n bytes reads as a number of at most n digits, so atoi on the
      short fields of these frames cannot overflow. */
  lemma {:induction false} AtoiBound(s: seq<bv8>)
    ensures -(Pow10(|s|) as int) < Atoi(s) < Pow10(|s|)
    decreases |s|
  {
    if s != [] {
      if IsSpace(s[0]) {
        AtoiBound(s[1..]);
        assert Pow10(|s|) == 10 * Pow10(|s| - 1);
      } else if s[0] == MINUS || s[0] == PLUS {
        DigitsBound(s[1..], 0);
        assert Pow10(|s|) == 10 * Pow10(|s| - 1);
      } else {
        DigitsBound(s, 0);
      }
    }
  }

  /** Accumulating digits the atoi way gives their positional value. */
  lemma {:induction false} DigitsOfDigits(ds: seq<bv8>, acc: nat)
    requires forall i :: 0 <= i < |ds| ==> IsDigit(ds[i])
    ensures Digits(ds, acc) == acc * Pow10(|ds|) + DecimalValue(ds)
    decreases |ds|
  {
    if ds != [] {
      var d := DigitValue(ds[0]);
      var p := Pow10(|ds| - 1);
      DigitsOfDigits(ds[1..], acc * 10 + d);
      assert Pow10(|ds|) == 10 * p;
      ShiftDigit(acc, d, p);
    }
  }

  /** atoi reads a field of digits as its positional value, and a minus sign
      in front of them negates it. */
  lemma AtoiOfDigits(ds: seq<bv8>)
    requires forall i :: 0 <= i < |ds| ==> IsDigit(ds[i])
    ensures Atoi(ds) == DecimalValue(ds)
    ensures Atoi([MINUS] + ds) == -(DecimalValue(ds) as int)
  {
    DigitsOfDigits(ds, 0);
    assert ([MINUS] + ds)[1..] == ds;
  }

  /** A field of NUL bytes (what the WindSonic decoder stores when the
      direction is absent) is read as 0. */
  lemma AtoiOfNuls(s: seq<bv8>)
    requires forall i :: 0 <= i < |s| ==> s[i] == 0
    ensures Atoi(s) == 0
  {
  }

  // ---- the decoding loop ----

  /** What one byte does to a decoder: its next state and, when the byte
      completes a frame, the reading decoded from it. */
  datatype Outcome<+S, +R> = Outcome(next: S, emitted: Option<R>)

  /** The reading a step completes, as a sequence of zero or one element. */
  function Produced<S, R>(o: Outcome<S, R>): (r: seq<R>)
    ensures |r| <= 1 && (r != [] <==> o.emitted.Some?)
  {
    if o.emitted.Some? then [o.emitted.value] else []
  }

  /** A decoder state after a run of bytes, and the readings completed on the
      way, in order. */
  datatype Trace<+S, +R> = Trace(state: S, emitted: seq<R>)

  /** The `for` loop of a decoder over buf[lo..hi]: every byte is handed to
      `step` in order. Written as a recursion from the end, so that the loop
      invariant after i bytes is Scan(step, s, buf, 0, i). */
  function Scan<S, R>(step: (S, bv8) -> Outcome<S, R>, s: S, buf: seq<bv8>, lo: nat, hi: nat): Trace<S, R>
    requires lo <= hi <= |buf|
    decreases hi - lo
  {
    if hi == lo then Trace(s, [])
    else
      var t := Scan(step, s, buf, lo, hi - 1);
      var o := step(t.state, buf[hi - 1]);
      Trace(o.next, t.emitted + Produced(o))
  }

  /** A scan of one byte is one step. */
  lemma ScanOne<S, R>(step: (S, bv8) -> Outcome<S, R>, s: S, buf: seq<bv8>, i: nat)
    requires i < |buf|
    ensures Scan(step, s, buf, i, i + 1).state == step(s, buf[i]).next
    ensures Scan(step, s, buf, i, i + 1).emitted == Produced(step(s, buf[i]))
  {
    assert Scan(step, s, buf, i, i) == Trace(s, []);
    assert [] + Produced(step(s, buf[i])) == Produced(step(s, buf[i]));
  }

  /** Scanning buf[lo..hi] is scanning buf[lo..m] and then buf[m..hi]: a step
      sees only the decoder state and its byte. */
  lemma {:induction false} ScanSplit<S, R>(step: (S, bv8) -> Outcome<S, R>, s: S, buf: seq<bv8>,
                                               lo: nat, m: nat, hi: nat)
    requires lo <= m <= hi <= |buf|
    ensures var a := Scan(step, s, buf, lo, m);
      var b := Scan(step, a.state, buf, m, hi);
      && Scan(step, s, buf, lo, hi).state == b.state
      && Scan(step, s, buf, lo, hi).emitted == a.emitted + b.emitted
    decreases hi - m
  {
    var a := Scan(step, s, buf, lo, m);
    if m == hi {
      assert a.emitted + [] == a.emitted;
    } else {
      ScanSplit(step, s, buf, lo, m, hi - 1);
      var b := Scan(step, a.state, buf, m, hi - 1);
      var o := step(b.state, buf[hi - 1]);
      assert a.emitted + b.emitted + Produced(o) == a.emitted + (b.emitted + Produced(o));
    }
  }

  /** A decoder sees bytes, not positions: the same bytes at other positions
      of another buffer give the same run. */
  lemma {:induction false} ScanShift<S, R>(step: (S, bv8) -> Outcome<S, R>, s: S, buf: seq<bv8>,
                                               lo: nat, hi: nat, other: seq<bv8>, start: nat)
    requires lo <= hi <= |buf| && start + (hi - lo) <= |other|
    requires forall j :: lo <= j < hi ==> buf[j] == other[start + (j - lo)]
    ensures Scan(step, s, buf, lo, hi).state == Scan(step, s, other, start, start + (hi - lo)).state
    ensures Scan(step, s, buf, lo, hi).emitted == Scan(step, s, other, start, start + (hi - lo)).emitted
    decreases hi - lo
  {
    if lo < hi {
      ScanShift(step, s, buf, lo, hi - 1, other, start);
      assert buf[hi - 1] == other[start + (hi - 1 - lo)];
    }
  }

  /** The first read of a stream, seen inside the whole stream. */
  lemma ScanOfPrefix<S, R>(step: (S, bv8) -> Outcome<S, R>, s: S, a: seq<bv8>, b: seq<bv8>)
    ensures Scan(step, s, a + b, 0, |a|).state == Scan(step, s, a, 0, |a|).state
    ensures Scan(step, s, a + b, 0, |a|).emitted == Scan(step, s, a, 0, |a|).emitted
  {
    ScanShift(step, s, a + b, 0, |a|, a, 0);
  }

  /** The second read of a stream, seen inside the whole stream. */
  lemma ScanOfSuffix<S, R>(step: (S, bv8) -> Outcome<S, R>, s: S, a: seq<bv8>, b: seq<bv8>)
    ensures Scan(step, s, a + b, |a|, |a + b|).state == Scan(step, s, b, 0, |b|).state
    ensures Scan(step, s, a + b, |a|, |a + b|).emitted == Scan(step, s, b, 0, |b|).emitted
  {
    ScanShift(step, s, a + b, |a|, |a + b|, b, 0);
  }

  /** Feeding a stream to a decoder in two reads is feeding it in one: a frame
      split across two calls is decoded as if it had arrived whole, because the
      decoder's state is kept between calls. */
  lemma ScanChunks<S, R>(step: (S, bv8) -> Outcome<S, R>, s: S, a: seq<bv8>, b: seq<bv8>)
    ensures var ta := Scan(step, s, a, 0, |a|);
      var tb := Scan(step, ta.state, b, 0, |b|);
      && Scan(step, s, a + b, 0, |a + b|).state == tb.state
      && Scan(step, s, a + b, 0, |a + b|).emitted == ta.emitted + tb.emitted
  {
    ScanOfPrefix(step, s, a, b);
    ScanOfSuffix(step, Scan(step, s, a, 0, |a|).state, a, b);
    ScanSplit(step, s, a + b, 0, |a|, |a + b|);
  }

  // ---- frames in the stream and in the buffer ----

  /** The bytes buf[lo..hi] each fit their template slot, byte j going to
      slot `slot + (j - lo)`. Written as a recursion from the end, like Scan. */
  predicate FitsRun(fits: (nat, bv8) -> bool, buf: seq<bv8>, lo: nat, hi: nat, slot: nat)
    requires lo <= hi <= |buf|
    decreases hi - lo
  {
    hi == lo || (FitsRun(fits, buf, lo, hi - 1, slot) && fits(slot + (hi - 1 - lo), buf[hi - 1]))
  }

  /** FitsRun says of every byte in the range, one by one, that it fits. */
  lemma {:induction false} FitsRunEach(fits: (nat, bv8) -> bool, buf: seq<bv8>, lo: nat, hi: nat, slot: nat)
    requires lo <= hi <= |buf|
    ensures FitsRun(fits, buf, lo, hi, slot) <==> forall j :: lo <= j < hi ==> fits(slot + (j - lo), buf[j])
    decreases hi - lo
  {
    if lo < hi {
      FitsRunEach(fits, buf, lo, hi - 1, slot);
    }
  }

  lemma {:induction false} FitsRunSplit(fits: (nat, bv8) -> bool, buf: seq<bv8>, lo: nat, m: nat, hi: nat, slot: nat)
    requires lo <= m <= hi <= |buf| && FitsRun(fits, buf, lo, hi, slot)
    ensures FitsRun(fits, buf, lo, m, slot) && FitsRun(fits, buf, m, hi, slot + (m - lo))
    decreases hi - m
  {
    if m < hi {
      FitsRunSplit(fits, buf, lo, m, hi - 1, slot);
    }
  }

  /** The frame buffer f holds src[lo..hi] from position `at` on. Written as a
      recursion from the end, like Scan. */
  predicate Copied(f: seq<bv8>, at: nat, src: seq<bv8>, lo: nat, hi: nat)
    requires lo <= hi <= |src| && at + (hi - lo) <= |f|
    decreases hi - lo
  {
    hi == lo || (Copied(f, at, src, lo, hi - 1) && f[at + (hi - 1 - lo)] == src[hi - 1])
  }

  /** Copied says of every byte in the range, one by one, that it was copied. */
  lemma {:induction false} CopiedEach(f: seq<bv8>, at: nat, src: seq<bv8>, lo: nat, hi: nat)
    requires lo <= hi <= |src| && at + (hi - lo) <= |f|
    ensures Copied(f, at, src, lo, hi) <==> forall j :: lo <= j < hi ==> f[at + (j - lo)] == src[j]
    decreases hi - lo
  {
    if lo < hi {
      CopiedEach(f, at, src, lo, hi - 1);
    }
  }

  /** A write outside the copied range does not disturb it. */
  lemma {:induction false} CopiedUpdate(f: seq<bv8>, at: nat, src: seq<bv8>, lo: nat, hi: nat, q: nat, v: bv8)
    requires lo <= hi <= |src| && at + (hi - lo) <= |f| && q < |f|
    requires q < at || at + (hi - lo) <= q
    requires Copied(f, at, src, lo, hi)
    ensures Copied(f[q := v], at, src, lo, hi)
    decreases hi - lo
  {
    if lo < hi {
      CopiedUpdate(f, at, src, lo, hi - 1, q, v);
    }
  }

  /** Two adjacent copied ranges make one. */
  lemma {:induction false} CopiedJoin(f: seq<bv8>, at: nat, src: seq<bv8>, lo: nat, m: nat, hi: nat)
    requires lo <= m <= hi <= |src| && at + (hi - lo) <= |f|
    requires Copied(f, at, src, lo, m) && Copied(f, at + (m - lo), src, m, hi)
    ensures Copied(f, at, src, lo, hi)
    decreases hi - m
  {
    if m < hi {
      CopiedJoin(f, at, src, lo, m, hi - 1);
    }
  }
}
