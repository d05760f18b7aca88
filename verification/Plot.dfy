/** The sampler plot's bin compression, in exact arithmetic. */
module Plot {
  import opened Bytes
  import opened Wrappers

  const LOW := 0
  const HIGH := 255

  /** A plotted value at a bit position. */
  datatype Point = Point(time: int, value: int)

  predicate BitAt(buffer: seq<byte>, i: int) {
    0 <= i / 8 < |buffer| && Bit(buffer[i / 8], i % 8)
  }

  /** The plot counts bits as the sampler stores them, low bit first, and sees lows outside the buffer. */
  lemma BitAtIs(buffer: seq<byte>, i: int)
    ensures BitAt(buffer, i) <==> 0 <= i < 8 * |buffer| && Unpack(buffer)[i]
  {
  }

  predicate HasLow(buffer: seq<byte>, lo: int, hi: int) {
    exists i :: lo <= i < hi && !BitAt(buffer, i)
  }

  predicate HasHigh(buffer: seq<byte>, lo: int, hi: int) {
    exists i :: lo <= i < hi && BitAt(buffer, i)
  }

  // ----- Bins -----

  /** The source's Float(span) / Float(numberBins), before rounding. */
  function BinWidth(span: nat, n: nat): real
    requires n > 0
  {
    span as real / n as real
  }

  function BinStart(start: int, span: nat, n: nat, bin: nat): int
    requires n > 0
  {
    (start as real + bin as real * BinWidth(span, n)).Floor
  }

  function BinEnd(start: int, span: nat, n: nat, bin: nat): int
    requires n > 0
  {
    (BinStart(start, span, n, bin) as real + BinWidth(span, n)).Floor
  }

  lemma FloorQuotient(a: nat, n: nat)
    requires n > 0
    ensures (a as real / n as real).Floor == a / n
  {
    var q, r := a / n, a % n;
    assert a as real == q as real * n as real + r as real;
    assert a as real / n as real == q as real + r as real / n as real;
    assert 0.0 <= r as real / n as real < 1.0;
  }

  lemma FloorShift(x: real, k: int)
    ensures (k as real + x).Floor == k + x.Floor
  {
  }

  /** How far into the range a bin starts. */
  function Cut(span: nat, n: nat, bin: nat): nat
    requires n > 0
  {
    bin * span / n
  }

  lemma BinInIntegers(start: int, span: nat, n: nat, bin: nat)
    requires n > 0
    ensures BinStart(start, span, n, bin) == start + Cut(span, n, bin)
    ensures BinEnd(start, span, n, bin) == start + Cut(span, n, bin) + span / n
  {
    var s := (bin * span) as real / n as real;
    assert bin as real * BinWidth(span, n) == s;
    FloorQuotient(bin * span, n);
    FloorShift(s, start);
    FloorQuotient(span, n);
    FloorShift(BinWidth(span, n), BinStart(start, span, n, bin));
  }

  lemma SmallMultiple(d: int, n: nat)
    requires -(n as int) < d * n < n
    ensures d == 0
  {
  }

  lemma QuotientIs(x: nat, q: nat, r: nat, n: nat)
    requires n > 0 && x == q * n + r && r < n
    ensures x / n == q
  {
    var d := x / n - q;
    assert d * n == r - x % n;
    SmallMultiple(d, n);
  }

  lemma SumOfMultiples(a: nat, p: nat, r: nat, b: nat, q: nat, t: nat, n: nat)
    requires a == p * n + r && b == q * n + t
    ensures a + b == (p + q) * n + (r + t)
  {
  }

  lemma QuotientOfSum(x: nat, q: nat, r: nat, n: nat)
    requires n > 0 && x == q * n + r && r < 2 * n
    ensures q <= x / n <= q + 1
  {
    if r < n {
      QuotientIs(x, q, r, n);
    } else {
      SumOfMultiples(q * n, q, 0, r, 1, r - n, n);
      QuotientIs(x, q + 1, r - n, n);
    }
  }

  /** floor(a + b) exceeds floor(a) + floor(b) by at most one. */
  lemma FloorSum(a: nat, b: nat, n: nat)
    requires n > 0
    ensures a / n + b / n <= (a + b) / n <= a / n + b / n + 1
  {
    SumOfMultiples(a, a / n, a % n, b, b / n, b % n, n);
    QuotientOfSum(a + b, a / n + b / n, a % n + b % n, n);
  }

  lemma CutStep(span: nat, n: nat, bin: nat)
    requires n > 0
    ensures Cut(span, n, bin) + span / n <= Cut(span, n, bin + 1) <= Cut(span, n, bin) + span / n + 1
  {
    assert (bin + 1) * span == bin * span + span;
    FloorSum(bin * span, span, n);
  }

  lemma MultipleQuotient(span: nat, n: nat)
    requires n > 0
    ensures n * span / n == span
  {
    QuotientIs(n * span, span, 0, n);
  }

  lemma CutEnds(span: nat, n: nat)
    requires n > 0
    ensures Cut(span, n, 0) == 0 && Cut(span, n, n) == span
  {
    MultipleQuotient(span, n);
  }

  lemma WideBins(span: nat, n: nat)
    requires span > 2 * n > 0
    ensures span / n >= 2
  {
  }

  /** Bins are wider than one bit, start to end in order, and leave out at most the bit between neighbours. */
  lemma BinsInOrder(start: int, span: nat, n: nat, bin: nat)
    requires n > 0 && span > 2 * n && bin < n
    ensures BinStart(start, span, n, bin) + 2 <= BinEnd(start, span, n, bin)
    ensures BinEnd(start, span, n, bin) <= BinStart(start, span, n, bin + 1)
      <= BinEnd(start, span, n, bin) + 1
    ensures BinStart(start, span, n, 0) == start && BinStart(start, span, n, n) == start + span
  {
    hide Cut, BinStart, BinEnd;
    BinInIntegers(start, span, n, bin);
    BinInIntegers(start, span, n, bin + 1);
    BinInIntegers(start, span, n, 0);
    BinInIntegers(start, span, n, n);
    CutStep(span, n, bin);
    CutEnds(span, n);
    WideBins(span, n);
  }

  /** The bit positions the first k bins leave out. */
  function Skipped(start: int, span: nat, n: nat, k: nat): int
    requires n > 0
  {
    if k == 0 then 0
    else Skipped(start, span, n, k - 1) + BinStart(start, span, n, k) - BinEnd(start, span, n, k - 1)
  }

  lemma {:induction false} SkippedSoFar(start: int, span: nat, n: nat, k: nat)
    requires n > 0
    ensures Skipped(start, span, n, k) == Cut(span, n, k) - k * (span / n)
  {
    hide Cut, BinStart, BinEnd;
    if k > 0 {
      SkippedSoFar(start, span, n, k - 1);
      BinInIntegers(start, span, n, k);
      BinInIntegers(start, span, n, k - 1);
      Distribute(k, span / n);
    } else {
      CutEnds(span, n);
    }
  }

  lemma Distribute(k: nat, w: nat)
    requires k > 0
    ensures k * w == (k - 1) * w + w
  {
  }

  lemma Remainder(span: nat, n: nat)
    requires n > 0
    ensures span - n * (span / n) == span % n
  {
  }

  /** All the bins together leave out exactly the remainder of the division. */
  lemma SkippedExactly(start: int, span: nat, n: nat)
    requires n > 0
    ensures Skipped(start, span, n, n) == span % n
  {
    hide *;
    SkippedSoFar(start, span, n, n);
    CutEnds(span, n);
    Remainder(span, n);
  }

  lemma {:induction false} NoGapSkipsNothing(start: int, span: nat, n: nat, k: nat)
    requires span > 2 * n > 0 && k <= n
    ensures Skipped(start, span, n, k) >= 0
    ensures Skipped(start, span, n, k) == 0 <==>
      forall b :: 0 <= b < k ==> BinEnd(start, span, n, b) == BinStart(start, span, n, b + 1)
  {
    hide BinStart, BinEnd;
    if k > 0 {
      NoGapSkipsNothing(start, span, n, k - 1);
      BinsInOrder(start, span, n, k - 1);
    }
  }

  /** Every bit of the range is in a bin exactly when the number of bins divides the range. */
  lemma TilesIff(start: int, span: nat, n: nat)
    requires span > 2 * n > 0
    ensures span % n == 0 <==>
      forall b :: 0 <= b < n ==> BinEnd(start, span, n, b) == BinStart(start, span, n, b + 1)
  {
    hide *;
    SkippedExactly(start, span, n);
    NoGapSkipsNothing(start, span, n, n);
  }

  // ----- The scan -----

  /** What the byte-wise shortcut relies on: 0 and 255 are the bytes without a high and without a low bit. */
  lemma ByteKinds(b: byte)
    ensures b == 0 <==> forall j: nat :: j < 8 ==> !Bit(b, j)
    ensures b == 255 <==> forall j: nat :: j < 8 ==> Bit(b, j)
  {
    if forall j: nat :: j < 8 ==> !Bit(b, j) {
      assert !Bit(b, 0) && !Bit(b, 1) && !Bit(b, 2) && !Bit(b, 3);
      assert !Bit(b, 4) && !Bit(b, 5) && !Bit(b, 6) && !Bit(b, 7);
    }
    if forall j: nat :: j < 8 ==> Bit(b, j) {
      assert Bit(b, 0) && Bit(b, 1) && Bit(b, 2) && Bit(b, 3);
      assert Bit(b, 4) && Bit(b, 5) && Bit(b, 6) && Bit(b, 7);
    }
  }

  /** One aligned byte, looked at as the shortcut does. */
  lemma ByteScan(buffer: seq<byte>, i: int)
    requires i % 8 == 0 && 0 <= i / 8 < |buffer|
    ensures HasLow(buffer, i, i + 8) <==> buffer[i / 8] != 255
    ensures HasHigh(buffer, i, i + 8) <==> buffer[i / 8] != 0
  {
    ByteBits(buffer, i);
    ByteKinds(buffer[i / 8]);
    hide Bit, BitAt;
    ByteLow(buffer, i, buffer[i / 8]);
    ByteHigh(buffer, i, buffer[i / 8]);
  }

  predicate HoldsByte(buffer: seq<byte>, i: int, b: byte) {
    forall k :: i <= k < i + 8 ==> BitAt(buffer, k) == Bit(b, k - i)
  }

  lemma ByteBits(buffer: seq<byte>, i: int)
    requires i % 8 == 0 && 0 <= i / 8 < |buffer|
    ensures HoldsByte(buffer, i, buffer[i / 8])
  {
    hide Bit;
    forall k | i <= k < i + 8
      ensures BitAt(buffer, k) == Bit(buffer[i / 8], k - i)
    {
      assert k / 8 == i / 8 && k % 8 == k - i;
    }
  }

  lemma ByteLow(buffer: seq<byte>, i: int, b: byte)
    requires HoldsByte(buffer, i, b)
    ensures HasLow(buffer, i, i + 8) <==> exists j: nat :: j < 8 && !Bit(b, j)
  {
    hide Bit, BitAt;
    if j: nat :| j < 8 && !Bit(b, j) {
      assert BitAt(buffer, i + j) == Bit(b, i + j - i);
    }
  }

  lemma ByteHigh(buffer: seq<byte>, i: int, b: byte)
    requires HoldsByte(buffer, i, b)
    ensures HasHigh(buffer, i, i + 8) <==> exists j: nat :: j < 8 && Bit(b, j)
  {
    hide Bit, BitAt;
    if j: nat :| j < 8 && Bit(b, j) {
      assert BitAt(buffer, i + j) == Bit(b, i + j - i);
    }
  }

  lemma ScanJoin(buffer: seq<byte>, lo: int, mid: int, hi: int)
    requires lo <= mid <= hi
    ensures HasLow(buffer, lo, hi) <==> HasLow(buffer, lo, mid) || HasLow(buffer, mid, hi)
    ensures HasHigh(buffer, lo, hi) <==> HasHigh(buffer, lo, mid) || HasHigh(buffer, mid, hi)
  {
    if HasLow(buffer, lo, hi) {
      var i :| lo <= i < hi && !BitAt(buffer, i);
      assert i < mid ==> HasLow(buffer, lo, mid);
    }
    if HasHigh(buffer, lo, hi) {
      var i :| lo <= i < hi && BitAt(buffer, i);
      assert i < mid ==> HasHigh(buffer, lo, mid);
    }
  }

  /** A whole aligned byte of the bin lies before the buffer: reading it is an index trap. */
  predicate TrapAt(i: int, lo: int, hi: int) {
    lo <= i && i + 8 <= hi && i % 8 == 0 && i < 0
  }

  /** The while loop of one bin, with its byte-wise shortcut and its early exit. */
  method ScanBin(buffer: seq<byte>, lo: int, hi: int) returns (trapped: bool, low: bool, high: bool)
    requires lo <= hi <= 8 * |buffer|
    ensures trapped <==> exists i :: TrapAt(i, lo, hi)
    ensures !trapped ==> low == HasLow(buffer, lo, hi) && high == HasHigh(buffer, lo, hi)
  {
    trapped, low, high := false, false, false;
    var i := lo;
    while i < hi
      invariant lo <= i <= hi
      invariant low == HasLow(buffer, lo, i) && high == HasHigh(buffer, lo, i)
      invariant forall k :: TrapAt(k, lo, hi) ==> k >= i
    {
      if i / 8 >= |buffer| { break; }
      if i % 8 == 0 && i + 8 <= hi {
        if i < 0 {
          assert TrapAt(i, lo, hi);
          return true, false, false;
        }
        var b := buffer[i / 8];
        ByteScan(buffer, i);
        ScanJoin(buffer, lo, i, i + 8);
        if b == 0 {
          low := true;
        } else if b == 255 {
          high := true;
        } else {
          low, high := true, true;
        }
        i := i + 8;
      } else {
        OneBit(buffer, i);
        ScanJoin(buffer, lo, i, i + 1);
        if BitAt(buffer, i) { high := true; } else { low := true; }
        i := i + 1;
      }
      if low && high {
        ScanJoin(buffer, lo, i, hi);
        HighIsInside(buffer, lo, i);
        return;
      }
    }
  }

  lemma OneBit(buffer: seq<byte>, i: int)
    ensures HasHigh(buffer, i, i + 1) == BitAt(buffer, i) && HasLow(buffer, i, i + 1) == !BitAt(buffer, i)
  {
  }

  lemma HighIsInside(buffer: seq<byte>, lo: int, hi: int)
    requires HasHigh(buffer, lo, hi)
    ensures hi > 0
  {
  }

  // ----- The compression -----

  function Level(high: bool): int {
    if high then HIGH else LOW
  }

  /** The two points a bin is drawn as: low at its start if it has a low bit, high at its end if it has a high one. */
  function BinPoints(buffer: seq<byte>, lo: int, hi: int): seq<Point> {
    [Point(lo, if HasLow(buffer, lo, hi) then LOW else HIGH),
     Point(hi - 1, if HasHigh(buffer, lo, hi) then HIGH else LOW)]
  }

  /** A pair is flat exactly over a constant bin, rises exactly over a mixed one, and never falls. */
  lemma PairMeaning(buffer: seq<byte>, lo: int, hi: int)
    requires lo < hi
    ensures var p := BinPoints(buffer, lo, hi);
      (p[0].value == p[1].value == HIGH <==> forall i :: lo <= i < hi ==> BitAt(buffer, i))
      && (p[0].value == p[1].value == LOW <==> forall i :: lo <= i < hi ==> !BitAt(buffer, i))
      && (p[0].value < p[1].value <==> HasLow(buffer, lo, hi) && HasHigh(buffer, lo, hi))
      && p[0].value <= p[1].value
  {
    assert BitAt(buffer, lo) || !BitAt(buffer, lo);
  }

  /** Where a bin's two points stand and how high: its first and its last bit, at 0 or 255. */
  lemma PairPlace(buffer: seq<byte>, lo: int, hi: int)
    requires lo < hi
    ensures var p := BinPoints(buffer, lo, hi);
      |p| == 2 && p[0].time == lo && p[1].time == hi - 1
      && (p[0].value == 0 <==> exists i :: lo <= i < hi && !BitAt(buffer, i))
      && (p[1].value == 255 <==> exists i :: lo <= i < hi && BitAt(buffer, i))
      && p[0].value in {0, 255} && p[1].value in {0, 255}
  {
  }

  ghost predicate BinTraps(start: int, span: nat, n: nat, bin: nat)
    requires n > 0
  {
    exists i :: TrapAt(i, BinStart(start, span, n, bin), BinEnd(start, span, n, bin))
  }

  ghost predicate Traps(start: int, span: nat, n: nat, bins: nat)
    requires n > 0
  {
    exists bin: nat :: bin < bins && BinTraps(start, span, n, bin)
  }

  ghost predicate BinDrawn(buffer: seq<byte>, start: int, span: nat, n: nat, points: seq<Point>, bin: nat)
    requires n > 0
  {
    2 * bin + 2 <= |points| && points[2 * bin..2 * bin + 2]
      == BinPoints(buffer, BinStart(start, span, n, bin), BinEnd(start, span, n, bin))
  }

  lemma InsideRange(start: int, span: nat, n: nat, bin: nat)
    requires span > 2 * n > 0 && bin < n
    ensures start <= BinStart(start, span, n, bin) < BinEnd(start, span, n, bin) <= start + span
  {
    hide BinStart, BinEnd, Cut;
    BinsInOrder(start, span, n, bin);
    BinInIntegers(start, span, n, bin);
    StartsBelow(start, span, n, bin + 1);
  }

  lemma {:induction false} StartsBelow(start: int, span: nat, n: nat, bin: nat)
    requires span > 2 * n > 0 && bin <= n
    ensures BinStart(start, span, n, bin) <= start + span
    decreases n - bin
  {
    hide BinStart, BinEnd;
    if bin < n {
      StartsBelow(start, span, n, bin + 1);
      BinsInOrder(start, span, n, bin);
    } else {
      BinsInOrder(start, span, n, 0);
    }
  }

  /** Ranges from a bit of the buffer on never trap. */
  lemma NeverTrapsInside(start: int, span: nat, n: nat)
    requires start >= 0 && span > 2 * n > 0
    ensures !Traps(start, span, n, n)
  {
    hide BinStart, BinEnd;
    forall bin: nat | bin < n
      ensures !BinTraps(start, span, n, bin)
    {
      InsideRange(start, span, n, bin);
    }
  }

  ghost predicate AllBinsDrawn(buffer: seq<byte>, start: int, span: nat, n: nat, points: seq<Point>)
    requires n > 0
  {
    |points| == 2 * n && forall bin: nat :: bin < n ==> BinDrawn(buffer, start, span, n, points, bin)
  }

  ghost predicate EveryBitDrawn(buffer: seq<byte>, start: int, span: nat, points: seq<Point>) {
    |points| == span && forall k :: 0 <= k < span ==> points[k] == Point(start + k, Level(BitAt(buffer, start + k)))
  }

  /** Every bit of a short range in its place, at 255 if it is set and at 0 if not. */
  lemma EveryBitPlace(buffer: seq<byte>, start: int, span: nat, points: seq<Point>)
    ensures EveryBitDrawn(buffer, start, span, points) <==>
      |points| == span
      && forall k :: 0 <= k < span ==>
        points[k].time == start + k && points[k].value == if BitAt(buffer, start + k) then 255 else 0
  {
  }

  method DrawEveryBit(buffer: seq<byte>, start: int, end: int) returns (points: seq<Point>)
    requires start <= end
    ensures EveryBitDrawn(buffer, start, end - start, points)
  {
    points := [];
    for i := start to end
      invariant EveryBitDrawn(buffer, start, i - start, points)
    {
      points := points + [Point(i, Level(BitAt(buffer, i)))];
    }
  }

  datatype Outcome = Trapped | Drawn(points: seq<Point>)

  method DrawBins(buffer: seq<byte>, start: int, end: int, n: nat) returns (r: Outcome)
    requires end <= 8 * |buffer| && end - start > 2 * n > 0
    ensures r.Trapped? <==> Traps(start, end - start, n, n)
    ensures r.Drawn? ==> AllBinsDrawn(buffer, start, end - start, n, r.points)
  {
    hide BinStart, BinEnd, HasLow, HasHigh;
    var span := end - start;
    var points: seq<Point> := [];
    for bin := 0 to n
      invariant |points| == 2 * bin
      invariant forall b :: 0 <= b < bin ==> BinDrawn(buffer, start, span, n, points, b)
      invariant !Traps(start, span, n, bin)
    {
      var binStart, binEnd := BinStart(start, span, n, bin), BinEnd(start, span, n, bin);
      InsideRange(start, span, n, bin);
      if binEnd > end { binEnd := end; }
      if binStart < binEnd {
        var trapped, low, high := ScanBin(buffer, binStart, binEnd);
        assert trapped <==> BinTraps(start, span, n, bin);
        if trapped {
          return Trapped;
        }
        SomeLevel(buffer, binStart, binEnd);
        ghost var before := points;
        if low || high {
          points := points + [Point(binStart, if low then LOW else HIGH)];
          points := points + [Point(binEnd - 1, if high then HIGH else LOW)];
        }
        assert points == before + BinPoints(buffer, binStart, binEnd);
        DrawnKept(buffer, start, span, n, before, bin, points);
      }
    }
    return Drawn(points);
  }

  lemma SomeLevel(buffer: seq<byte>, lo: int, hi: int)
    requires lo < hi
    ensures HasLow(buffer, lo, hi) || HasHigh(buffer, lo, hi)
  {
    assert BitAt(buffer, lo) || !BitAt(buffer, lo);
  }

  lemma DrawnKept(buffer: seq<byte>, start: int, span: nat, n: nat, before: seq<Point>, bin: nat, points: seq<Point>)
    requires n > 0 && |before| == 2 * bin
    requires forall b :: 0 <= b < bin ==> BinDrawn(buffer, start, span, n, before, b)
    requires points
      == before + BinPoints(buffer, BinStart(start, span, n, bin), BinEnd(start, span, n, bin))
    ensures forall b :: 0 <= b <= bin ==> BinDrawn(buffer, start, span, n, points, b)
  {
    hide BinStart, BinEnd, HasLow, HasHigh;
    forall b | 0 <= b <= bin
      ensures BinDrawn(buffer, start, span, n, points, b)
    {
      if b < bin {
        assert BinDrawn(buffer, start, span, n, before, b);
        assert points[2 * b..2 * b + 2] == before[2 * b..2 * b + 2];
      } else {
        assert points[2 * b..] == BinPoints(buffer, BinStart(start, span, n, b), BinEnd(start, span, n, b));
      }
    }
  }

  predicate Nothing(buffer: seq<byte>, rangeStart: int, rangeEnd: int, numberBins: int) {
    buffer == [] || rangeStart >= rangeEnd || rangeStart >= 8 * |buffer| || numberBins <= 0
  }

  /** compressDataBits: nothing, every bit of a short range, or two points a bin; or a trap below bit 0. */
  method CompressDataBits(buffer: seq<byte>, rangeStart: int, rangeEnd: int, numberBins: int) returns (r: Outcome)
    ensures Nothing(buffer, rangeStart, rangeEnd, numberBins) ==> r == Drawn([])
    ensures !Nothing(buffer, rangeStart, rangeEnd, numberBins) ==>
      var span := Min(rangeEnd, 8 * |buffer|) - rangeStart;
      if span <= 2 * numberBins then r.Drawn? && EveryBitDrawn(buffer, rangeStart, span, r.points)
      else if Traps(rangeStart, span, numberBins, numberBins) then r.Trapped?
      else r.Drawn? && AllBinsDrawn(buffer, rangeStart, span, numberBins, r.points)
    ensures rangeStart >= 0 ==> r.Drawn?
  {
    hide Traps, AllBinsDrawn;
    var totalBits := |buffer| * 8;
    if |buffer| == 0 || rangeStart >= rangeEnd || rangeStart >= totalBits || numberBins <= 0 {
      return Drawn([]);
    }
    var end := Min(rangeEnd, totalBits);
    var start := Min(rangeStart, end);
    var span := end - start;
    if span <= 0 {
      return Drawn([]);
    }
    if span <= numberBins * 2 {
      var points := DrawEveryBit(buffer, start, end);
      return Drawn(points);
    }
    r := DrawBins(buffer, start, end, numberBins);
    if rangeStart >= 0 {
      NeverTrapsInside(start, span, numberBins);
    }
  }

  /** The trap is real: 32 bits drawn in two bins from bit -16 on. */
  lemma NegativeStartTraps()
    ensures Traps(-16, 32, 2, 2)
  {
    BinInIntegers(-16, 32, 2, 0);
    assert TrapAt(-16, BinStart(-16, 32, 2, 0), BinEnd(-16, 32, 2, 0));
    assert BinTraps(-16, 32, 2, 0);
  }
}
