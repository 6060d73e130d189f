/**
 * The cm2 clamp ladder (scripts/isp/check-cm2-ladder.py): band selection by gain, Q24 blending of signed bounds
 * with truncation toward zero, and the two reciprocals of the window widths.
 */
module Cm2Ladder {
  import opened Wrappers
  import opened Bytes

  const Q24 := 0x100_0000
  const SATURATED := 0xffff_ffff
  const NUMERATOR := 1024
  const MAX_ROWS := 5
  const MANTISSA := 0x80_0000
  const SIGN := 0x8000_0000

  /** One band of the gain axis: its two edges as binary32 bit patterns. */
  datatype Band = Band(lo: nat, hi: nat)

  /** The fields of a record that are read: the gain's bit pattern and the four signed bounds. */
  datatype Record = Record(gain: nat, bounds: seq<int>)

  /** The tuning blob's ladder. */
  datatype Ladder = Ladder(aecCount: nat, ctCount: nat, interp: nat, axis: seq<Band>, rows: seq<seq<Record>>) {
    predicate Valid() {
      && |axis| == |rows| == MAX_ROWS
      && forall i :: 0 <= i < MAX_ROWS ==>
           && axis[i].lo < 2 * SIGN && axis[i].hi < 2 * SIGN
           && |rows[i]| > 0 && forall j :: 0 <= j < |rows[i]| ==> |rows[i][j].bounds| == 4 && rows[i][j].gain < 2 * SIGN
    }
  }

  function Exponent(bits: nat): int {
    bits / MANTISSA % 256 - 127
  }

  function Significand(bits: nat): (m: nat)
    ensures MANTISSA <= m < 2 * MANTISSA
  {
    bits % MANTISSA + MANTISSA
  }

  /** A binary32 bit pattern as an unsigned fixed-point number with 23 - bias fraction bits less its exponent. */
  function F32Fixed(bits: nat, bias: int, top: int): (r: nat) {
    var shift := bias - Exponent(bits);
    if bits >= SIGN then 0
    else if shift >= 32 then 0
    else if shift < -top then SATURATED
    else if shift <= 0 then Significand(bits) * Pow2(-shift)
    else Significand(bits) / Pow2(shift)
  }

  function F32Q8(bits: nat): nat {
    F32Fixed(bits, 15, 16)
  }

  function F32Q16(bits: nat): nat {
    F32Fixed(bits, 7, 8)
  }

  /** Division truncating toward zero. */
  function Truncate(acc: int): int {
    if acc >= 0 then acc / Q24 else -(-acc / Q24)
  }

  function BlendS32(a: int, b: int, t: nat): int {
    Truncate(a * (Q24 - t) + b * t)
  }

  function BlendU32(a: nat, b: nat, t: nat): nat
    requires t <= Q24
  {
    MulNonNegative(a, Q24 - t);
    MulNonNegative(b, t);
    (a * (Q24 - t) + b * t) / Q24
  }

  /** How many rows are live: an absurd count means the full table. */
  function Count(l: Ladder): (n: nat)
    ensures 1 <= n <= MAX_ROWS && (1 <= l.aecCount <= 5 ==> n == l.aecCount)
  {
    if l.aecCount < 1 || l.aecCount > MAX_ROWS then MAX_ROWS else l.aecCount
  }

  /** The first band from i on whose upper edge reaches the gain, or the last. */
  function RowFrom(l: Ladder, gain: int, i: nat): (r: nat)
    requires l.Valid() && i < Count(l)
    ensures i <= r < Count(l)
    ensures r < Count(l) - 1 ==> gain <= F32Q8(l.axis[r].hi)
    ensures forall j :: i <= j < r ==> gain > F32Q8(l.axis[j].hi)
    decreases Count(l) - i
  {
    if i == Count(l) - 1 || gain <= F32Q8(l.axis[i].hi) then i else RowFrom(l, gain, i + 1)
  }

  function RowOf(l: Ladder, gain: int): (r: nat)
    requires l.Valid()
    ensures r < Count(l)
  {
    RowFrom(l, gain, 0)
  }

  /** How far into the gap below its band a gain lies, in 24-bit fractions; 0 means no blending. */
  function Weight(l: Ladder, gain: int): (t: nat)
    requires l.Valid()
    ensures t < Q24 && (t > 0 ==> RowOf(l, gain) > 0)
  {
    var r := RowOf(l, gain);
    if l.interp == 0 || r == 0 then 0
    else
      var lo: int, prev: int := F32Q8(l.axis[r].lo), F32Q8(l.axis[r - 1].hi);
      if gain < lo && lo > prev then
        FractionBelowOne(gain - prev, lo - prev);
        (gain - prev) * Q24 / (lo - prev)
      else 0
  }

  lemma FractionBelowOne(x: int, gap: int)
    requires 0 <= x < gap
    ensures 0 <= x * Q24 / gap < Q24
  {
    var q := x * Q24 / gap;
    assert x * Q24 == gap * q + x * Q24 % gap;
    MulMono(gap, Q24, q);
    MulMono(gap, q, -1);
  }

  /** One installed bound. */
  function BoundAt(l: Ladder, gain: int, slot: nat): int
    requires l.Valid() && slot < 4
  {
    var r, t := RowOf(l, gain), Weight(l, gain);
    if t == 0 then l.rows[r][0].bounds[slot] else BlendS32(l.rows[r - 1][0].bounds[slot], l.rows[r][0].bounds[slot], t)
  }

  function GainAt(l: Ladder, gain: int): nat
    requires l.Valid()
  {
    var r, t := RowOf(l, gain), Weight(l, gain);
    if t == 0 then F32Q16(l.rows[r][0].gain) else BlendU32(F32Q16(l.rows[r - 1][0].gain), F32Q16(l.rows[r][0].gain), t)
  }

  /** Floor division, as Python's. */
  function FloorDiv(a: int, b: int): int
    requires b != 0
  {
    if b > 0 then a / b else -a / -b
  }

  /** The seven installed words, or nothing where a window is empty and the division fails. */
  function Installed(l: Ladder, gain: int): Option<seq<int>>
    requires l.Valid()
  {
    var b := seq(4, i requires 0 <= i < 4 => BoundAt(l, gain, i));
    var w1, w2 := b[1] - b[0], b[3] - b[2];
    if w1 == 0 || w2 == 0 then None
    else Some([GainAt(l, gain) / 2048 % 128] + b + [FloorDiv(NUMERATOR, w1), FloorDiv(NUMERATOR, w2)])
  }

  // ---- the script ----

  /** select_row. */
  method SelectRow(l: Ladder, gain: int) returns (row: nat, t: nat)
    requires l.Valid()
    ensures row == RowOf(l, gain) && t == Weight(l, gain)
  {
    var count := if l.aecCount < 1 || l.aecCount > MAX_ROWS then MAX_ROWS else l.aecCount;
    row := count - 1;
    var i := 0;
    while i < count - 1
      invariant i <= count - 1 && row == count - 1 && RowOf(l, gain) == RowFrom(l, gain, i)
    {
      var hi := F32Q8(l.axis[i].hi);
      if gain <= hi {
        row := i;
        break;
      }
      i := i + 1;
    }
    t := 0;
    if l.interp != 0 && row > 0 {
      var lo: int, prev: int := F32Q8(l.axis[row].lo), F32Q8(l.axis[row - 1].hi);
      if gain < lo && lo > prev {
        FractionBelowOne(gain - prev, lo - prev);
        t := (gain - prev) * Q24 / (lo - prev);
      }
    }
  }

  /** row_from_blob. The colour-temperature count can only come out as 1, so the index is always 0. */
  method RowFromBlob(l: Ladder, gain: int, ct0: nat) returns (r: Option<seq<int>>)
    requires l.Valid()
    ensures r == Installed(l, gain)
  {
    var ctCount := if l.ctCount < 1 || l.ctCount > 1 then 1 else l.ctCount;
    var ct := if ct0 >= ctCount then 0 else ct0;
    var row, t := SelectRow(l, gain);
    var g := F32Q16(l.rows[row][ct].gain);
    if t != 0 {
      g := BlendU32(F32Q16(l.rows[row - 1][ct].gain), g, t);
    }
    var bounds := l.rows[row][ct].bounds;
    if t != 0 {
      var prev := l.rows[row - 1][ct].bounds;
      bounds := seq(4, i requires 0 <= i < 4 => BlendS32(prev[i], bounds[i], t));
    }
    assert bounds == seq(4, i requires 0 <= i < 4 => BoundAt(l, gain, i));
    if bounds[1] == bounds[0] || bounds[3] == bounds[2] {
      return None;
    }
    r := Some([g / 2048 % 128] + bounds
              + [FloorDiv(NUMERATOR, bounds[1] - bounds[0]), FloorDiv(NUMERATOR, bounds[3] - bounds[2])]);
  }

  /**
   * The Q8 conversion is 256 times the binary32 value rounded down, with the implicit bit always set: the significand
   * times 2^(e - 142) for the stored exponent e. It saturates from 2^32 on, and a negative pattern gives 0.
   */
  lemma {:induction false} Q8IsRoundedDown(bits: nat)
    requires bits < 2 * SIGN
    ensures bits >= 0x8000_0000 ==> F32Q8(bits) == F32Q16(bits) == 0
    ensures var e, m, r := bits / 0x80_0000 % 256, 0x80_0000 + bits % 0x80_0000, F32Q8(bits);
            bits < 0x8000_0000 ==>
              if e > 158 then r == 0xffff_ffff
              else if e >= 142 then r == m * Pow2(e - 142)
              else r * Pow2(142 - e) <= m < r * Pow2(142 - e) + Pow2(142 - e)
  {
    hide *;
    Q8ByExponent(bits);
    var e, m := bits / 0x80_0000 % 256, 0x80_0000 + bits % 0x80_0000;
    if bits < 0x8000_0000 && e < 142 {
      ShiftedDown(m, 142 - e);
    }
  }

  lemma Q8ByExponent(bits: nat)
    ensures bits >= 0x8000_0000 ==> F32Q8(bits) == F32Q16(bits) == 0
    ensures var e, m := bits / 0x80_0000 % 256, 0x80_0000 + bits % 0x80_0000;
            bits < 0x8000_0000 ==>
              F32Q8(bits) == if e > 158 then 0xffff_ffff
                             else if e >= 142 then m * Pow2(e - 142)
                             else if e <= 110 then 0 else m / Pow2(142 - e)
  {
    hide Pow2;
  }

  lemma {:induction false} ShiftedDown(m: nat, k: nat)
    requires m < 0x100_0000
    ensures var r := if k >= 32 then 0 else m / Pow2(k); r * Pow2(k) <= m < r * Pow2(k) + Pow2(k)
  {
    if k >= 32 {
      Pow2Monotone(32, k);
      Pow2Of32();
    } else {
      DivideDown(m, Pow2(k));
    }
    hide Pow2;
  }

  lemma Pow2Of32()
    ensures Pow2(32) == 0x1_0000_0000
  {
    assert Pow2(8) == 256;
    Pow2Add(8, 8);
    Pow2Add(16, 16);
    hide Pow2;
  }

  /** The Q16 conversion is the Q8 conversion of 256 times the value, saturating from 2^16 on; 1.0 is 1 in both. */
  lemma {:induction false} Q16IsQ8OfMore(bits: nat)
    requires bits < SIGN && Exponent(bits) <= 119
    ensures F32Q16(bits) == if Exponent(bits) <= 15 then F32Q8(bits + 8 * MANTISSA) else 0xffff_ffff
    ensures F32Q16(0x3F80_0000) == 0x1_0000 && F32Q8(0x3F80_0000) == 0x100
  {
    hide *;
    ExponentUp(bits);
    SameShift(bits, bits + 8 * 0x80_0000);
    MantissaIs();
    OneConverts();
  }

  lemma MantissaIs()
    ensures MANTISSA == 0x80_0000
  {
  }

  lemma ExponentUp(bits: nat)
    requires bits < SIGN && Exponent(bits) <= 119
    ensures var more := bits + 8 * 0x80_0000;
            more < SIGN && Exponent(more) == Exponent(bits) + 8 && Significand(more) == Significand(bits)
  {
    var more := bits + 8 * 0x80_0000;
    assert more / MANTISSA == bits / MANTISSA + 8 && more % MANTISSA == bits % MANTISSA;
  }

  lemma SameShift(bits: nat, more: nat)
    requires bits < SIGN && more < SIGN
    requires Exponent(more) == Exponent(bits) + 8 && Significand(more) == Significand(bits)
    ensures F32Q16(bits) == if Exponent(bits) <= 15 then F32Q8(more) else 0xffff_ffff
  {
    hide Pow2, Exponent, Significand;
  }

  lemma OneConverts()
    ensures F32Q16(0x3F80_0000) == 0x1_0000 && F32Q8(0x3F80_0000) == 0x100
  {
    assert Exponent(0x3F80_0000) == 0 && Significand(0x3F80_0000) == MANTISSA;
    hide Exponent, Significand;
    assert Pow2(7) == 128 && Pow2(15) == 256 * Pow2(7);
  }

  // ---- blending ----

  lemma TruncateMonotone(x: int, y: int)
    requires x <= y
    ensures Truncate(x) <= Truncate(y)
  {
  }

  lemma TruncateExact(a: int)
    ensures Truncate(a * Q24) == a
  {
  }

  /** The accumulator moves with the weight, toward b. */
  lemma AccumulatorMoves(a: int, b: int, t: nat, u: nat)
    requires a <= b && t <= u <= Q24
    ensures a * Q24 <= a * (Q24 - t) + b * t <= a * (Q24 - u) + b * u <= b * Q24
  {
    var d := b - a;
    assert a * (Q24 - t) + b * t == a * Q24 + d * t;
    assert a * (Q24 - u) + b * u == a * Q24 + d * u;
    MulMono(d, 0, t);
    MulMono(d, t, u);
    MulMono(d, u, Q24);
    assert d * Q24 == b * Q24 - a * Q24;
  }

  /** A blend lies between its two ends and moves monotonically from the first to the second. */
  lemma {:induction false} BlendBetween(a: int, b: int, t: nat, u: nat)
    requires t <= u <= Q24
    ensures a <= b ==> a <= BlendS32(a, b, t) <= BlendS32(a, b, u) <= b
    ensures b <= a ==> b <= BlendS32(a, b, u) <= BlendS32(a, b, t) <= a
  {
    TruncateExact(a);
    TruncateExact(b);
    if a <= b {
      AccumulatorMoves(a, b, t, u);
      TruncateMonotone(a * Q24, a * (Q24 - t) + b * t);
      TruncateMonotone(a * (Q24 - t) + b * t, a * (Q24 - u) + b * u);
      TruncateMonotone(a * (Q24 - u) + b * u, b * Q24);
    }
    if b <= a {
      AccumulatorMoves(b, a, Q24 - u, Q24 - t);
      TruncateMonotone(b * Q24, a * (Q24 - u) + b * u);
      TruncateMonotone(a * (Q24 - u) + b * u, a * (Q24 - t) + b * t);
      TruncateMonotone(a * (Q24 - t) + b * t, a * Q24);
    }
  }

  /** A signed blend is the exact weighted mean cut off toward zero. */
  lemma {:induction false} BlendS32Exact(a: int, b: int, t: nat)
    ensures var v, m := BlendS32(a, b, t), a * (Q24 - t) + b * t;
            && (m >= 0 ==> v >= 0 && v * Q24 <= m < v * Q24 + Q24)
            && (m <= 0 ==> v <= 0 && v * Q24 - Q24 < m <= v * Q24)
  {
    CutOff(a * (Q24 - t) + b * t);
    hide Truncate;
  }

  lemma CutOff(m: int)
    ensures var v := Truncate(m);
            && (m >= 0 ==> v >= 0 && v * Q24 <= m < v * Q24 + Q24)
            && (m <= 0 ==> v <= 0 && v * Q24 - Q24 < m <= v * Q24)
  {
  }

  /** The weight is how far into the gap between two bands a gain lies, as a fraction of 2^24 rounded down. */
  lemma {:induction false} WeightIsPosition(l: Ladder, gain: int)
    requires l.Valid()
    ensures var r, w := RowOf(l, gain), Weight(l, gain);
            if l.interp != 0 && r > 0 && F32Q8(l.axis[r - 1].hi) < gain < F32Q8(l.axis[r].lo) then
              var x, gap := gain - F32Q8(l.axis[r - 1].hi), F32Q8(l.axis[r].lo) - F32Q8(l.axis[r - 1].hi);
              w * gap <= x * Q24 < w * gap + gap
            else w == 0
  {
    hide F32Q8, RowFrom;
    var r := RowOf(l, gain);
    assert r > 0 ==> gain > F32Q8(l.axis[r - 1].hi);
    if l.interp != 0 && r > 0 && gain < F32Q8(l.axis[r].lo) {
      var x, gap := gain - F32Q8(l.axis[r - 1].hi), F32Q8(l.axis[r].lo) - F32Q8(l.axis[r - 1].hi);
      DivideDown(x * Q24, gap);
    }
  }

  lemma DivideDown(x: int, gap: int)
    requires gap > 0
    ensures x / gap * gap <= x < x / gap * gap + gap
  {
    assert x == gap * (x / gap) + x % gap;
  }

  /** An unsigned blend is the exact weighted mean rounded down; it lies between its ends and moves with the weight. */
  lemma {:induction false} BlendU32Exact(a: nat, b: nat, t: nat, u: nat)
    requires t <= u <= Q24
    ensures BlendU32(a, b, t) * Q24 <= a * (Q24 - t) + b * t < BlendU32(a, b, t) * Q24 + Q24
    ensures a <= b ==> a <= BlendU32(a, b, t) <= BlendU32(a, b, u) <= b
    ensures b <= a ==> b <= BlendU32(a, b, u) <= BlendU32(a, b, t) <= a
  {
    MulNonNegative(a, Q24 - t);
    MulNonNegative(b, t);
    MulNonNegative(a, Q24 - u);
    MulNonNegative(b, u);
    BlendBetween(a, b, t, u);
  }

  /** The gain a row installs is its own, or the blend with the row below by the weight, in 16 fraction bits. */
  lemma {:induction false} GainBetweenRows(l: Ladder, gain: int)
    requires l.Valid()
    ensures var r, v := RowOf(l, gain), GainAt(l, gain);
            var b := F32Q16(l.rows[r][0].gain);
            && (Weight(l, gain) == 0 ==> v == b)
            && (Weight(l, gain) > 0 ==>
                  var a, t := F32Q16(l.rows[r - 1][0].gain), Weight(l, gain);
                  && (a <= v <= b || b <= v <= a)
                  && v * Q24 <= a * (Q24 - t) + b * t < v * Q24 + Q24)
  {
    var r, t := RowOf(l, gain), Weight(l, gain);
    if t > 0 {
      BlendU32Exact(F32Q16(l.rows[r - 1][0].gain), F32Q16(l.rows[r][0].gain), t, t);
    }
    hide F32Q16, BlendU32;
  }

  /** Every installed bound is a row's, or lies between two adjacent rows' values. */
  lemma {:induction false} BoundBetweenRows(l: Ladder, gain: int, slot: nat)
    requires l.Valid() && slot < 4
    ensures var r, v := RowOf(l, gain), BoundAt(l, gain, slot);
            var b := l.rows[r][0].bounds[slot];
            v == b || (r > 0 && var a := l.rows[r - 1][0].bounds[slot]; (a <= v <= b || b <= v <= a))
    ensures Weight(l, gain) == 0 ==> BoundAt(l, gain, slot) == l.rows[RowOf(l, gain)][0].bounds[slot]
    ensures Weight(l, gain) > 0 ==>
              var r, t, v := RowOf(l, gain), Weight(l, gain), BoundAt(l, gain, slot);
              var m := l.rows[r - 1][0].bounds[slot] * (Q24 - t) + l.rows[r][0].bounds[slot] * t;
              && (m >= 0 ==> v >= 0 && v * Q24 <= m < v * Q24 + Q24)
              && (m <= 0 ==> v <= 0 && v * Q24 - Q24 < m <= v * Q24)
  {
    var r, t := RowOf(l, gain), Weight(l, gain);
    if t > 0 {
      BlendS32Exact(l.rows[r - 1][0].bounds[slot], l.rows[r][0].bounds[slot], t);
      BlendBetween(l.rows[r - 1][0].bounds[slot], l.rows[r][0].bounds[slot], t, t);
    }
  }

  // ---- monotone in the gain ----

  /** The live rows' values of one bound never go down. */
  predicate ColumnRises(l: Ladder, slot: nat)
    requires l.Valid() && slot < 4
  {
    forall i, j :: 0 <= i <= j < Count(l) ==> l.rows[i][0].bounds[slot] <= l.rows[j][0].bounds[slot]
  }

  /** No gap between a band and the one below it is wider than 2^24 Q8 counts. */
  predicate GapsSmall(l: Ladder)
    requires l.Valid()
  {
    forall i :: 0 < i < Count(l) ==> F32Q8(l.axis[i].lo) - F32Q8(l.axis[i - 1].hi) <= Q24
  }

  lemma {:induction false} RowRises(l: Ladder, g: int, h: int, i: nat)
    requires l.Valid() && g <= h && i < Count(l)
    ensures RowFrom(l, g, i) <= RowFrom(l, h, i)
    decreases Count(l) - i
  {
    if i < Count(l) - 1 && g > F32Q8(l.axis[i].hi) {
      RowRises(l, g, h, i + 1);
    }
  }

  /** A weight above zero anywhere inside a gap needs the gap to be at most 2^24, and then there is one everywhere. */
  lemma {:induction false} FractionPositiveIff(gap: nat)
    requires gap > 1
    ensures (forall x: nat :: 0 < x < gap ==> x * Q24 / gap > 0) <==> gap <= Q24
  {
    if gap <= Q24 {
      forall x: nat | 0 < x < gap
        ensures x * Q24 / gap > 0
      {
        QuotientAtLeastOne(x * Q24, gap);
      }
    } else {
      assert 1 * Q24 / gap == 0;
    }
  }

  lemma QuotientAtLeastOne(x: nat, gap: nat)
    requires x >= gap > 0
    ensures x / gap >= 1
  {
  }

  lemma FractionMonotone(x: nat, y: nat, gap: nat)
    requires x <= y < gap
    ensures x * Q24 / gap <= y * Q24 / gap
  {
    var p, q := x * Q24 / gap, y * Q24 / gap;
    assert x * Q24 == gap * p + x * Q24 % gap && y * Q24 == gap * q + y * Q24 % gap;
    MulMono(gap, q + 1, p);
    assert gap * (q + 1) == gap * q + gap;
  }

  lemma PreviousEdgePassed(l: Ladder, gain: int)
    requires l.Valid() && RowOf(l, gain) > 0
    ensures gain > F32Q8(l.axis[RowOf(l, gain) - 1].hi)
  {
  }

  /** Within one band the weight rises until the band's lower edge, where blending stops. */
  lemma {:induction false} WeightRises(l: Ladder, g: int, h: int)
    requires l.Valid() && GapsSmall(l) && g <= h && RowOf(l, g) == RowOf(l, h)
    ensures Weight(l, g) == 0 ==> Weight(l, h) == 0
    ensures Weight(l, h) > 0 ==> 0 < Weight(l, g) <= Weight(l, h)
  {
    hide F32Q8, RowFrom, RowOf;
    var r := RowOf(l, g);
    if l.interp != 0 && r > 0 {
      PreviousEdgePassed(l, g);
      PreviousEdgePassed(l, h);
      var lo: int, prev: int := F32Q8(l.axis[r].lo), F32Q8(l.axis[r - 1].hi);
      if g < lo && lo > prev {
        FractionPositiveIff(lo - prev);
        assert (g - prev) * Q24 / (lo - prev) > 0;
        if h < lo {
          FractionMonotone(g - prev, h - prev, lo - prev);
        }
      }
    }
  }

  /** An installed bound never goes down as the gain goes up, when its column does not and no gap is too wide. */
  lemma {:induction false} BoundRises(l: Ladder, g: int, h: int, slot: nat)
    requires l.Valid() && slot < 4 && g <= h && ColumnRises(l, slot) && GapsSmall(l)
    ensures BoundAt(l, g, slot) <= BoundAt(l, h, slot)
  {
    var r, q := RowOf(l, g), RowOf(l, h);
    RowRises(l, g, h, 0);
    BoundBetweenRows(l, g, slot);
    BoundBetweenRows(l, h, slot);
    if r == q {
      WeightRises(l, g, h);
      if Weight(l, h) > 0 {
        BlendBetween(l.rows[r - 1][0].bounds[slot], l.rows[r][0].bounds[slot], Weight(l, g), Weight(l, h));
      } else if r > 0 {
        assert l.rows[r - 1][0].bounds[slot] <= l.rows[r][0].bounds[slot];
      }
    } else {
      assert l.rows[r][0].bounds[slot] <= l.rows[q - 1][0].bounds[slot] <= l.rows[q][0].bounds[slot];
      if r > 0 {
        assert l.rows[r - 1][0].bounds[slot] <= l.rows[r][0].bounds[slot];
      }
    }
  }

  /** The live rows' values of one bound never go up. */
  predicate ColumnFalls(l: Ladder, slot: nat)
    requires l.Valid() && slot < 4
  {
    forall i, j :: 0 <= i <= j < Count(l) ==> l.rows[i][0].bounds[slot] >= l.rows[j][0].bounds[slot]
  }

  /** Likewise an installed bound never goes up when its column does not. */
  lemma {:induction false} BoundFalls(l: Ladder, g: int, h: int, slot: nat)
    requires l.Valid() && slot < 4 && g <= h && ColumnFalls(l, slot) && GapsSmall(l)
    ensures BoundAt(l, g, slot) >= BoundAt(l, h, slot)
  {
    var r, q := RowOf(l, g), RowOf(l, h);
    RowRises(l, g, h, 0);
    BoundBetweenRows(l, g, slot);
    BoundBetweenRows(l, h, slot);
    if r == q {
      WeightRises(l, g, h);
      if Weight(l, h) > 0 {
        BlendBetween(l.rows[r - 1][0].bounds[slot], l.rows[r][0].bounds[slot], Weight(l, g), Weight(l, h));
      } else if r > 0 {
        assert l.rows[r - 1][0].bounds[slot] >= l.rows[r][0].bounds[slot];
      }
    } else {
      assert l.rows[r][0].bounds[slot] >= l.rows[q - 1][0].bounds[slot] >= l.rows[q][0].bounds[slot];
      if r > 0 {
        assert l.rows[r - 1][0].bounds[slot] >= l.rows[r][0].bounds[slot];
      }
    }
  }

  // ---- why the gaps must be small ----

  /** Each live band begins no earlier than the one below ends, and ends no earlier than it begins. */
  predicate BandsInOrder(l: Ladder)
    requires l.Valid()
  {
    forall i :: 0 < i < Count(l) ==> F32Q8(l.axis[i - 1].hi) <= F32Q8(l.axis[i].lo) <= F32Q8(l.axis[i].hi)
  }

  /** A gain above the band below and not above band r selects band r. */
  lemma {:induction false} SelectsBand(l: Ladder, gain: int, r: nat, i: nat)
    requires l.Valid() && BandsInOrder(l) && i <= r && 0 < r < Count(l)
    requires F32Q8(l.axis[r - 1].hi) < gain <= F32Q8(l.axis[r].hi)
    ensures RowFrom(l, gain, i) == r
    decreases r - i
  {
    if i < r {
      EdgesRise(l, i, r - 1);
      SelectsBand(l, gain, r, i + 1);
    }
  }

  lemma {:induction false} EdgesRise(l: Ladder, i: nat, j: nat)
    requires l.Valid() && BandsInOrder(l) && i <= j < Count(l)
    ensures F32Q8(l.axis[i].hi) <= F32Q8(l.axis[j].hi)
    decreases j - i
  {
    if i < j {
      EdgesRise(l, i, j - 1);
    }
  }

  /** The 24-bit fraction of a gap that x is. */
  function Fraction(x: int, gap: int): int
    requires gap > 0
  {
    x * Q24 / gap
  }

  /** Just above a wide gap's lower end the weight truncates to zero; a little further up it does not. */
  lemma WideGapFractions(gap: nat)
    requires gap > Q24
    ensures Fraction(1, gap) == 0 && 1 < gap / Q24 + 1 < gap && 0 < Fraction(gap / Q24 + 1, gap) < Q24
  {
    var k := gap / Q24 + 1;
    assert k * Q24 >= gap;
    QuotientAtLeastOne(k * Q24, gap);
    FractionBelowOne(k, gap);
  }

  /** A blend stops short of a larger, positive end. */
  lemma BlendStopsShort(a: int, b: int, t: nat)
    requires 0 <= a < b && t < Q24
    ensures BlendS32(a, b, t) < b
  {
    MulMono(Q24 - t, a + 1, b);
    assert a * (Q24 - t) == (Q24 - t) * a && (Q24 - t) * (a + 1) == (Q24 - t) * a + (Q24 - t);
    assert (Q24 - t) * b == Q24 * b - b * t;
    MulNonNegative(a, Q24 - t);
    MulNonNegative(b, t);
    DividesBelow(a * (Q24 - t) + b * t, b);
  }

  lemma DividesBelow(x: nat, b: nat)
    requires x < Q24 * b
    ensures Truncate(x) < b
  {
  }

  /** Inside the gap below band r the weight is the part of the gap passed. */
  lemma BoundInGap(l: Ladder, r: nat, x: nat, slot: nat)
    requires l.Valid() && BandsInOrder(l) && l.interp != 0 && slot < 4 && 0 < r < Count(l)
    requires 0 < x < F32Q8(l.axis[r].lo) - F32Q8(l.axis[r - 1].hi)
    ensures var prev := F32Q8(l.axis[r - 1].hi);
            var w, b := Fraction(x, F32Q8(l.axis[r].lo) - prev), l.rows[r][0].bounds[slot];
            w >= 0 && BoundAt(l, prev + x, slot) == if w == 0 then b else BlendS32(l.rows[r - 1][0].bounds[slot], b, w)
  {
    hide F32Q8, Count, BlendS32;
    SelectsBand(l, F32Q8(l.axis[r - 1].hi) + x, r, 0);
  }

  lemma BoundDrops(l: Ladder, r: nat, k: nat, slot: nat)
    requires l.Valid() && BandsInOrder(l) && l.interp != 0 && slot < 4 && 0 < r < Count(l)
    requires 0 <= l.rows[r - 1][0].bounds[slot] < l.rows[r][0].bounds[slot]
    requires var gap := F32Q8(l.axis[r].lo) - F32Q8(l.axis[r - 1].hi);
             1 < k < gap && Fraction(1, gap) == 0 && 0 < Fraction(k, gap) < Q24
    ensures var prev := F32Q8(l.axis[r - 1].hi); BoundAt(l, prev + k, slot) < BoundAt(l, prev + 1, slot)
  {
    hide F32Q8, BoundAt, Count, BlendS32, BandsInOrder, Fraction;
    var w := Fraction(k, F32Q8(l.axis[r].lo) - F32Q8(l.axis[r - 1].hi));
    BoundInGap(l, r, 1, slot);
    BoundInGap(l, r, k, slot);
    BlendStopsShort(l.rows[r - 1][0].bounds[slot], l.rows[r][0].bounds[slot], w);
  }

  /** Across a wide gap an installed bound goes down as the gain goes up, though its column goes up. */
  lemma {:induction false} WideGapDropsBound(l: Ladder, r: nat, slot: nat) returns (k: nat)
    requires l.Valid() && BandsInOrder(l) && l.interp != 0 && slot < 4 && 0 < r < Count(l)
    requires F32Q8(l.axis[r].lo) - F32Q8(l.axis[r - 1].hi) > Q24
    requires 0 <= l.rows[r - 1][0].bounds[slot] < l.rows[r][0].bounds[slot]
    ensures var prev, gap := F32Q8(l.axis[r - 1].hi), F32Q8(l.axis[r].lo) - F32Q8(l.axis[r - 1].hi);
            k == gap / Q24 + 1 > 1 && BoundAt(l, prev + k, slot) < BoundAt(l, prev + 1, slot)
  {
    var gap := F32Q8(l.axis[r].lo) - F32Q8(l.axis[r - 1].hi);
    k := gap / Q24 + 1;
    WideGapFractions(gap);
    hide F32Q8, BoundAt, Count, Fraction;
    BoundDrops(l, r, k, slot);
  }

  /** The same axis under five rows whose bounds are the row numbers. */
  function Staircase(l: Ladder): (m: Ladder)
    requires l.Valid()
    ensures m.Valid() && m == l.(rows := m.rows) && Count(m) == Count(l) && ColumnRises(m, 0)
    ensures forall i :: 0 <= i < MAX_ROWS ==> m.rows[i][0].bounds[0] == i
  {
    l.(rows := seq(MAX_ROWS, i => [Record(0, [i, i, i, i])]))
  }

  /** The same axis, and a first bound that never goes down from row to row. */
  predicate RisesOn(m: Ladder, l: Ladder)
    requires l.Valid()
  {
    m.Valid() && m == l.(rows := m.rows) && ColumnRises(m, 0)
  }

  /**
   * The bound on the gaps is exact: on an interpolated axis whose bands are in order, every rising column installs
   * a rising bound if and only if no gap is wider than 2^24 Q8 counts.
   */
  lemma {:induction false} RisingIffGapsSmall(l: Ladder)
    requires l.Valid() && BandsInOrder(l) && l.interp != 0
    ensures (forall m: Ladder, g, h :: RisesOn(m, l) && g <= h ==> BoundAt(m, g, 0) <= BoundAt(m, h, 0)) <==>
            GapsSmall(l)
  {
    if GapsSmall(l) {
      forall m: Ladder, g, h | RisesOn(m, l) && g <= h
        ensures BoundAt(m, g, 0) <= BoundAt(m, h, 0)
      {
        SmallGapsRise(l, m, g, h);
      }
    } else {
      var m, g, h := WideGapBreaks(l);
      assert RisesOn(m, l) && BoundAt(m, h, 0) < BoundAt(m, g, 0);
    }
    hide *;
  }

  lemma SmallGapsRise(l: Ladder, m: Ladder, g: int, h: int)
    requires l.Valid() && GapsSmall(l) && RisesOn(m, l) && g <= h
    ensures BoundAt(m, g, 0) <= BoundAt(m, h, 0)
  {
    assert GapsSmall(m);
    hide F32Q8, BoundAt;
    BoundRises(m, g, h, 0);
  }

  lemma {:induction false} WideGapBreaks(l: Ladder) returns (m: Ladder, g: int, h: int)
    requires l.Valid() && BandsInOrder(l) && l.interp != 0 && !GapsSmall(l)
    ensures RisesOn(m, l) && g <= h && BoundAt(m, h, 0) < BoundAt(m, g, 0)
  {
    hide F32Q8, BoundAt, ColumnRises, BandsInOrder, RisesOn, Staircase, Count;
    StaircaseRises(l);
    var r :| 0 < r < Count(l) && F32Q8(l.axis[r].lo) - F32Q8(l.axis[r - 1].hi) > Q24;
    m := Staircase(l);
    hide *;
    var k := WideGapDropsBound(m, r, 0);
    g, h := F32Q8(l.axis[r - 1].hi) + 1, F32Q8(l.axis[r - 1].hi) + k;
  }

  lemma StaircaseRises(l: Ladder)
    requires l.Valid() && BandsInOrder(l)
    ensures BandsInOrder(Staircase(l)) && RisesOn(Staircase(l), l)
  {
    hide F32Q8, Staircase;
  }

  /** Bands [0, 0] and [2^17, 2^17] and a bound that is 0 in the first and 100 in the second. */
  function WideLadder(): (l: Ladder)
    ensures l.Valid()
  {
    var far := 0x4800_0000;
    Ladder(2, 1, 1, [Band(0, 0), Band(far, far), Band(far, far), Band(far, far), Band(far, far)],
           [[Record(0, [0, 1, 0, 1])], [Record(0, [100, 200, 100, 200])], [Record(0, [100, 200, 100, 200])],
            [Record(0, [100, 200, 100, 200])], [Record(0, [100, 200, 100, 200])]])
  }

  /** A gain one Q8 count higher brings its bound down from 100 to 0. */
  lemma {:induction false} WideGapBoundFalls()
    ensures var l := WideLadder(); ColumnRises(l, 0) && BoundAt(l, 1, 0) == 100 && BoundAt(l, 2, 0) == 0
  {
    var l := WideLadder();
    WideAxis();
    hide F32Q8, BlendS32;
    assert RowFrom(l, 1, 1) == RowFrom(l, 2, 1) == 1;
    assert Weight(l, 1) == 0 && Weight(l, 2) == 1;
    assert BoundAt(l, 2, 0) == BlendS32(0, 100, 1);
    BlendOfWide();
  }

  lemma BlendOfWide()
    ensures BlendS32(0, 100, 1) == 0
  {
  }

  lemma WideExponents()
    ensures Exponent(0) == -127 && Exponent(0x4800_0000) == 17 && Significand(0x4800_0000) == MANTISSA
    ensures Pow2(2) == 4
  {
  }

  lemma WideAxis()
    ensures F32Q8(0) == 0 && F32Q8(0x4800_0000) == 2 * Q24
  {
    WideExponents();
    hide Exponent, Significand, Pow2;
  }

  // ---- the windows stay open ----

  lemma AccumulatorsApart(a: int, b: int, c: int, d: int, t: nat)
    requires a < b && c < d && t <= Q24
    ensures (b * (Q24 - t) + d * t) - (a * (Q24 - t) + c * t) >= Q24
  {
    assert (b * (Q24 - t) + d * t) - (a * (Q24 - t) + c * t) == (b - a) * (Q24 - t) + (d - c) * t;
    MulMono(Q24 - t, 1, b - a);
    MulMono(t, 1, d - c);
    assert (Q24 - t) * (b - a) == (b - a) * (Q24 - t) && t * (d - c) == (d - c) * t;
  }

  /** Two accumulators at least one unit apart truncate to different values unless both fall inside (-1, 1). */
  lemma TruncatedApart(x: int, y: int)
    requires y - x >= Q24
    ensures Truncate(x) <= Truncate(y)
    ensures Truncate(x) < Truncate(y) <==> !(x > -Q24 && y < Q24)
  {
  }

  /**
   * Exactly when a blended window keeps a positive width, its two records' windows being positive: unless both
   * blended accumulators truncate to zero.
   */
  lemma {:induction false} WindowOpenIff(a: int, b: int, c: int, d: int, t: nat)
    requires a < b && c < d && t <= Q24
    ensures BlendS32(a, c, t) < BlendS32(b, d, t) <==>
            !(a * (Q24 - t) + c * t > -Q24 && b * (Q24 - t) + d * t < Q24)
  {
    AccumulatorsApart(a, b, c, d, t);
    TruncatedApart(a * (Q24 - t) + c * t, b * (Q24 - t) + d * t);
  }

  /** Two windows one count wide, either side of zero, blend half way to an empty one. */
  lemma {:induction false} NegativeBoundsCanCloseAWindow()
    ensures BlendS32(-1, 0, Q24 / 2) == BlendS32(0, 1, Q24 / 2) == 0
  {
  }

  /** Both windows of every live record are positive, whatever the signs of their bounds. */
  predicate WindowsPositive(l: Ladder)
    requires l.Valid()
  {
    forall i :: 0 <= i < Count(l) ==> var b := l.rows[i][0].bounds; b[0] < b[1] && b[2] < b[3]
  }

  /** The gain is blended, and the two accumulators of the window at slot both truncate to zero. */
  predicate Closes(l: Ladder, gain: int, slot: nat)
    requires l.Valid() && slot < 3
  {
    var r, t := RowOf(l, gain), Weight(l, gain);
    t > 0 &&
    var p, q := l.rows[r - 1][0].bounds, l.rows[r][0].bounds;
    p[slot] * (Q24 - t) + q[slot] * t > -Q24 && p[slot + 1] * (Q24 - t) + q[slot + 1] * t < Q24
  }

  lemma {:induction false} WindowClosesIff(l: Ladder, gain: int, slot: nat)
    requires l.Valid() && WindowsPositive(l) && slot in {0, 2}
    ensures BoundAt(l, gain, slot) <= BoundAt(l, gain, slot + 1)
    ensures BoundAt(l, gain, slot) == BoundAt(l, gain, slot + 1) <==> Closes(l, gain, slot)
  {
    var r, t := RowOf(l, gain), Weight(l, gain);
    var q := l.rows[r][0].bounds;
    assert q[slot] < q[slot + 1];
    if t > 0 {
      var p := l.rows[r - 1][0].bounds;
      assert p[slot] < p[slot + 1];
      hide RowOf, Weight, Count, WindowsPositive, Truncate;
      AccumulatorsApart(p[slot], p[slot + 1], q[slot], q[slot + 1], t);
      TruncatedApart(p[slot] * (Q24 - t) + q[slot] * t, p[slot + 1] * (Q24 - t) + q[slot + 1] * t);
    }
  }

  /**
   * Exactly when the division fails over live records with positive windows of any sign: the gain is blended and
   * the accumulators of one of the two windows both truncate to zero.
   */
  lemma {:induction false} DivisionFailsIff(l: Ladder, gain: int)
    requires l.Valid() && WindowsPositive(l)
    ensures Installed(l, gain).None? <==> Closes(l, gain, 0) || Closes(l, gain, 2)
  {
    WindowClosesIff(l, gain, 0);
    WindowClosesIff(l, gain, 2);
    hide BoundAt, Closes, GainAt;
  }

  /** Bands [0, 0] and [2, 2] in Q8, and windows one count wide either side of zero. */
  function SignedLadder(): (l: Ladder)
    ensures l.Valid() && WindowsPositive(l)
  {
    var near := 0x3C00_0000;
    Ladder(2, 1, 1, [Band(0, 0), Band(near, near), Band(near, near), Band(near, near), Band(near, near)],
           [[Record(0, [-1, 0, -1, 0])], [Record(0, [0, 1, 0, 1])], [Record(0, [0, 1, 0, 1])],
            [Record(0, [0, 1, 0, 1])], [Record(0, [0, 1, 0, 1])]])
  }

  lemma NearExponent()
    ensures Exponent(0) == -127 && Exponent(0x3C00_0000) == -7 && Significand(0x3C00_0000) == MANTISSA
  {
  }

  lemma NearAxis()
    ensures F32Q8(0) == 0 && F32Q8(0x3C00_0000) == 2
  {
    NearExponent();
    Pow2Add(9, 9);
    Pow2Add(18, 4);
    assert Pow2(4) == 16 && Pow2(9) == 32 * Pow2(4);
    hide Exponent, Significand, Pow2;
  }

  /** Half way between the two bands both windows are empty and the division fails. */
  lemma {:induction false} SignedLadderFails()
    ensures Installed(SignedLadder(), 1).None?
  {
    var l := SignedLadder();
    NearAxis();
    hide F32Q8;
    assert RowFrom(l, 1, 1) == 1 && Weight(l, 1) == Q24 / 2;
    assert Closes(l, 1, 0);
    hide Closes, Installed;
    DivisionFailsIff(l, 1);
  }

  /** Every live record's bounds are non-negative and both its windows positive. */
  predicate RecordsOpen(l: Ladder)
    requires l.Valid()
  {
    forall i :: 0 <= i < Count(l) ==>
      var b := l.rows[i][0].bounds;
      0 <= b[0] < b[1] && 0 <= b[2] < b[3]
  }

  lemma {:induction false} WindowStaysOpen(l: Ladder, gain: int, slot: nat)
    requires l.Valid() && RecordsOpen(l) && slot in {0, 2}
    ensures 0 <= BoundAt(l, gain, slot) < BoundAt(l, gain, slot + 1)
  {
    var r, t := RowOf(l, gain), Weight(l, gain);
    if t > 0 {
      var p, q := l.rows[r - 1][0].bounds, l.rows[r][0].bounds;
      BlendBetween(p[slot], q[slot], t, t);
      MulNonNegative(p[slot], Q24 - t);
      MulNonNegative(q[slot], t);
      AccumulatorsApart(p[slot], p[slot + 1], q[slot], q[slot + 1], t);
      WindowOpenIff(p[slot], p[slot + 1], q[slot], q[slot + 1], t);
    }
  }

  /**
   * Ladder safety: over non-negative records with positive windows, for every gain, both divisions are defined,
   * and each reciprocal is 1024 divided by its own blended window, so that 1024 lies within one window of it.
   */
  lemma {:induction false} ReciprocalsDefined(l: Ladder, gain: int)
    requires l.Valid() && RecordsOpen(l)
    ensures Installed(l, gain).Some?
    ensures var w := Installed(l, gain).value;
            && |w| == 7 && w[0] == GainAt(l, gain) / 2048 % 128
            && (forall i :: 0 <= i < 4 ==> w[i + 1] == BoundAt(l, gain, i))
            && 0 <= w[1] < w[2] && 0 <= w[3] < w[4]
            && w[5] * (w[2] - w[1]) <= NUMERATOR < (w[5] + 1) * (w[2] - w[1])
            && w[6] * (w[4] - w[3]) <= NUMERATOR < (w[6] + 1) * (w[4] - w[3])
  {
    hide *;
    WindowStaysOpen(l, gain, 0);
    WindowStaysOpen(l, gain, 2);
    InstalledWords(l, gain);
    QuotientBounds(NUMERATOR, BoundAt(l, gain, 1) - BoundAt(l, gain, 0));
    QuotientBounds(NUMERATOR, BoundAt(l, gain, 3) - BoundAt(l, gain, 2));
  }

  lemma InstalledWords(l: Ladder, gain: int)
    requires l.Valid() && BoundAt(l, gain, 0) != BoundAt(l, gain, 1) && BoundAt(l, gain, 2) != BoundAt(l, gain, 3)
    ensures Installed(l, gain).Some?
    ensures var w := Installed(l, gain).value;
            && |w| == 7 && w[0] == GainAt(l, gain) / 2048 % 128
            && (forall i :: 0 <= i < 4 ==> w[i + 1] == BoundAt(l, gain, i))
            && w[1] == BoundAt(l, gain, 0) && w[2] == BoundAt(l, gain, 1)
            && w[3] == BoundAt(l, gain, 2) && w[4] == BoundAt(l, gain, 3)
            && w[5] == FloorDiv(NUMERATOR, w[2] - w[1]) && w[6] == FloorDiv(NUMERATOR, w[4] - w[3])
  {
    hide BoundAt, GainAt, FloorDiv;
  }

  lemma QuotientBounds(n: int, w: int)
    requires w > 0
    ensures FloorDiv(n, w) * w <= n < (FloorDiv(n, w) + 1) * w
  {
    assert n == w * (n / w) + n % w;
  }

  /** Whatever the signs, the last two words are 1024 over the two windows, rounded down. */
  lemma {:induction false} ReciprocalsRoundDown(l: Ladder, gain: int)
    requires l.Valid() && Installed(l, gain).Some?
    ensures var w := Installed(l, gain).value;
            && |w| == 7
            && RoundsDown(w[5], 1024, w[2] - w[1]) && RoundsDown(w[6], 1024, w[4] - w[3])
  {
    var b := seq(4, i requires 0 <= i < 4 => BoundAt(l, gain, i));
    FloorDivIs(1024, b[1] - b[0]);
    FloorDivIs(1024, b[3] - b[2]);
    hide BoundAt, GainAt, FloorDiv, RoundsDown;
  }

  /** The integer q is the quotient of n by d rounded down: no larger, and less than one away. */
  predicate RoundsDown(q: int, n: int, d: int) {
    (d > 0 && q * d <= n < q * d + d) || (d < 0 && q * d >= n > q * d + d)
  }

  lemma FloorDivIs(n: int, d: int)
    requires d != 0
    ensures RoundsDown(FloorDiv(n, d), n, d)
  {
    if d > 0 {
      DivideDown(n, d);
    } else {
      DivideDown(-n, -d);
      assert -n / -d * -d == -(-n / -d * d);
    }
  }

  // ---- the fixed-point conversion ----

  lemma {:induction false} Pow2Add(a: nat, b: nat)
    ensures Pow2(a + b) == Pow2(a) * Pow2(b)
  {
    if a > 0 {
      Pow2Add(a - 1, b);
      ProductRegroup(2, Pow2(a - 1), Pow2(b));
    }
  }

  lemma ProductRegroup(a: int, b: int, c: int)
    ensures a * (b * c) == (a * b) * c
  {
  }

  /** Significand times 2^(exponent - 15), scaled up by 2^31 to stay whole: what the Q8 value truncates. */
  function Scaled(bits: nat): nat
    requires -16 <= Exponent(bits) <= 31
  {
    Significand(bits) * Pow2(Exponent(bits) + 16)
  }

  lemma DivideProduct(m: nat, a: nat, b: nat)
    requires a > 0 && b > 0
    ensures m * b / (a * b) == m / a
  {
    var q, r := m / a, m % a;
    assert m == a * q + r;
    assert m * b == (a * b) * q + r * b;
    MulMono(b, r + 1, a);
    assert b * (r + 1) == r * b + b && b * a == a * b;
    MulNonNegative(r, b);
    DivModUnique(m * b, a * b, q, r * b);
  }

  lemma Q8InRange(bits: nat)
    requires bits < SIGN && -16 <= Exponent(bits) <= 31
    ensures var e, m := Exponent(bits), Significand(bits);
            F32Q8(bits) == if e >= 15 then m * Pow2(e - 15) else m / Pow2(15 - e)
  {
    assert Pow2(0) == 1;
    hide Exponent, Significand, Pow2;
  }

  /** In range, the Q8 value is the scaled significand over 2^31. */
  lemma Q8IsScaled(bits: nat)
    requires bits < SIGN && -16 <= Exponent(bits) <= 31
    ensures F32Q8(bits) == Scaled(bits) / Pow2(31)
  {
    hide Pow2, Exponent, Significand, F32Q8;
    Q8InRange(bits);
    var e, m := Exponent(bits), Significand(bits);
    if e >= 15 {
      Pow2Add(e - 15, 31);
      ProductRegroup(m, Pow2(e - 15), Pow2(31));
      DivideExact(m * Pow2(e - 15), Pow2(31));
    } else {
      Pow2Add(15 - e, e + 16);
      DivideProduct(m, Pow2(15 - e), Pow2(e + 16));
    }
  }

  lemma DivideExact(m: nat, a: nat)
    requires a > 0
    ensures m * a / a == m
  {
    DivModUnique(m * a, a, m, 0);
  }

  lemma DivideMonotone(x: nat, y: nat, a: nat)
    requires x <= y && a > 0
    ensures x / a <= y / a
  {
    var p, q := x / a, y / a;
    assert x == a * p + x % a && y == a * q + y % a;
    MulMono(a, q + 1, p);
    assert a * (q + 1) == a * q + a;
  }

  lemma {:induction false} Pow2Monotone(a: nat, b: nat)
    requires a <= b
    ensures Pow2(a) <= Pow2(b)
  {
    if a < b {
      Pow2Monotone(a, b - 1);
    }
  }

  lemma SameExponent(a: nat, b: nat)
    requires a <= b < SIGN && Exponent(a) == Exponent(b)
    ensures Significand(a) <= Significand(b)
  {
    assert a / MANTISSA < 256 && b / MANTISSA < 256 && a / MANTISSA == b / MANTISSA;
    assert a == MANTISSA * (a / MANTISSA) + a % MANTISSA && b == MANTISSA * (b / MANTISSA) + b % MANTISSA;
  }

  /** A larger exponent outweighs any significand. */
  lemma LargerExponent(m: nat, n: nat, e: nat, f: nat)
    requires m < 2 * MANTISSA && n >= MANTISSA && e < f
    ensures m * Pow2(e) <= n * Pow2(f)
  {
    Pow2Monotone(e + 1, f);
    var p, q := Pow2(e), Pow2(f);
    assert 2 * p <= q;
    hide *;
    MulMono(p, m, 2 * MANTISSA);
    MulMono(q, MANTISSA, n);
  }

  lemma ScaledMonotone(a: nat, b: nat)
    requires a <= b < SIGN && -16 <= Exponent(a) && Exponent(b) <= 31
    ensures Exponent(a) <= Exponent(b) && Scaled(a) <= Scaled(b)
  {
    ExponentMonotone(a, b);
    hide Pow2, Exponent, Significand;
    if Exponent(a) == Exponent(b) {
      SameExponent(a, b);
      MulMono(Pow2(Exponent(a) + 16), Significand(a), Significand(b));
    } else {
      LargerExponent(Significand(a), Significand(b), Exponent(a) + 16, Exponent(b) + 16);
    }
  }

  lemma {:induction false} Pow2Values()
    ensures Pow2(9) == 512 && Pow2(31) == SIGN
  {
    Pow2Add(9, 9);
    Pow2Add(18, 13);
    assert Pow2(4) == 16 && Pow2(9) == 32 * Pow2(4) && Pow2(13) == 16 * Pow2(9);
  }

  /** From exponent 24 on the unsaturated value already exceeds the saturated one. */
  lemma LargeValues(bits: nat)
    requires bits < SIGN && Exponent(bits) <= 31
    ensures F32Q8(bits) > SATURATED <==> Exponent(bits) >= 24
  {
    var e, m := Exponent(bits), Significand(bits);
    Pow2Values();
    if e >= 24 {
      Pow2Monotone(9, e - 15);
      MulMono(m, 512, Pow2(e - 15));
    } else if e >= 15 {
      Pow2Monotone(e - 15, 8);
      MulMono(m, Pow2(e - 15), 256);
      assert Pow2(9) == 2 * Pow2(8);
    } else if e > -17 {
      assert m / Pow2(15 - e) <= m by {
        QuotientAtMost(m, Pow2(15 - e));
      }
    }
  }

  lemma QuotientAtMost(m: nat, a: nat)
    requires a > 0
    ensures m / a <= m
  {
    assert m == a * (m / a) + m % a;
    MulMono(m / a, 1, a);
    assert (m / a) * a == a * (m / a);
  }

  /**
   * Exactly where the conversion keeps order: everywhere on non-negative patterns, except from exponents 24..31,
   * which overshoot 32 bits unclamped, to exponents above 31, which are clamped.
   */
  lemma {:induction false} ConversionMonotoneIff(a: nat, b: nat)
    requires a <= b < SIGN
    ensures F32Q8(a) <= F32Q8(b) <==> !(24 <= Exponent(a) <= 31 && Exponent(b) > 31)
  {
    ExponentMonotone(a, b);
    OutOfRange(a);
    OutOfRange(b);
    hide *;
    if Exponent(b) > 31 {
      if Exponent(a) <= 31 {
        LargeValues(a);
      }
    } else if Exponent(a) >= -16 {
      Q8IsScaled(a);
      Q8IsScaled(b);
      ScaledMonotone(a, b);
      DivideMonotone(Scaled(a), Scaled(b), Pow2(31));
    }
  }

  lemma ExponentMonotone(a: nat, b: nat)
    requires a <= b < SIGN
    ensures Exponent(a) <= Exponent(b)
  {
    DivideMonotone(a, b, MANTISSA);
  }

  lemma OutOfRange(bits: nat)
    requires bits < SIGN
    ensures Exponent(bits) > 31 ==> F32Q8(bits) == SATURATED
    ensures Exponent(bits) < -16 ==> F32Q8(bits) == 0
  {
  }
}
