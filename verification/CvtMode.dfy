/** drm_cvt_mode of drm_modes.c: timings by the VESA CVT formulas in integer arithmetic, and
    mode_is_rb of drm_edid.c, which recognises reduced blanking. */
module CvtMode {
  import opened Arithmetic
  import opened ModeEqual

  const U32 := 0x1_0000_0000

  const PHSYNC := 1
  const NHSYNC := 2
  const PVSYNC := 4
  const NVSYNC := 8
  const INTERLACE := 16

  datatype Request = Request(hdisplay: nat, vdisplay: nat, vrefresh: nat, reduced: bool, interlaced: bool,
                             margins: bool)

  function FieldRate(q: Request): nat {
    (if q.vrefresh == 0 then 60 else q.vrefresh) * if q.interlaced then 2 else 1
  }

  /** Whole character cells */
  function Cells(x: nat): nat {
    x - x % 8
  }

  lemma CellsFit(x: nat)
    ensures Cells(x) % 8 == 0
  {
  }

  /** The active pixels, borders included. */
  function Width(q: Request): nat {
    var rounded := Cells(q.hdisplay);
    rounded + 2 * if q.margins then Cells(rounded * 18 / 1000) else 0
  }

  function LinesPerField(q: Request): nat {
    if q.interlaced then q.vdisplay / 2 else q.vdisplay
  }

  function VMargin(q: Request): nat {
    if q.margins then LinesPerField(q) * 18 / 1000 else 0
  }

  /** The time per second that is left for lines, in nanoseconds; full blanking counts half lines.  At
      high rates nothing is left. */
  function LineTime(q: Request): int {
    if q.reduced then 1_000_000_000 - 460_000 * FieldRate(q)
    else (1_000_000_000 - 550_000 * FieldRate(q)) * 2
  }

  function LineCount(q: Request): nat {
    if q.reduced then LinesPerField(q) + 2 * VMargin(q)
    else (LinesPerField(q) + 2 * VMargin(q) + 3) * 2 + if q.interlaced then 1 else 0
  }

  function LinesPerSecond(q: Request): nat {
    LineCount(q) * FieldRate(q)
  }

  /** The estimated duration of a line, in nanoseconds, in unsigned 32-bit arithmetic. */
  function HPeriod(q: Request): nat
    requires LinesPerSecond(q) % U32 > 0
  {
    Quotient(LineTime(q) % U32, LinesPerSecond(q) % U32)
  }

  /** The share of the line that is blanked, in thousandths of a percent, in unsigned 32-bit
      arithmetic. */
  function Percentage(hperiod: nat): nat {
    var p := (30_000 - 300 * hperiod / 1000) % U32;
    if p < 20_000 then 20_000 else p
  }

  /** For lines longer than 100003 ns the subtraction wraps round; up to there between a fifth and three
      tenths of the line is blanked. */
  lemma PercentageWraps(hperiod: nat)
    requires 300 * hperiod < U32
    ensures 20_000 <= Percentage(hperiod) <= 30_000 <==> hperiod <= 100_003
  {
  }

  function Share(width: nat, p: nat): nat
    requires p < 100_000
  {
    Quotient(width * p, 100_000 - p)
  }

  /** ... cut to two character cells. */
  function Blank(width: nat, p: nat): nat
    requires p < 100_000
  {
    Share(width, p) - Share(width, p) % 16
  }

  // ---------------------------------------------------------------- horizontal sync

  function SyncEnd(width: nat, blank: nat): nat {
    width + blank / 2
  }

  function SyncWidth(width: nat, blank: nat): nat {
    (width + blank) * 8 / 100
  }

  /** Rounded up to the next character cell, even from a cell boundary. */
  function SyncStart(width: nat, blank: nat): int {
    var s := SyncEnd(width, blank) - SyncWidth(width, blank);
    s + 8 - s % 8
  }

  predicate HorizontalOrder(width: nat, blank: nat) {
    width < SyncStart(width, blank) < SyncEnd(width, blank) < width + blank
  }

  /** Blanking takes between a fifth and three tenths of the line, before it is rounded to two
      character cells. */
  lemma BlankBounds(width: nat, p: nat)
    requires 20_000 <= p <= 30_000
    ensures var b := Blank(width, p); b % 16 == 0 && 16 * (width / 64) <= b && 7 * b <= 3 * width
  {
    hide Share;
    AtLeastQuarter(width, p);
    AtMostThreeSevenths(width, p);
    RoundedCells(width, Share(width, p));
  }

  lemma RoundedCells(width: nat, b: nat)
    requires width / 4 <= b && 7 * b <= 3 * width
    ensures 16 * (width / 64) <= b - b % 16 && (b - b % 16) % 16 == 0 && 7 * (b - b % 16) <= 3 * width
  {
  }

  lemma AtLeastQuarter(width: nat, p: nat)
    requires 20_000 <= p < 100_000
    ensures width / 4 <= Share(width, p)
  {
    var q := width / 4;
    Times(q, 100_000 - p, 4 * p);
    Times(p, 4 * q, width);
    assert q * (4 * p) == p * (4 * q);
    AtLeast(width * p, 100_000 - p, q);
  }

  lemma AtMostThreeSevenths(width: nat, p: nat)
    requires p <= 30_000
    ensures 7 * Share(width, p) <= 3 * width
  {
    var d := 100_000 - p;
    var b := Quotient(width * p, d);
    Times(width, 7 * p, 3 * d);
    FloorBelow(width * p, d);
    assert 7 * (b * d) <= 7 * (width * p) == width * (7 * p) <= width * (3 * d);
    Cancel(7 * b, 3 * width, d);
  }

  lemma FloorBelow(x: nat, d: nat)
    requires d > 0
    ensures Quotient(x, d) * d <= x
  {
  }

  lemma Cancel(a: nat, b: nat, d: nat)
    requires d > 0 && a * d <= b * d
    ensures a <= b
  {
  }

  lemma Times(c: nat, a: nat, b: nat)
    requires a <= b
    ensures c * a <= c * b
  {
  }

  lemma AtLeast(x: nat, d: nat, q: nat)
    requires d > 0 && q * d <= x
    ensures q <= Quotient(x, d)
  {
    if x / d < q {
      TimesGrows(d, x / d, q);
    }
  }

  /** The start of the sync pulse: its width is rounded down to a cell, and a whole number of cells
      loses one. */
  lemma CellRound(e: nat, w: nat)
    requires e % 8 == 0
    ensures var s := e - w; s + 8 - s % 8 == e - 8 * (w / 8) + if w % 8 == 0 then 8 else 0
  {
  }

  lemma CellFacts(width: nat, half: nat, w: nat)
    requires width % 8 == 0 && half % 8 == 0
    ensures var e := width + half; var start := e - w + 8 - (e - w) % 8;
            && (w <= half ==> width < start) && (w >= 9 <==> start < e)
            && e - start == 8 * (w / 8) - (if w % 8 == 0 then 8 else 0) && start % 8 == 0
  {
    CellRound(width + half, w);
  }

  lemma SyncCells(width: nat, blank: nat)
    requires width % 8 == 0 && blank % 16 == 0
    ensures var w := SyncWidth(width, blank);
            && (w <= blank / 2 ==> width < SyncStart(width, blank))
            && (w >= 9 <==> SyncStart(width, blank) < SyncEnd(width, blank))
            && SyncEnd(width, blank) - SyncStart(width, blank) == 8 * (w / 8) - if w % 8 == 0 then 8 else 0
    ensures SyncStart(width, blank) % 8 == 0
  {
    hide SyncWidth;
    CellFacts(width, blank / 2, SyncWidth(width, blank));
  }

  /** From 192 pixels on the sync pulse lies inside the blanking, whatever the line period. */
  lemma WideIsOrdered(width: nat, p: nat)
    requires width % 8 == 0 && width >= 192 && 20_000 <= p <= 30_000
    ensures HorizontalOrder(width, Blank(width, p))
  {
    hide Blank, SyncStart, SyncWidth;
    BlankBounds(width, p);
    InsideBlanking(width, Blank(width, p));
    SyncCells(width, Blank(width, p));
  }

  lemma InsideBlanking(width: nat, blank: nat)
    requires width % 8 == 0 && blank % 16 == 0 && width >= 192 && 16 * (width / 64) <= blank
    ensures 9 <= SyncWidth(width, blank) <= blank / 2 && blank >= 16
  {
    var k := width / 64;
    assert width < 64 * k + 64 && k >= 3;
    PercentWithinHalf((width + blank) * 8, blank);
  }

  lemma PercentWithinHalf(t: nat, b: nat)
    requires 900 <= t <= 50 * b
    ensures 9 <= t / 100 <= b / 2 && b >= 16
  {
  }

  /** Below that, the widths from 128 to 176 are safe as well and no others: the narrower ones and 184
      fail at the smallest share. */
  lemma OrderedWidths(width: nat)
    requires width % 8 == 0
    ensures (forall p :: 20_000 <= p <= 30_000 ==> HorizontalOrder(width, Blank(width, p)))
            <==> width >= 192 || 128 <= width <= 176
  {
    hide HorizontalOrder, Blank;
    if width >= 192 {
      forall p | 20_000 <= p <= 30_000
        ensures HorizontalOrder(width, Blank(width, p))
      {
        WideIsOrdered(width, p);
      }
    } else if 128 <= width <= 176 {
      forall p | 20_000 <= p <= 30_000
        ensures HorizontalOrder(width, Blank(width, p))
      {
        MediumIsOrdered(width, p);
      }
    } else {
      NarrowFails(width);
      assert !HorizontalOrder(width, Blank(width, 20_000));
    }
  }

  lemma MediumIsOrdered(width: nat, p: nat)
    requires width % 8 == 0 && 128 <= width <= 176 && 20_000 <= p <= 30_000
    ensures HorizontalOrder(width, Blank(width, p))
  {
    hide Blank, SyncStart;
    BlankBounds(width, p);
    SyncCells(width, Blank(width, p));
    assert 16 * (width / 64) == 32;
  }

  lemma NarrowFails(width: nat)
    requires width % 8 == 0 && (width <= 120 || width == 184)
    ensures !HorizontalOrder(width, Blank(width, 20_000))
  {
    hide SyncStart, Share, Blank;
    LeastBlank(width);
    var b := 16 * (width / 64);
    if width == 184 {
      StartAt184();
    } else if width >= 64 {
      assert b == 16;
      SyncCells(width, 16);
    }
  }

  lemma LeastBlank(width: nat)
    requires width % 8 == 0
    ensures Blank(width, 20_000) == 16 * (width / 64)
  {
    assert Share(width, 20_000) == width / 4;
    hide Share;
  }

  lemma StartAt184()
    ensures SyncStart(184, 32) == 184
  {
  }

  // ---------------------------------------------------------------- the whole mode

  /** The width of the vertical sync tells the aspect ratio. */
  function VSync(hdisplay: nat, vdisplay: nat): (lines: nat)
    ensures 4 <= lines <= 10
  {
    if vdisplay % 3 == 0 && vdisplay * 4 / 3 == hdisplay then 4
    else if vdisplay % 9 == 0 && vdisplay * 16 / 9 == hdisplay then 5
    else if vdisplay % 10 == 0 && vdisplay * 16 / 10 == hdisplay then 6
    else if vdisplay % 4 == 0 && vdisplay * 5 / 4 == hdisplay then 7
    else if vdisplay % 9 == 0 && vdisplay * 15 / 9 == hdisplay then 7
    else 10
  }

  /** The width of the sync pulse tells the aspect ratio that was asked for: 4:3, 16:9, 16:10, or 5:4 and
      15:9, and 10 for any other.  16:10 and 15:9 count only for heights divisible by 10 and by 9. */
  lemma VSyncByRatio(h: nat, v: nat)
    requires v > 0
    ensures VSync(h, v) == 4 <==> 3 * h == 4 * v
    ensures VSync(h, v) == 5 <==> 9 * h == 16 * v
    ensures VSync(h, v) == 6 <==> 10 * h == 16 * v && v % 10 == 0
    ensures VSync(h, v) == 7 <==> 4 * h == 5 * v || (9 * h == 15 * v && v % 9 == 0)
    ensures VSync(h, v) in {4, 5, 6, 7, 10}
  {
    RatioOf3(h, v);
    RatioOf4(h, v);
    RatioOf9(h, v, 16);
    RatioOf9(h, v, 15);
    RatioOf10(h, v);
    Sixteenth(h, v);
  }

  lemma Exactly(v: nat, d: nat, k: nat, r: nat)
    requires d > 0 && v == d * k
    ensures v % d == 0 && Quotient(v * r, d) == k * r && v * r == d * (k * r)
  {
    RemainderIs(v, d, k, 0);
    assert v * r == d * (k * r);
    RemainderIs(v * r, d, k * r, 0);
  }

  lemma RatioOf3(h: nat, v: nat)
    ensures v % 3 == 0 && v * 4 / 3 == h <==> 3 * h == 4 * v
  {
    if 3 * h == 4 * v {
      assert v == 3 * (h - v);
      Exactly(v, 3, h - v, 4);
    } else if v % 3 == 0 {
      Exactly(v, 3, v / 3, 4);
    }
  }

  lemma RatioOf4(h: nat, v: nat)
    ensures v % 4 == 0 && v * 5 / 4 == h <==> 4 * h == 5 * v
  {
    if 4 * h == 5 * v {
      assert v == 4 * (h - v);
      Exactly(v, 4, h - v, 5);
    } else if v % 4 == 0 {
      Exactly(v, 4, v / 4, 5);
    }
  }

  lemma RatioOf9(h: nat, v: nat, r: nat)
    requires r == 15 || r == 16
    ensures v % 9 == 0 && v * r / 9 == h <==> v % 9 == 0 && 9 * h == r * v
  {
    if v % 9 == 0 {
      Exactly(v, 9, v / 9, r);
    }
  }

  lemma Sixteenth(h: nat, v: nat)
    ensures 9 * h == 16 * v ==> v % 9 == 0
  {
    if 9 * h == 16 * v {
      assert v == 9 * (4 * h - 7 * v);
      RemainderIs(v, 9, 4 * h - 7 * v, 0);
    }
  }

  lemma RatioOf10(h: nat, v: nat)
    ensures v % 10 == 0 && v * 16 / 10 == h <==> v % 10 == 0 && 10 * h == 16 * v
  {
    if v % 10 == 0 {
      Exactly(v, 10, v / 10, 16);
    }
  }

  /** mode_is_rb */
  predicate IsReducedBlanking(m: Mode) {
    m.htotal - m.hdisplay == 160 && m.hsyncEnd - m.hdisplay == 80 && m.hsyncEnd - m.hsyncStart == 32
    && m.vsyncStart - m.vdisplay == 3
  }

  predicate WellFormed(m: Mode) {
    && m.hdisplay < m.hsyncStart < m.hsyncEnd < m.htotal
    && m.vdisplay < m.vsyncStart < m.vsyncEnd < m.vtotal
  }

  /** The line period is the divisor of everything that follows: it is 0, and the code divides by 0,
      exactly when the time left, as an unsigned number, has no nanosecond for each line. */
  lemma PeriodIsZero(q: Request)
    requires LinesPerSecond(q) % U32 > 0
    ensures HPeriod(q) == 0 <==> LineTime(q) % U32 < LinesPerSecond(q) % U32
  {
    hide LineTime, LinesPerSecond;
    var x, d := LineTime(q) % U32, LinesPerSecond(q) % U32;
    if x >= d {
      AtLeast(x, d, 1);
    } else {
      RemainderIs(x, d, 0, x);
    }
  }

  /** Time is left for lines up to a field rate of 1818 Hz, or 2173 Hz with reduced blanking. */
  lemma TimeIsLeft(q: Request)
    ensures 0 <= LineTime(q) <==> FieldRate(q) <= if q.reduced then 2173 else 1818
  {
    hide FieldRate;
  }

  /** For as many lines as an unsigned int can count, it is the true period if and only if time is left:
      a negative time is taken for a large one. */
  lemma PeriodIsTrue(q: Request)
    requires 0 < LinesPerSecond(q) < U32
    ensures HPeriod(q) == LineTime(q) / LinesPerSecond(q) <==> 0 <= LineTime(q)
  {
    AtMostTwoSeconds(q);
    hide LineTime, LinesPerSecond;
    var x, d := LineTime(q), LinesPerSecond(q);
    if x < 0 {
      NegativeQuotient(x, d);
    }
  }

  lemma AtMostTwoSeconds(q: Request)
    ensures LineTime(q) <= 2_000_000_000
  {
    hide FieldRate;
  }

  lemma NegativeQuotient(x: int, d: nat)
    requires x < 0 < d
    ensures x / d < 0
  {
  }

  /** 640x480 at 1900 Hz: no time is left, but the code computes a period of 2291 ns. */
  lemma FalsePeriod()
    ensures var q := Request(640, 480, 1900, false, false, false);
            LineTime(q) < 0 && LinesPerSecond(q) % U32 > 0 && HPeriod(q) == 2291
  {
    var q := Request(640, 480, 1900, false, false, false);
    assert FieldRate(q) == 1900 && LineTime(q) == -90_000_000 && LineCount(q) == 966;
    assert LinesPerSecond(q) == 1_835_400 && LineTime(q) % U32 == 4_204_967_296;
  }

  /** A blanking of 160 pixels out of a share of at most three tenths means a wide line, and so a sync
      pulse that is wider than 32 pixels. */
  lemma NotReduced(width: nat, p: nat)
    requires width % 8 == 0 && 20_000 <= p <= 30_000 && Blank(width, p) == 160
    ensures SyncEnd(width, 160) - SyncStart(width, 160) != 32
  {
    hide Blank, SyncStart;
    BlankBounds(width, p);
    SyncCells(width, 160);
    assert SyncWidth(width, 160) >= 42;
  }

  /** A request for which the code neither divides by 0 nor wraps the blanking percentage. */
  ghost predicate Computable(q: Request) {
    && LinesPerSecond(q) % U32 > 0 && HPeriod(q) > 0
    && 300 * HPeriod(q) < U32
    && (q.reduced || HPeriod(q) <= 100_003)
  }

  method HorizontalFull(width: nat, hperiod: nat) returns (total: nat, syncStart: int, syncEnd: int)
    requires width % 8 == 0 && hperiod <= 100_003
    ensures 20_000 <= Percentage(hperiod) <= 30_000 && total == width + Blank(width, Percentage(hperiod))
    ensures width >= 192 ==> width < syncStart < syncEnd < total
    ensures width <= total && 7 * (total - width) <= 3 * width && 16 * (width / 64) <= total - width
    ensures !(total - width == 160 && syncEnd - width == 80 && syncEnd - syncStart == 32)
    ensures syncEnd == width + (total - width) / 2
    ensures total * 8 / 100 - 8 <= syncEnd - syncStart < total * 8 / 100
  {
    hide Blank, SyncStart, SyncWidth, Percentage;
    var p := Percentage(hperiod);
    PercentageWraps(hperiod);
    var blank := Blank(width, p);
    total := width + blank;
    syncEnd := width + blank / 2;
    syncStart := syncEnd - SyncWidth(width, blank);
    syncStart := syncStart + 8 - syncStart % 8;
    BlankBounds(width, p);
    SyncCells(width, blank);
    SyncIs(width, blank, syncStart);
    if width >= 192 {
      WideIsOrdered(width, p);
    }
    if blank == 160 {
      NotReduced(width, p);
    }
  }

  /** The pulse takes up to 8 per cent of the line, in character cells. */
  lemma SyncIs(width: nat, blank: nat, start: int)
    requires width % 8 == 0 && blank % 16 == 0
    requires var s := width + blank / 2 - SyncWidth(width, blank); start == s + 8 - s % 8
    ensures start == SyncStart(width, blank)
    ensures var w := (width + blank) * 8 / 100; w - 8 <= width + blank / 2 - start < w
  {
    SyncCells(width, blank);
  }

  /** The lines of each field that are not shown. */
  function BlankLines(q: Request, m: Mode): int {
    (if q.interlaced then m.vtotal / 2 else m.vtotal) - (LinesPerField(q) + 2 * VMargin(q))
  }

  /** So many lines that they last longer than `time`. */
  lemma LongEnough(time: nat, hperiod: nat, lines: nat)
    requires hperiod > 0 && lines >= time / hperiod + 1
    ensures lines * hperiod > time
  {
    var q := time / hperiod;
    assert time < hperiod * q + hperiod;
    assert hperiod * (q + 1) == hperiod * q + hperiod;
    Times(hperiod, q + 1, lines);
  }

  // ---------------------------------------------------------------- the refresh rate

  /** The blanking is as long as the time it needs, not as the fewest lines it must have. */
  predicate TimeDecides(reduced: bool, vsync: int, hperiod: nat)
    requires hperiod > 0
  {
    if reduced then 460_000 / hperiod + 1 >= vsync + 9 else 550_000 / hperiod + 1 >= vsync + 3
  }

  /** A frame of lines of `hperiod` nanoseconds lasts as long as was asked for: to within the rounding of
      the line, and half a line, it is not shorter, and it is at most one line longer for each field, unless
      the blanking has its fewest lines. */
  ghost predicate KeepsRate(q: Request, m: Mode, hperiod: nat)
    requires hperiod > 0
  {
    var rate := if q.vrefresh == 0 then 60 else q.vrefresh;
    && rate * (m.vtotal * (hperiod + 1) + if q.interlaced && !q.reduced then hperiod else 0) > 1_000_000_000
    && (TimeDecides(q.reduced, m.vsyncEnd - m.vsyncStart, hperiod) ==>
          rate * ((m.vtotal - if q.interlaced && q.reduced then 2 else 1) * hperiod) <= 1_000_000_000)
  }

  lemma FloorBounds(x: nat, d: nat)
    requires d > 0
    ensures Quotient(x, d) * d <= x < (Quotient(x, d) + 1) * d
  {
  }

  lemma Swap(f: nat, x: nat, h: nat)
    ensures f * (x * h) == x * (f * h)
  {
  }

  lemma Spread(f: nat, a: nat, b: nat)
    ensures f * (a + b) == f * a + f * b
  {
  }

  /** x + y lines of h nanoseconds, f times a second */
  lemma Lines(f: nat, x: nat, y: nat, h: nat)
    ensures f * ((x + y) * h) == x * (f * h) + y * (f * h)
  {
    assert (x + y) * h == x * h + y * h;
    Spread(f, x * h, y * h);
    Swap(f, x, h);
    Swap(f, y, h);
  }

  lemma LongerLines(f: nat, x: nat, y: nat, h: nat)
    ensures f * ((x + y) * (h + 1)) == x * (f * h) + x * f + (y * (f * h) + y * f)
  {
    Lines(f, x, y, h + 1);
    assert f * (h + 1) == f * h + f;
    Spread(x, f * h, f);
    Spread(y, f * h, f);
  }

  lemma HalfLines(f: nat, n: nat, half: nat, h: nat)
    requires half <= 1
    ensures h * ((2 * n + half) * f) == 2 * (n * (f * h)) + half * (f * h)
  {
    Swap(h, 2 * n + half, f);
    assert h * f == f * h;
    assert (2 * n + half) * (f * h) == 2 * (n * (f * h)) + half * (f * h);
  }

  /** So many blank lines are longer than `time`, f times a second. */
  lemma BlankTime(f: nat, blank: nat, h: nat, time: nat)
    requires blank * h > time
    ensures blank * (f * h) >= f * time + f
  {
    Swap(f, blank, h);
    Times(f, time + 1, blank * h);
  }

  lemma TrimmedTime(f: nat, t: nat, h: nat, time: nat)
    requires t * h <= time
    ensures t * (f * h) <= f * time
  {
    Swap(f, t, h);
    Times(f, t * h, time);
  }

  /** Full blanking, with f fields a second of n lines and `half` half lines before the blanking. */
  lemma FullRate(f: nat, n: nat, half: nat, hp: nat, blank: nat)
    requires f > 0 && hp > 0 && half <= 1 && blank >= 1
    requires hp * ((2 * n + half) * f) <= 2 * (1_000_000_000 - 550_000 * f) < (hp + 1) * ((2 * n + half) * f)
    requires blank * hp > 550_000
    ensures 2 * (f * ((n + blank) * (hp + 1))) + half * (f * hp) > 2_000_000_000
    ensures (blank - 1) * hp <= 550_000 ==>
              2 * (f * ((n + (blank - 1)) * hp)) + half * (f * hp) <= 2_000_000_000
  {
    LongerLines(f, n, blank, hp);
    HalfLines(f, n, half, hp);
    HalfLines(f, n, half, hp + 1);
    BlankTime(f, blank, hp, 550_000);
    Times(f, 1, blank);
    assert f * (hp + 1) == f * hp + f;
    Spread(n, f * hp, f);
    if (blank - 1) * hp <= 550_000 {
      Lines(f, n, blank - 1, hp);
      TrimmedTime(f, blank - 1, hp, 550_000);
    }
  }

  /** Reduced blanking */
  lemma ReducedRate(f: nat, n: nat, hp: nat, blank: nat)
    requires f > 0 && hp > 0 && blank >= 1
    requires hp * (n * f) <= 1_000_000_000 - 460_000 * f < (hp + 1) * (n * f)
    requires blank * hp > 460_000
    ensures f * ((n + blank) * (hp + 1)) > 1_000_000_000
    ensures (blank - 1) * hp <= 460_000 ==> f * ((n + (blank - 1)) * hp) <= 1_000_000_000
  {
    LongerLines(f, n, blank, hp);
    Swap(hp, n, f);
    Swap(hp + 1, n, f);
    assert hp * f == f * hp && (hp + 1) * f == f * hp + f;
    Spread(n, f * hp, f);
    BlankTime(f, blank, hp, 460_000);
    if (blank - 1) * hp <= 460_000 {
      Lines(f, n, blank - 1, hp);
      TrimmedTime(f, blank - 1, hp, 460_000);
    }
  }

  /** The lines of blanking: long enough for the time it needs, and at least sync and porches. */
  method Blanking(reduced: bool, vsync: nat, hperiod: nat) returns (blank: nat)
    requires hperiod > 0
    ensures blank * hperiod > if reduced then 460_000 else 550_000
    ensures blank >= if reduced then vsync + 9 else vsync + 3
    ensures TimeDecides(reduced, vsync, hperiod) ==> (blank - 1) * hperiod <= if reduced then 460_000 else 550_000
    ensures !TimeDecides(reduced, vsync, hperiod) ==> blank == if reduced then vsync + 9 else vsync + 3
  {
    var time := if reduced then 460 * 1000 else 550 * 1000;
    var least := if reduced then 3 + vsync + 6 else vsync + 3;
    blank := Quotient(time, hperiod) + 1;
    if blank < least {
      blank := least;
    }
    LongEnough(time, hperiod, blank);
    FloorBelow(time, hperiod);
  }

  /** The estimate, without the wrap */
  lemma PeriodBounds(q: Request)
    requires 0 <= LineTime(q) && 0 < LinesPerSecond(q) < U32
    ensures var hp := HPeriod(q); hp * LinesPerSecond(q) <= LineTime(q) < (hp + 1) * LinesPerSecond(q)
  {
    AtMostTwoSeconds(q);
    hide LineTime, LinesPerSecond;
    NoWrap(LineTime(q));
    NoWrap(LinesPerSecond(q));
    FloorBounds(LineTime(q), LinesPerSecond(q));
  }

  /** The lines of a field, with `blank` of them after the front porch. */
  function FieldLines(q: Request): nat {
    LinesPerField(q) + 2 * VMargin(q) + if q.reduced then 0 else 3
  }

  lemma LineBudget(q: Request)
    ensures FieldRate(q) > 0
    ensures q.reduced ==> LinesPerSecond(q) == FieldLines(q) * FieldRate(q)
                          && LineTime(q) == 1_000_000_000 - 460_000 * FieldRate(q)
    ensures !q.reduced ==>
              && LinesPerSecond(q) == (2 * FieldLines(q) + if q.interlaced then 1 else 0) * FieldRate(q)
              && LineTime(q) == 2 * (1_000_000_000 - 550_000 * FieldRate(q))
  {
    hide FieldRate, LinesPerField, VMargin;
    RateIsPositive(q);
  }

  lemma RateIsPositive(q: Request)
    ensures FieldRate(q) > 0
    ensures var rate := if q.vrefresh == 0 then 60 else q.vrefresh;
            FieldRate(q) == if q.interlaced then rate * 2 else rate
  {
  }

  lemma RateKept(q: Request, m: Mode, blank: nat)
    requires 0 <= LineTime(q) && 0 < LinesPerSecond(q) < U32 && HPeriod(q) > 0 && blank >= 1
    requires m.vtotal == (if q.interlaced then 2 else 1) * (FieldLines(q) + blank)
    requires blank * HPeriod(q) > if q.reduced then 460_000 else 550_000
    requires TimeDecides(q.reduced, m.vsyncEnd - m.vsyncStart, HPeriod(q)) ==>
               (blank - 1) * HPeriod(q) <= if q.reduced then 460_000 else 550_000
    ensures KeepsRate(q, m, HPeriod(q))
  {
    hide FieldLines, TimeDecides, HPeriod, LineTime, LinesPerSecond, FieldRate;
    PeriodBounds(q);
    LineBudget(q);
    RateIsPositive(q);
    var hp, f, n := HPeriod(q), FieldRate(q), FieldLines(q);
    var decides := TimeDecides(q.reduced, m.vsyncEnd - m.vsyncStart, hp);
    if q.reduced {
      ReducedRate(f, n, hp, blank);
      ReducedKept(q, m, f, n, hp, blank, decides);
    } else {
      FullRate(f, n, if q.interlaced then 1 else 0, hp, blank);
      FullKept(q, m, f, n, hp, blank, decides);
    }
  }

  lemma ReducedKept(q: Request, m: Mode, f: nat, n: nat, hp: nat, blank: nat, decides: bool)
    requires q.reduced && hp > 0 && blank >= 1 && decides == TimeDecides(true, m.vsyncEnd - m.vsyncStart, hp)
    requires f == (if q.vrefresh == 0 then 60 else q.vrefresh) * if q.interlaced then 2 else 1
    requires m.vtotal == if q.interlaced then 2 * (n + blank) else n + blank
    requires f * ((n + blank) * (hp + 1)) > 1_000_000_000
    requires decides ==> f * ((n + (blank - 1)) * hp) <= 1_000_000_000
    ensures KeepsRate(q, m, hp)
  {
    hide TimeDecides;
    if q.interlaced {
      var rate := if q.vrefresh == 0 then 60 else q.vrefresh;
      Twice(rate, (n + blank) * (hp + 1));
      Twice(rate, (n + (blank - 1)) * hp);
      TwiceLines(n + blank, hp + 1);
      TwiceLines(n + (blank - 1), hp);
    }
  }

  lemma FullKept(q: Request, m: Mode, f: nat, n: nat, hp: nat, blank: nat, decides: bool)
    requires !q.reduced && hp > 0 && blank >= 1 && decides == TimeDecides(false, m.vsyncEnd - m.vsyncStart, hp)
    requires f == (if q.vrefresh == 0 then 60 else q.vrefresh) * if q.interlaced then 2 else 1
    requires m.vtotal == if q.interlaced then 2 * (n + blank) else n + blank
    requires 2 * (f * ((n + blank) * (hp + 1))) + (if q.interlaced then f * hp else 0) > 2_000_000_000
    requires decides ==> 2 * (f * ((n + (blank - 1)) * hp)) + (if q.interlaced then f * hp else 0) <= 2_000_000_000
    ensures KeepsRate(q, m, hp)
  {
    hide TimeDecides;
    if q.interlaced {
      FullInterlaced(if q.vrefresh == 0 then 60 else q.vrefresh, n + blank, hp);
    }
  }

  lemma Twice(rate: nat, x: nat)
    ensures (rate * 2) * x == rate * (2 * x)
  {
  }

  lemma TwiceLines(x: nat, h: nat)
    ensures 2 * (x * h) == (2 * x) * h
  {
  }

  lemma FullInterlaced(rate: nat, lines: nat, hp: nat)
    requires lines >= 1
    ensures 2 * ((rate * 2) * (lines * (hp + 1))) + (rate * 2) * hp == 2 * (rate * ((2 * lines) * (hp + 1) + hp))
    ensures 2 * ((rate * 2) * ((lines - 1) * hp)) + (rate * 2) * hp == 2 * (rate * ((2 * lines - 1) * hp))
  {
    Twice(rate, lines * (hp + 1));
    TwiceLines(lines, hp + 1);
    Twice(rate, hp);
    Spread(rate, (2 * lines) * (hp + 1), hp);
    Twice(rate, (lines - 1) * hp);
    TwiceLines(lines - 1, hp);
    Spread(rate, (2 * (lines - 1)) * hp, hp);
    assert (2 * (lines - 1)) * hp + hp == (2 * lines - 1) * hp;
    assert (rate * 2) * hp == 2 * (rate * hp);
  }

  /** drm_cvt_mode.  The vertical blanking lasts as long as it must, the sync pulses lie inside the
      blanking, the mode has the refresh rate that was asked for while time is left for its lines, and it is
      recognised as reduced blanking exactly when that was asked for. */
  method Generate(q: Request) returns (m: Mode)
    requires Computable(q)
    ensures m.hdisplay == Width(q) && m.hdisplay % 8 == 0
    ensures Width(q) >= 192 || q.reduced ==> WellFormed(m)
    ensures IsReducedBlanking(m) <==> q.reduced
    ensures q.reduced || 20_000 <= Percentage(HPeriod(q)) <= 30_000
    ensures !q.reduced ==>
              7 * (m.htotal - m.hdisplay) <= 3 * m.hdisplay && 16 * (m.hdisplay / 64) <= m.htotal - m.hdisplay
    ensures m.vdisplay == q.vdisplay + 2 * VMargin(q) && m.vsyncEnd - m.vsyncStart == VSync(q.hdisplay, q.vdisplay)
    ensures (BlankLines(q, m) - if q.reduced then 0 else 3) * HPeriod(q) > if q.reduced then 460_000 else 550_000
    ensures 0 <= LineTime(q) && LinesPerSecond(q) < U32 ==> KeepsRate(q, m, HPeriod(q))
    ensures m.hsyncEnd == m.hdisplay + (m.htotal - m.hdisplay) / 2 && m.vsyncStart == m.vdisplay + 3
    ensures q.reduced ==> m.hsyncEnd - m.hsyncStart == 32
    ensures !q.reduced ==> m.htotal * 8 / 100 - 8 <= m.hsyncEnd - m.hsyncStart < m.htotal * 8 / 100
    ensures m.clock % 250 == 0
    ensures m.htotal == Width(q) + if q.reduced then 160 else Blank(Width(q), Percentage(HPeriod(q)))
    ensures m.clock <= m.htotal * 1_000_000 / HPeriod(q) < m.clock + 250 <==> m.htotal * 1_000_000 < U32
    ensures m.flags == (if q.interlaced then INTERLACE else 0) + if q.reduced then PHSYNC + NVSYNC else PVSYNC + NHSYNC
  {
    hide LineTime, LineCount, FieldRate, Width, Percentage, Blank, LinesPerSecond, HPeriod, KeepsRate, LinesPerField,
         VMargin, VSync, FieldLines, TimeDecides;
    var width := Width(q);
    WidthInCells(q);
    var vdisplay := q.vdisplay + 2 * VMargin(q);
    var hperiod := HPeriod(q);
    var vsync := VSync(q.hdisplay, q.vdisplay);
    var htotal, hsyncStart, hsyncEnd;
    if !q.reduced {
      htotal, hsyncStart, hsyncEnd := HorizontalFull(width, hperiod);
    } else {
      htotal := width + 160;
      hsyncEnd := width + 160 / 2;
      hsyncStart := hsyncEnd - 32;
    }
    var vtotal, blank := Vertical(q, vsync, hperiod);
    var clock := Clock(htotal, hperiod);
    var flags := (if q.interlaced then INTERLACE else 0) + if q.reduced then PHSYNC + NVSYNC else PVSYNC + NHSYNC;
    m := Mode(clock, width, hsyncStart, hsyncEnd, htotal, 0, vdisplay,
              vdisplay + 3, vdisplay + 3 + vsync, vtotal, 0, flags);
    BlankIs(q, m, blank);
    if 0 <= LineTime(q) && LinesPerSecond(q) < U32 {
      FirstWhole(LinesPerSecond(q));
      RateKept(q, m, blank);
    }
  }

  lemma BlankIs(q: Request, m: Mode, blank: nat)
    requires m.vtotal == (if q.interlaced then 2 else 1) * (FieldLines(q) + blank)
    ensures BlankLines(q, m) - (if q.reduced then 0 else 3) == blank
  {
    hide LinesPerField, VMargin;
  }

  /** The lines of a frame */
  method Vertical(q: Request, vsync: nat, hperiod: nat) returns (vtotal: nat, blank: nat)
    requires hperiod > 0
    ensures vtotal == (if q.interlaced then 2 else 1) * (FieldLines(q) + blank) && blank >= 1
    ensures q.vdisplay + 2 * VMargin(q) + 3 + vsync < vtotal
    ensures blank * hperiod > if q.reduced then 460_000 else 550_000
    ensures TimeDecides(q.reduced, vsync, hperiod) ==>
              (blank - 1) * hperiod <= if q.reduced then 460_000 else 550_000
  {
    hide VMargin, TimeDecides;
    var lines := LinesPerField(q) + 2 * VMargin(q);
    blank := Blanking(q.reduced, vsync, hperiod);
    vtotal := if q.reduced then lines + blank else lines + blank + 3;
    if q.interlaced {
      vtotal := vtotal * 2;
    }
  }

  /** The picture is as wide and high as was asked for, to within a character cell, and with margins each
      border takes up to 1.8 per cent of it. */
  lemma Borders(q: Request)
    ensures var rounded, active := q.hdisplay - q.hdisplay % 8, Width(q);
            && active % 8 == 0 && rounded <= active
            && (!q.margins ==> active == rounded && VMargin(q) == 0)
            && (q.margins ==> 1000 * ((active - rounded) / 2) <= 18 * rounded < 1000 * ((active - rounded) / 2 + 8)
                              && var lines := if q.interlaced then q.vdisplay / 2 else q.vdisplay;
                                 1000 * VMargin(q) <= 18 * lines < 1000 * (VMargin(q) + 1))
  {
    WidthInCells(q);
  }

  lemma WidthInCells(q: Request)
    ensures Width(q) % 8 == 0
  {
    hide Cells;
    CellsFit(q.hdisplay);
    CellsFit(Cells(q.hdisplay) * 18 / 1000);
    CellsAdd(Cells(q.hdisplay), Cells(Cells(q.hdisplay) * 18 / 1000));
  }

  lemma CellsAdd(a: nat, b: nat)
    requires a % 8 == 0 && b % 8 == 0
    ensures (a + 2 * b) % 8 == 0
  {
  }

  /** The pixel clock: a multiple of 250 kHz just below the exact one, if and only if the product with
      the line length does not wrap. */
  method Clock(htotal: nat, hperiod: nat) returns (clock: nat)
    requires hperiod > 0 && 300 * hperiod < U32
    ensures clock % 250 == 0
    ensures clock <= htotal * 1_000_000 / hperiod < clock + 250 <==> htotal * 1_000_000 < U32
  {
    var exact := Quotient((htotal * 1_000_000) % U32, hperiod);
    clock := exact - exact % 250;
    RoundedDown(exact);
    ExactClock(htotal * 1_000_000, hperiod);
  }

  lemma RoundedDown(x: nat)
    ensures (x - x % 250) % 250 == 0 && x - x % 250 <= x < x - x % 250 + 250
  {
  }

  lemma ExactClock(x: nat, d: nat)
    requires d > 0 && 300 * d < U32
    ensures x < U32 ==> Quotient(x % U32, d) == x / d
    ensures x >= U32 ==> Quotient(x % U32, d) + 300 <= x / d
  {
    if x < U32 {
      NoWrap(x);
    } else {
      WrappedQuotient(x, d);
    }
  }

  lemma NoWrap(x: nat)
    requires x < U32
    ensures x % U32 == x
  {
  }

  lemma FirstWhole(x: nat)
    requires x < U32 && x % U32 > 0
    ensures x > 0
  {
  }

  /** A wrapped dividend loses more than one step of the clock. */
  lemma WrappedQuotient(x: nat, d: nat)
    requires d > 0 && x >= U32 && 300 * d < U32
    ensures Quotient(x % U32, d) + 300 <= x / d
  {
    var r := x % U32;
    FloorBelow(r, d);
    assert x >= r + U32;
    assert (Quotient(r, d) + 300) * d == Quotient(r, d) * d + 300 * d;
    AtLeast(x, d, Quotient(r, d) + 300);
  }

  /** A line of 5120 visible pixels is too long for the product. */
  lemma WideClockWraps()
    ensures var q := Request(5120, 2160, 60, false, false, false);
            && Computable(q) && 20_000 <= Percentage(HPeriod(q)) <= 30_000
            && (Width(q) + Blank(Width(q), Percentage(HPeriod(q)))) * 1_000_000 >= U32
  {
    var q := Request(5120, 2160, 60, false, false, false);
    assert Width(q) == 5120 && FieldRate(q) == 60 && LineTime(q) == 1_934_000_000 && LineCount(q) == 4326;
    assert LinesPerSecond(q) == 259_560 && HPeriod(q) == 7451;
    assert Percentage(7451) == 27_765;
  }
}
