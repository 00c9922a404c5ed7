/**
 * The mode catalogue and the pure negotiation logic of the AP1302 driver:
 * frame-rate legality, pixel rate, size lookup (exact or nearest), the
 * frame-interval rounding, format snapping and the enumeration callbacks.
 */
module Modes {
  import opened Registers
  import opened Access
  import opened Wrappers

  // ---------------------------------------------------------------------
  // Frame rates

  /** Index into the frame-rate table: 0 = 8 fps, 1 = 15, 2 = 30, 3 = 60. */
  type RateIndex = r: nat | r < 4

  const FPS_8: RateIndex := 0
  const FPS_15: RateIndex := 1
  const FPS_30: RateIndex := 2
  const FPS_60: RateIndex := 3
  const NUM_FRAMERATES: nat := 4

  /** `ap1302_framerates`: frames per second of each rate index. */
  function FrameRate(r: RateIndex): (fps: int)
    ensures 8 <= fps <= 60
  {
    if r == 0 then 8 else if r == 1 then 15 else if r == 2 then 30 else 60
  }

  /** A frame interval `numerator / denominator` seconds. */
  datatype Fract = Fract(num: u32, den: u32)

  // ---------------------------------------------------------------------
  // Mode catalogue

  datatype ModeId = QCIF | QVGA | VGA | NTSC | PAL | XGA | HD720 | HD1080 | QSXGA | UHD4K

  /** Below 1280x960 the sensor subsamples, above it scales. */
  datatype Downsize = Subsampling | Scaling

  datatype ModeInfo = ModeInfo(
    id: ModeId, dn: Downsize,
    hact: u32, htot: u32, vact: u32, vtot: u32,
    script: seq<RegValue>, maxFps: RateIndex)

  const NUM_MODES: nat := 10
  type ModeIndex = i: nat | i < 10

  /** The catalogue, `ap1302_mode_data`, indexed by mode number. */
  function Mode(i: ModeIndex): ModeInfo
  {
    if i == 0 then ModeInfo(QCIF, Subsampling, 176, 1896, 144, 984, [], FPS_30)
    else if i == 1 then ModeInfo(QVGA, Subsampling, 320, 1896, 240, 984, [], FPS_30)
    else if i == 2 then ModeInfo(VGA, Subsampling, 640, 1896, 480, 1080, [], FPS_30)
    else if i == 3 then ModeInfo(NTSC, Subsampling, 720, 1896, 480, 984, [], FPS_30)
    else if i == 4 then ModeInfo(PAL, Subsampling, 720, 1896, 576, 984, [], FPS_30)
    else if i == 5 then ModeInfo(XGA, Subsampling, 1024, 1896, 768, 1080, [], FPS_30)
    else if i == 6 then ModeInfo(HD720, Subsampling, 1280, 1892, 720, 740, [], FPS_30)
    else if i == 7 then ModeInfo(HD1080, Scaling, 1920, 2500, 1080, 1120, [], FPS_30)
    else if i == 8 then ModeInfo(QSXGA, Scaling, 2592, 2844, 1944, 1968, [], FPS_30)
    else ModeInfo(UHD4K, Scaling, 3840, 3840, 2160, 2160, [], FPS_30)
  }

  const MODE_4K: ModeIndex := 9

  /** The power-on mode: a separate table entry with the 4K geometry. */
  const INIT_DATA: ModeInfo := ModeInfo(UHD4K, Scaling, 3840, 3840, 2160, 2160, [], FPS_30)

  /** No two catalogue entries share a size. */
  lemma CatalogueSizesDistinct(i: ModeIndex, j: ModeIndex)
    requires Mode(i).hact == Mode(j).hact && Mode(i).vact == Mode(j).vact
    ensures i == j
  {
  }

  // ---------------------------------------------------------------------
  // Frame-rate legality

  datatype BusType = Parallel | Csi2Dphy | Bt656

  /** The rates each mode may run at; 1080p at 30 fps only over CSI-2. */
  predicate RateAllowed(bus: BusType, id: ModeId, rate: RateIndex)
  {
    match id
    case QCIF | QVGA | VGA | NTSC | PAL | XGA | HD720 => rate == FPS_15 || rate == FPS_30
    case HD1080 => rate == FPS_15 || (rate == FPS_30 && bus == Csi2Dphy)
    case QSXGA => rate == FPS_8
    case UHD4K => rate == FPS_30
  }

  /** `ap1302_check_valid_mode`: 0 if the mode may run at the rate on this bus, else -EINVAL. */
  function CheckValidMode(bus: BusType, mode: ModeInfo, rate: RateIndex): (ret: int)
    ensures ret == 0 || ret == -EINVAL
  {
    if RateAllowed(bus, mode.id, rate) then 0 else -EINVAL
  }

  /** The legality table in terms of picture size and frames per second. */
  predicate LegalRate(bus: BusType, width: int, height: int, fps: int)
  {
    ((width, height) in {(176, 144), (320, 240), (640, 480), (720, 480), (720, 576), (1024, 768), (1280, 720)}
      && fps in {15, 30})
    || ((width, height) == (1920, 1080) && (fps == 15 || (fps == 30 && bus == Csi2Dphy)))
    || ((width, height) == (2592, 1944) && fps == 8)
    || ((width, height) == (3840, 2160) && fps == 30)
  }

  /** The check accepts exactly the pairs of the legality table; in particular never 60 fps. */
  lemma CheckValidModeMatchesTable(bus: BusType, i: ModeIndex, rate: RateIndex)
    ensures CheckValidMode(bus, Mode(i), rate) == 0 <==> LegalRate(bus, Mode(i).hact, Mode(i).vact, FrameRate(rate))
    ensures rate == FPS_60 ==> CheckValidMode(bus, Mode(i), rate) == -EINVAL
  {
  }

  // ---------------------------------------------------------------------
  // Pixel rate

  const INT_MAX: int := 0x7FFF_FFFF

  /** `ap1302_calc_pixel_rate`: total pixels per frame times frames per second. */
  function PixelRate(mode: ModeInfo, rate: RateIndex): int
  {
    mode.vtot * mode.htot * FrameRate(rate)
  }

  /** Every catalogue mode at every rate gives a rate inside the control's range 0..INT_MAX. */
  lemma PixelRateInControlRange(i: ModeIndex, rate: RateIndex)
    ensures 0 < PixelRate(Mode(i), rate) <= INT_MAX
  {
  }

  // ---------------------------------------------------------------------
  // Size lookup

  /**
   * `abs()` of the 32-bit difference of two unsigned values, as the
   * nearest-size helper computes it: the difference wraps modulo 2^32, is
   * read as a signed int and its magnitude is taken.
   */
  function AbsDiff32(a: u32, b: u32): (d: nat)
    ensures d <= 0x8000_0000
  {
    var diff := if a >= b then a - b else a - b + 0x1_0000_0000;
    if diff < 0x8000_0000 then diff else 0x1_0000_0000 - diff
  }

  /** The helper's error for one entry: the sum of both distances in 32-bit unsigned arithmetic. */
  function SizeError(m: ModeInfo, w: u32, h: u32): u32
  {
    var sum := AbsDiff32(m.hact, w) + AbsDiff32(m.vact, h);
    if sum < 0x1_0000_0000 then sum else sum - 0x1_0000_0000
  }

  /** For sizes below 2^31 the error is the plain Manhattan distance. */
  lemma SizeErrorIsDistance(m: ModeInfo, w: u32, h: u32)
    requires m.hact < 0x8000_0000 && m.vact < 0x8000_0000 && w < 0x8000_0000 && h < 0x8000_0000
    ensures SizeError(m, w, h) == Abs(m.hact - w) + Abs(m.vact - h)
  {
  }

  function Abs(x: int): nat { if x < 0 then -x else x }

  /** The error of every catalogue entry for the requested size, in table order. */
  function SizeErrors(w: u32, h: u32): (e: seq<u32>)
    ensures |e| == NUM_MODES
    ensures forall j: ModeIndex :: e[j] == SizeError(Mode(j), w, h)
  {
    [SizeError(Mode(0), w, h), SizeError(Mode(1), w, h), SizeError(Mode(2), w, h), SizeError(Mode(3), w, h),
     SizeError(Mode(4), w, h), SizeError(Mode(5), w, h), SizeError(Mode(6), w, h), SizeError(Mode(7), w, h),
     SizeError(Mode(8), w, h), SizeError(Mode(9), w, h)]
  }

  /**
   * The scan of `v4l2_find_nearest_size` over the entry errors from entry
   * `i` on: an entry whose error exceeds the best so far is skipped, an
   * entry with equal or smaller error replaces the best (so ties go to the
   * later entry), and an exact hit ends the scan.
   */
  function NearestFrom(errs: seq<u32>, i: nat, best: ModeIndex, minErr: nat): (r: ModeIndex)
    requires |errs| == NUM_MODES
    decreases NUM_MODES - i
  {
    if i >= NUM_MODES then best
    else if errs[i] > minErr then NearestFrom(errs, i + 1, best, minErr)
    else if errs[i] == 0 then i
    else NearestFrom(errs, i + 1, i, errs[i])
  }

  /** `v4l2_find_nearest_size` over the catalogue; the first entry always beats the initial bound. */
  function NearestSize(w: u32, h: u32): ModeIndex
  {
    NearestFrom(SizeErrors(w, h), 0, 0, 0xFFFF_FFFF)
  }

  /** The scan state: the best entry so far has the smallest error seen, and every later one seen was worse. */
  ghost predicate ScanState(errs: seq<u32>, i: nat, best: ModeIndex, minErr: nat)
    requires |errs| == NUM_MODES
  {
    i <= NUM_MODES
    && (i == 0 ==> minErr == 0xFFFF_FFFF)
    && (i > 0 ==> best < i && minErr == errs[best])
    && (forall j :: 0 <= j < i ==> minErr <= errs[j])
    && (forall j :: best < j < i ==> errs[j] > minErr)
  }

  lemma {:induction false} NearestFromIsClosest(errs: seq<u32>, i: nat, best: ModeIndex, minErr: nat)
    requires |errs| == NUM_MODES && ScanState(errs, i, best, minErr)
    ensures var r := NearestFrom(errs, i, best, minErr);
      (forall j :: 0 <= j < NUM_MODES ==> errs[r] <= errs[j])
      && (errs[r] > 0 ==> forall j :: r < j < NUM_MODES ==> errs[j] > errs[r])
    decreases NUM_MODES - i
  {
    if i < NUM_MODES {
      if errs[i] > minErr {
        NearestFromIsClosest(errs, i + 1, best, minErr);
      } else if errs[i] != 0 {
        NearestFromIsClosest(errs, i + 1, i, errs[i]);
      }
    }
  }

  /**
   * The nearest entry has the smallest error of the whole catalogue, and
   * unless it is an exact hit every later entry is strictly worse (ties go
   * to the later entry).
   */
  lemma NearestSizeIsClosest(w: u32, h: u32)
    ensures var r := NearestSize(w, h);
      (forall j: ModeIndex :: SizeError(Mode(r), w, h) <= SizeError(Mode(j), w, h))
      && (SizeError(Mode(r), w, h) > 0 ==> forall j: ModeIndex :: r < j ==> SizeError(Mode(j), w, h) > SizeError(Mode(r), w, h))
  {
    NearestFromIsClosest(SizeErrors(w, h), 0, 0, 0xFFFF_FFFF);
  }

  /** Catalogue sizes are small, far from the 32-bit wrap-around. */
  lemma CatalogueSizesSmall(i: ModeIndex)
    ensures 0 < Mode(i).hact <= 3840 && 0 < Mode(i).vact <= 2160
  {
  }

  /** When the requested size is in the catalogue, the nearest entry is that one. */
  lemma NearestSizeFindsExact(w: u32, h: u32, i: ModeIndex)
    requires Mode(i).hact == w && Mode(i).vact == h
    ensures NearestSize(w, h) == i
  {
    var r := NearestSize(w, h);
    assert SizeError(Mode(i), w, h) == 0;
    NearestSizeIsClosest(w, h);
    assert SizeError(Mode(r), w, h) == 0;
    CatalogueSizesSmall(i);
    CatalogueSizesSmall(r);
    SizeErrorIsDistance(Mode(r), w, h);
    CatalogueSizesDistinct(r, i);
  }

  /**
   * `ap1302_find_mode`: the nearest catalogue entry, or None when an exact
   * match was asked for and the nearest entry's size differs.
   */
  function FindMode(w: u32, h: u32, nearest: bool): Option<ModeIndex>
  {
    var m := NearestSize(w, h);
    if !nearest && (Mode(m).hact != w || Mode(m).vact != h) then None else Some(m)
  }

  /** The exact lookup finds an entry exactly when the catalogue holds that size, and then it is that entry. */
  lemma FindModeExact(w: u32, h: u32)
    ensures FindMode(w, h, false).Some? <==> exists i: ModeIndex :: Mode(i).hact == w && Mode(i).vact == h
    ensures FindMode(w, h, false).Some? ==>
      Mode(FindMode(w, h, false).value).hact == w && Mode(FindMode(w, h, false).value).vact == h
  {
    if exists i: ModeIndex :: Mode(i).hact == w && Mode(i).vact == h {
      var i: ModeIndex :| Mode(i).hact == w && Mode(i).vact == h;
      NearestSizeFindsExact(w, h, i);
    }
  }

  /** The nearest lookup never fails. */
  lemma FindModeNearestTotal(w: u32, h: u32)
    ensures FindMode(w, h, true) == Some(NearestSize(w, h))
  {
  }

  // ---------------------------------------------------------------------
  // Frame-interval negotiation

  /** `DIV_ROUND_CLOSEST` on unsigned 32-bit operands: `(x + d/2) / d` with the sum wrapping. */
  function DivRoundClosest(x: u32, d: u32): u32
    requires d > 0
  {
    ((x + d / 2) % 0x1_0000_0000) / d
  }

  function Clamp(v: int, lo: int, hi: int): int
  {
    if v < lo then lo else if v > hi then hi else v
  }

  /** How far the rate of entry `r` is from `fps`. */
  function RateDistance(fps: int, r: RateIndex): nat
  {
    Abs(FrameRate(r) - fps)
  }

  /** The scan over the rate table from entry `i` on, replacing the best only when strictly closer. */
  function NearestRateFrom(fps: int, i: nat, best: RateIndex): RateIndex
    decreases NUM_FRAMERATES - i
  {
    if i >= NUM_FRAMERATES then best
    else if RateDistance(fps, i) < RateDistance(fps, best) then NearestRateFrom(fps, i + 1, i)
    else NearestRateFrom(fps, i + 1, best)
  }

  /** The table rate nearest to `fps`, starting from 8 fps. */
  function NearestRate(fps: int): RateIndex
  {
    NearestRateFrom(fps, 0, FPS_8)
  }

  lemma {:induction false} NearestRateFromIsNearest(fps: int, i: nat, best: RateIndex)
    requires i <= NUM_FRAMERATES && best <= i
    requires forall j: RateIndex :: j < i ==> RateDistance(fps, best) <= RateDistance(fps, j)
    requires forall j: RateIndex :: j < best ==> RateDistance(fps, j) > RateDistance(fps, best)
    ensures var r := NearestRateFrom(fps, i, best);
      (forall j: RateIndex :: RateDistance(fps, r) <= RateDistance(fps, j))
      && (forall j: RateIndex :: j < r ==> RateDistance(fps, j) > RateDistance(fps, r))
    decreases NUM_FRAMERATES - i
  {
    if i < NUM_FRAMERATES {
      if RateDistance(fps, i) < RateDistance(fps, best) {
        NearestRateFromIsNearest(fps, i + 1, i);
      } else {
        NearestRateFromIsNearest(fps, i + 1, best);
      }
    }
  }

  /** The chosen rate is a nearest table rate, and no earlier (lower) rate is as near: ties go to the lower rate. */
  lemma NearestRateIsNearest(fps: int)
    ensures var r := NearestRate(fps);
      (forall j: RateIndex :: RateDistance(fps, r) <= RateDistance(fps, j))
      && (forall j: RateIndex :: j < r ==> RateDistance(fps, j) > RateDistance(fps, r))
  {
    NearestRateFromIsNearest(fps, 0, FPS_8);
  }

  /** The table rate a frame-interval request is moved to: 60 fps for a zero numerator. */
  function RequestedRate(fi: Fract): RateIndex
  {
    if fi.num == 0 then FPS_60
    else NearestRate(Clamp(DivRoundClosest(fi.den, fi.num), 8, 60))
  }

  /** The interval a request is rewritten to: one over the chosen table rate. */
  function IntervalFor(fi: Fract): Fract
  {
    Fract(1, FrameRate(RequestedRate(fi)))
  }

  /** The outcome of `ap1302_try_frame_interval`: the return value and the rewritten interval. */
  datatype TryInterval = TryInterval(ret: int, fi: Fract)

  /**
   * `ap1302_try_frame_interval`: a zero numerator asks for the fastest
   * rate; otherwise `den/num` is rounded, clamped to 8..60 and moved to
   * the nearest table rate. The interval becomes `1/rate`; the result is
   * the rate index if the size is in the catalogue, else -EINVAL.
   */
  function TryFrameInterval(fi: Fract, w: u32, h: u32): (t: TryInterval)
  {
    TryInterval(if FindMode(w, h, false).Some? then RequestedRate(fi) else -EINVAL, IntervalFor(fi))
  }

  /**
   * The interval is always rewritten to one over a table rate, and the
   * result is that rate's index exactly when the size is a catalogue size;
   * a zero numerator gives 60 fps.
   */
  lemma TryFrameIntervalOutcome(fi: Fract, w: u32, h: u32)
    ensures var t := TryFrameInterval(fi, w, h);
      t.fi.num == 1 && t.fi.den in {8, 15, 30, 60}
      && (t.ret >= 0 <==> exists i: ModeIndex :: Mode(i).hact == w && Mode(i).vact == h)
      && (t.ret >= 0 ==> 0 <= t.ret < 4 && t.fi.den == FrameRate(t.ret))
      && (t.ret < 0 ==> t.ret == -EINVAL)
      && (fi.num == 0 ==> t.fi.den == 60)
  {
    FindModeExact(w, h);
  }

  /** At the size of a catalogue entry the rate lookup always succeeds, and the nearest-size lookup finds that entry. */
  lemma TryFrameIntervalAtMode(fi: Fract, i: ModeIndex)
    ensures TryFrameInterval(fi, Mode(i).hact, Mode(i).vact) == TryInterval(RequestedRate(fi), IntervalFor(fi))
    ensures FindMode(Mode(i).hact, Mode(i).vact, true) == Some(i)
  {
    NearestSizeFindsExact(Mode(i).hact, Mode(i).vact, i);
  }

  /**
   * For a non-zero numerator, the chosen rate is the table rate nearest to
   * the rounded and clamped request, ties going to the lower rate.
   */
  lemma TryFrameIntervalPicksNearest(fi: Fract)
    requires fi.num != 0
    ensures var fps := Clamp(DivRoundClosest(fi.den, fi.num), 8, 60);
      var rate := IntervalFor(fi).den;
      (forall j: RateIndex :: Abs(rate - fps) <= RateDistance(fps, j))
      && (forall j: RateIndex :: FrameRate(j) < rate ==> RateDistance(fps, j) > Abs(rate - fps))
  {
    var fps := Clamp(DivRoundClosest(fi.den, fi.num), 8, 60);
    var r := NearestRate(fps);
    NearestRateIsNearest(fps);
    assert IntervalFor(fi).den == FrameRate(r);
    forall j: RateIndex | FrameRate(j) < FrameRate(r)
      ensures j < r
    {
      FrameRateIncreasing(j, r);
    }
  }

  /** The rate table is in increasing order. */
  lemma FrameRateIncreasing(i: RateIndex, j: RateIndex)
    ensures FrameRate(i) < FrameRate(j) <==> i < j
  {
  }

  // ---------------------------------------------------------------------
  // Formats

  const MEDIA_BUS_FMT_UYVY8_2X8: u32 := 0x2006
  const MEDIA_BUS_FMT_UYVY8_1X16: u32 := 0x200f
  const MEDIA_BUS_FMT_YUYV8_2X8: u32 := 0x2008
  const MEDIA_BUS_FMT_YUYV8_1X16: u32 := 0x2011

  /** The supported media-bus codes, in table order. */
  const FORMATS: seq<u32> := [MEDIA_BUS_FMT_UYVY8_2X8, MEDIA_BUS_FMT_UYVY8_1X16, MEDIA_BUS_FMT_YUYV8_2X8, MEDIA_BUS_FMT_YUYV8_1X16]

  const V4L2_COLORSPACE_SRGB: u32 := 8
  const V4L2_YCBCR_ENC_601: u32 := 1
  const V4L2_QUANTIZATION_FULL_RANGE: u32 := 1
  const V4L2_XFER_FUNC_SRGB: u32 := 2
  const V4L2_FIELD_NONE: u32 := 1

  const RESERVED_WORDS: nat := 10
  type Reserved = r: seq<u16> | |r| == RESERVED_WORDS witness [0, 0, 0, 0, 0, 0, 0, 0, 0, 0]

  /** A media-bus frame format. */
  datatype Fmt = Fmt(
    width: u32, height: u32, code: u32, field: u32,
    colorspace: u32, ycbcr: u32, quantization: u32, xfer: u32,
    reserved: Reserved)

  const NO_RESERVED: Reserved := [0, 0, 0, 0, 0, 0, 0, 0, 0, 0]

  /** The index of the first table entry with this code, or 0 when there is none. */
  function FormatIndex(code: u32): (i: nat)
    ensures i < |FORMATS|
    ensures code in FORMATS ==> FORMATS[i] == code && forall j :: 0 <= j < i ==> FORMATS[j] != code
    ensures code !in FORMATS ==> i == 0
  {
    if code == FORMATS[0] then 0
    else if code == FORMATS[1] then 1
    else if code == FORMATS[2] then 2
    else if code == FORMATS[3] then 3
    else 0
  }

  /** The requested code if the table has it, else the first table entry. */
  function SupportedCode(code: u32): u32
  {
    FORMATS[FormatIndex(code)]
  }

  /** The request moved onto catalogue entry `m`, with the sRGB colour description. */
  function SnapFmt(f: Fmt, m: ModeIndex): Fmt
  {
    Fmt(Mode(m).hact, Mode(m).vact, SupportedCode(f.code), f.field,
        V4L2_COLORSPACE_SRGB, V4L2_YCBCR_ENC_601, V4L2_QUANTIZATION_FULL_RANGE, V4L2_XFER_FUNC_SRGB,
        NO_RESERVED)
  }

  /** The outcome of `ap1302_try_fmt_internal`: the adjusted format and the chosen mode. */
  datatype TriedFmt = TriedFmt(fmt: Fmt, mode: ModeIndex)

  /**
   * `ap1302_try_fmt_internal`: snap the size to the nearest catalogue
   * entry, clear the reserved words, keep a supported code (falling back
   * to the first table entry) and set the sRGB colour description. The
   * nearest lookup cannot fail, so this always returns 0.
   */
  function TryFmt(f: Fmt): (t: TriedFmt)
  {
    TriedFmt(SnapFmt(f, NearestSize(f.width, f.height)), NearestSize(f.width, f.height))
  }

  /**
   * The adjusted format has the chosen mode's size, which is the nearest
   * catalogue size; its code is a supported one, the requested code if
   * that was supported; the field is kept and the reserved words cleared.
   */
  lemma TryFmtSnaps(f: Fmt)
    ensures var t := TryFmt(f);
      t.fmt.width == Mode(t.mode).hact && t.fmt.height == Mode(t.mode).vact
      && t.mode == NearestSize(f.width, f.height)
      && t.fmt.code in FORMATS
      && (f.code in FORMATS ==> t.fmt.code == f.code)
      && (f.code !in FORMATS ==> t.fmt.code == MEDIA_BUS_FMT_UYVY8_2X8)
      && t.fmt.field == f.field
      && (forall k :: 0 <= k < RESERVED_WORDS ==> t.fmt.reserved[k] == 0)
  {
  }

  /** Trying an already adjusted format changes nothing: the adjustment is idempotent. */
  lemma TryFmtIdempotent(f: Fmt)
    ensures TryFmt(TryFmt(f).fmt) == TryFmt(f)
  {
    var t := TryFmt(f);
    NearestSizeFindsExact(t.fmt.width, t.fmt.height, t.mode);
  }

  // ---------------------------------------------------------------------
  // Enumeration callbacks

  /** The answer of `ap1302_enum_frame_size`: minimum and maximum sizes. */
  datatype FrameSize = FrameSize(minWidth: u32, maxWidth: u32, minHeight: u32, maxHeight: u32)

  /** `ap1302_enum_frame_size`: the index-th catalogue size, as both minimum and maximum. */
  function EnumFrameSize(pad: nat, index: nat): (r: Option<FrameSize>)
    ensures r.Some? <==> pad == 0 && index < NUM_MODES
    ensures r.Some? ==> r.value == FrameSize(Mode(index).hact, Mode(index).hact, Mode(index).vact, Mode(index).vact)
  {
    if pad != 0 || index >= NUM_MODES then None
    else Some(FrameSize(Mode(index).hact, Mode(index).hact, Mode(index).vact, Mode(index).vact))
  }

  /** `ap1302_enum_mbus_code`: the index-th supported code. */
  function EnumMbusCode(pad: nat, index: nat): (r: Option<u32>)
    ensures r.Some? <==> pad == 0 && index < |FORMATS|
    ensures r.Some? ==> r.value == FORMATS[index] && r.value in FORMATS
  {
    if pad != 0 || index >= |FORMATS| then None else Some(FORMATS[index])
  }

  /**
   * An enumerated size is one the exact lookup finds, at the index it was
   * enumerated at, and a format of that size comes out of the adjustment
   * with its size kept and that mode chosen.
   */
  lemma EnumeratedSizeIsExact(pad: nat, index: nat, f: Fmt)
    ensures var r := EnumFrameSize(pad, index);
      r.Some? ==>
        FindMode(r.value.minWidth, r.value.minHeight, false) == Some(index)
        && (f.width == r.value.minWidth && f.height == r.value.minHeight ==>
              TryFmt(f).mode == index && TryFmt(f).fmt.width == f.width && TryFmt(f).fmt.height == f.height)
  {
    if pad == 0 && index < NUM_MODES {
      NearestSizeFindsExact(Mode(index).hact, Mode(index).vact, index);
    }
  }

  /** The sizes enumerated are exactly the sizes the exact lookup accepts. */
  lemma EnumFrameSizeCoversCatalogue(w: u32, h: u32)
    ensures (exists index :: EnumFrameSize(0, index) == Some(FrameSize(w, w, h, h))) <==> FindMode(w, h, false).Some?
  {
    FindModeExact(w, h);
    if FindMode(w, h, false).Some? {
      var m := FindMode(w, h, false).value;
      assert EnumFrameSize(0, m) == Some(FrameSize(w, w, h, h));
    }
    if exists index :: EnumFrameSize(0, index) == Some(FrameSize(w, w, h, h)) {
      var index :| EnumFrameSize(0, index) == Some(FrameSize(w, w, h, h));
      assert Mode(index).hact == w && Mode(index).vact == h;
    }
  }

  /**
   * The codes enumerated are exactly the supported ones, and exactly the
   * ones the format adjustment keeps rather than replacing.
   */
  lemma EnumMbusCodeListsSupported(f: Fmt)
    ensures (exists index :: EnumMbusCode(0, index) == Some(f.code)) <==> f.code in FORMATS
    ensures (exists index :: EnumMbusCode(0, index) == Some(f.code)) <==> TryFmt(f).fmt.code == f.code
  {
    TryFmtSnaps(f);
    if f.code in FORMATS {
      var i :| 0 <= i < |FORMATS| && FORMATS[i] == f.code;
      assert EnumMbusCode(0, i) == Some(f.code);
    }
  }

  /** Whether the (rate, mode) pair is counted by the interval enumeration for this size. */
  predicate Counted(bus: BusType, w: u32, h: u32, r: RateIndex, j: ModeIndex)
  {
    w == Mode(j).hact && h == Mode(j).vact && CheckValidMode(bus, Mode(j), r) == 0
  }

  /** The rate and the mode visited at position `p` of the rate-major scan. */
  function ScanRate(p: nat): RateIndex
    requires p < NUM_FRAMERATES * NUM_MODES
  {
    p / NUM_MODES
  }

  function ScanMode(p: nat): ModeIndex
  {
    p % NUM_MODES
  }

  lemma ScanPosition(i: RateIndex, j: ModeIndex)
    ensures i * NUM_MODES + j < NUM_FRAMERATES * NUM_MODES
    ensures ScanRate(i * NUM_MODES + j) == i && ScanMode(i * NUM_MODES + j) == j
  {
  }

  /** Which of the first `p` scan positions hold a counted pair. */
  function CountTable(bus: BusType, w: u32, h: u32, p: nat): (t: seq<bool>)
    requires p <= NUM_FRAMERATES * NUM_MODES
    ensures |t| == p
  {
    if p == 0 then [] else CountTable(bus, w, h, p - 1) + [Counted(bus, w, h, ScanRate(p - 1), ScanMode(p - 1))]
  }

  lemma {:induction false} CountTableAt(bus: BusType, w: u32, h: u32, p: nat, q: nat)
    requires p < q <= NUM_FRAMERATES * NUM_MODES
    ensures CountTable(bus, w, h, q)[p] == Counted(bus, w, h, ScanRate(p), ScanMode(p))
  {
    if p < q - 1 {
      CountTableAt(bus, w, h, p, q - 1);
    }
  }

  /** The rates of the marked positions among the first `p` of table `t`, in scan order. */
  function RatesOf(t: seq<bool>, p: nat): seq<RateIndex>
    requires p <= |t| <= NUM_FRAMERATES * NUM_MODES
  {
    if p == 0 then [] else RatesOf(t, p - 1) + (if t[p - 1] then [ScanRate(p - 1)] else [])
  }

  /** All the rates the enumeration can report for a size, in order. */
  function LegalRates(bus: BusType, w: u32, h: u32): seq<RateIndex>
  {
    RatesOf(CountTable(bus, w, h, NUM_FRAMERATES * NUM_MODES), NUM_FRAMERATES * NUM_MODES)
  }

  /** Every rate in the list is the rate of a marked position. */
  lemma {:induction false} RatesOfMarked(t: seq<bool>, p: nat, k: nat)
    requires p <= |t| <= NUM_FRAMERATES * NUM_MODES && k < |RatesOf(t, p)|
    ensures exists q :: 0 <= q < p && t[q] && RatesOf(t, p)[k] == ScanRate(q)
  {
    var prev := RatesOf(t, p - 1);
    if k < |prev| {
      RatesOfMarked(t, p - 1, k);
      var q :| 0 <= q < p - 1 && t[q] && prev[k] == ScanRate(q);
      assert RatesOf(t, p)[k] == prev[k];
    } else {
      assert t[p - 1] && RatesOf(t, p)[k] == ScanRate(p - 1);
    }
  }

  /** The list at an earlier position is a prefix of the list at a later one. */
  lemma {:induction false} RatesOfPrefix(t: seq<bool>, p: nat, q: nat)
    requires p <= q <= |t| <= NUM_FRAMERATES * NUM_MODES
    ensures RatesOf(t, p) <= RatesOf(t, q)
    decreases q
  {
    if p < q {
      RatesOfPrefix(t, p, q - 1);
    }
  }

  /** One step of the scan, at position `p` = rate `i`, mode `j`. */
  lemma ScanStep(bus: BusType, w: u32, h: u32, t: seq<bool>, p: nat, i: RateIndex, j: ModeIndex)
    requires t == CountTable(bus, w, h, NUM_FRAMERATES * NUM_MODES)
    requires p == i * NUM_MODES + j
    ensures p < |t|
    ensures RatesOf(t, p + 1) == RatesOf(t, p) + (if Counted(bus, w, h, i, j) then [i] else [])
  {
    ScanPosition(i, j);
    CountTableAt(bus, w, h, p, NUM_FRAMERATES * NUM_MODES);
  }

  /** When the scan has just counted its `index`-th pair, that pair's rate is the `index`-th entry of the whole list. */
  lemma ScanFound(t: seq<bool>, p: nat, index: int)
    requires 0 < p <= |t| == NUM_FRAMERATES * NUM_MODES
    requires |RatesOf(t, p - 1)| <= index == |RatesOf(t, p)| - 1
    ensures index < |RatesOf(t, |t|)|
    ensures RatesOf(t, |t|)[index] == ScanRate(p - 1)
  {
    RatesOfPrefix(t, p, |t|);
  }

  /**
   * The counting loop of `ap1302_enum_frame_interval`: walk the legal
   * (rate, mode) pairs for the given size in rate-major order and stop at
   * the index-th one.
   */
  method FindIndexedRate(bus: BusType, w: u32, h: u32, index: nat) returns (found: bool, rate: RateIndex)
    ensures found <==> index < |LegalRates(bus, w, h)|
    ensures found ==> rate == LegalRates(bus, w, h)[index]
  {
    var count := 0;
    var i := 0;
    ghost var p := 0;
    ghost var t := CountTable(bus, w, h, NUM_FRAMERATES * NUM_MODES);
    while i < NUM_FRAMERATES
      invariant 0 <= i <= NUM_FRAMERATES && p == i * NUM_MODES
      invariant count == |RatesOf(t, p)| <= index
    {
      var j := 0;
      while j < NUM_MODES
        invariant 0 <= j <= NUM_MODES && p == i * NUM_MODES + j
        invariant count == |RatesOf(t, p)| <= index
      {
        ScanStep(bus, w, h, t, p, i, j);
        if Counted(bus, w, h, i, j) {
          count := count + 1;
        }
        p := p + 1;
        if index == count - 1 {
          ScanFound(t, p, index);
          return true, i;
        }
        j := j + 1;
      }
      i := i + 1;
    }
    return false, FPS_8;
  }

  /**
   * `ap1302_enum_frame_interval`: after the argument checks, the
   * numerator is set to 1 and the denominator to the rate of the
   * index-th legal (rate, mode) pair for the given size.
   */
  method EnumFrameInterval(bus: BusType, pad: nat, index: u32, w: u32, h: u32, code: u32, fi: Fract)
    returns (ret: int, fi': Fract)
    ensures pad != 0 || index >= NUM_FRAMERATES as u32 || w == 0 || h == 0 || code == 0 ==>
      ret == -EINVAL && fi' == fi
    ensures pad == 0 && index < NUM_FRAMERATES as u32 && w != 0 && h != 0 && code != 0 ==>
      (ret == 0 <==> index as int < |LegalRates(bus, w, h)|)
      && (ret == 0 ==> fi' == Fract(1, FrameRate(LegalRates(bus, w, h)[index])))
      && (ret != 0 ==> ret == -EINVAL && fi' == fi.(num := 1))
  {
    if pad != 0 || index >= NUM_FRAMERATES as u32 {
      return -EINVAL, fi;
    }
    if w == 0 || h == 0 || code == 0 {
      return -EINVAL, fi;
    }
    fi' := fi.(num := 1);
    var found, rate := FindIndexedRate(bus, w, h, index as nat);
    if found {
      fi' := fi'.(den := FrameRate(rate));
      return 0, fi';
    }
    return -EINVAL, fi';
  }

  /** A reported rate is legal for the catalogue mode of the requested size. */
  lemma EnumeratedRatesAreLegal(bus: BusType, w: u32, h: u32, k: nat)
    requires k < |LegalRates(bus, w, h)|
    ensures exists m: ModeIndex ::
      w == Mode(m).hact && h == Mode(m).vact && CheckValidMode(bus, Mode(m), LegalRates(bus, w, h)[k]) == 0
  {
    var t := CountTable(bus, w, h, NUM_FRAMERATES * NUM_MODES);
    RatesOfMarked(t, |t|, k);
    var q :| 0 <= q < |t| && t[q] && LegalRates(bus, w, h)[k] == ScanRate(q);
    CountTableAt(bus, w, h, q, |t|);
    assert Counted(bus, w, h, ScanRate(q), ScanMode(q));
  }
}
