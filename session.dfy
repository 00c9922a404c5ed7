/**
 * The session state machine of the AP1302 driver: power reference
 * counting, mode and format programming, stream start/stop, format and
 * frame-interval negotiation, the stall handshake, and the bounded
 * firmware-load retry loop run when the device is brought up.
 *
 * Every operation is a pure function of the session state (which includes
 * the cached register page), the bus oracle and the number of transactions
 * already issued, returning a `Step`; the methods of `Sensor` perform the
 * same steps on the object's fields and the bus and are proved equal to
 * those functions. The properties are lemmas about the functions.
 */
module Session {
  import opened Registers
  import opened Transport
  import opened Access
  import opened Wrappers
  import opened Firmware
  import opened Boot
  import opened Modes

  const MAX_FW_LOAD_RETRIES: nat := 3

  /** `last_mode` points either into the catalogue or at the separate power-on table entry. */
  datatype LastMode = Catalogue(index: ModeIndex) | InitData

  /** `V4L2_SUBDEV_FORMAT_TRY` or `V4L2_SUBDEV_FORMAT_ACTIVE`. */
  datatype Which = Try | Active

  /**
   * Power sequencing as abstract effects: clock and regulators switched
   * on or off together, and the reset/standby pin sequences of
   * `ap1302_power_on` and `ap1302_power_off`.
   */
  datatype PowerEvent = SupplyOn | SupplyOff | PowerOn | PowerOff

  /** What the device tree fixes at probe time: the bus type and the number of CSI-2 data lanes. */
  datatype Config = Config(bus: BusType, lanes: u8)

  /** The session fields of `struct ap1302_dev`, the cached register page, and the power effects so far. */
  datatype SessionState = SessionState(
    page: u32,
    powerCount: int,
    streaming: bool,
    pendingModeChange: bool,
    pendingFmtChange: bool,
    currentMode: ModeIndex,
    lastMode: LastMode,
    currentFr: RateIndex,
    frameInterval: Fract,
    fmt: Fmt,
    pixelRate: int,
    power: seq<PowerEvent>)

  /** The outcome of an operation: return code, new state, bus transactions issued. */
  datatype Step = Step(ret: int, s: SessionState, ops: seq<Op>)

  // ---------------------------------------------------------------------
  // Initial state (ap1302_probe)

  const PROBE_FMT: Fmt := Fmt(3840, 2160, MEDIA_BUS_FMT_UYVY8_1X16, V4L2_FIELD_NONE,
                             V4L2_COLORSPACE_SRGB, V4L2_YCBCR_ENC_601, V4L2_QUANTIZATION_FULL_RANGE,
                             V4L2_XFER_FUNC_SRGB, NO_RESERVED)

  /** The session as probe leaves it: 4K at 30 fps, UYVY8_1X16, unpowered, nothing pending. */
  function Probe(): SessionState
  {
    SessionState(0, 0, false, false, false, MODE_4K, Catalogue(MODE_4K), FPS_30, Fract(1, 30), PROBE_FMT,
                 PixelRate(Mode(MODE_4K), FPS_30), [])
  }

  /**
   * What every public entry point except `ap1302_stall` keeps true: the
   * published pixel rate and the stored interval match the current mode
   * and rate, the active format has the current mode's size and a
   * supported code, and a streaming session runs on CSI-2 at a legal
   * (mode, rate) pair with no change left pending.
   */
  ghost predicate Invariant(cfg: Config, s: SessionState)
  {
    s.pixelRate == PixelRate(Mode(s.currentMode), s.currentFr)
    && s.frameInterval == Fract(1, FrameRate(s.currentFr))
    && s.fmt.width == Mode(s.currentMode).hact && s.fmt.height == Mode(s.currentMode).vact
    && s.fmt.code in FORMATS
    && (s.streaming ==>
          cfg.bus == Csi2Dphy && CheckValidMode(cfg.bus, Mode(s.currentMode), s.currentFr) == 0
          && !s.pendingModeChange && !s.pendingFmtChange)
  }

  /** Probe starts the session in a state satisfying the invariant, unpowered and not streaming. */
  lemma ProbeSatisfiesInvariant(cfg: Config)
    ensures Invariant(cfg, Probe())
    ensures Probe().powerCount == 0 && !Probe().streaming && Probe().page == 0
  {
  }

  // ---------------------------------------------------------------------
  // Mode programming (ap1302_set_mode_direct, ap1302_set_mode)

  /** `SPOOF | MIPI_LANES(lanes)`: the spoof bit ORed with the lane count. */
  function HinfCtrl(lanes: u8): u32
  {
    Pow2Byte();
    BitOrBound(PREVIEW_HINF_CTRL_SPOOF, lanes, 8);
    BitOr(PREVIEW_HINF_CTRL_SPOOF, lanes)
  }

  /** The three writes that program a mode: host interface control, active width, active height. */
  function ModeWrites(cfg: Config, m: ModeInfo): seq<RegWrite>
  {
    [RegWrite(PREVIEW_HINF_CTRL, HinfCtrl(cfg.lanes)), RegWrite(PREVIEW_WIDTH, m.hact), RegWrite(PREVIEW_HEIGHT, m.vact)]
  }

  /** `ap1302_set_mode_direct`: the three writes chained through one error cell. */
  function SetModeDirectSpec(cfg: Config, page: u32, m: ModeInfo, respond: nat -> Reply, n: nat): Access
  {
    ModeChainLayer(FoldDepth(n), cfg, page, m, respond, n)
  }

  /** The chain of mode writes behind `k` layers; only `ModeChainUnfold` looks through them. */
  function ModeChainLayer(k: nat, cfg: Config, page: u32, m: ModeInfo, respond: nat -> Reply, n: nat): Access
  {
    if k == 0 then ChainSpec(page, ModeWrites(cfg, m), 0, respond, n)
    else ModeChainLayer(k - 1, cfg, page, m, respond, n)
  }

  /** The direct mode path is the chain of the three mode writes. */
  lemma ModeChainUnfold(cfg: Config, page: u32, m: ModeInfo, respond: nat -> Reply, n: nat)
    ensures SetModeDirectSpec(cfg, page, m, respond, n) == ChainSpec(page, ModeWrites(cfg, m), 0, respond, n)
  {
    assert FoldDepth(n) == 2;
    assert SetModeDirectSpec(cfg, page, m, respond, n) == ModeChainLayer(2, cfg, page, m, respond, n)
      == ModeChainLayer(1, cfg, page, m, respond, n) == ModeChainLayer(0, cfg, page, m, respond, n);
  }

  /**
   * `ap1302_set_mode`: program the current mode (the same direct path
   * whether or not the downscale strategy changes), then clear the
   * pending flag and record the mode as the last one, returning 0 whatever
   * the writes returned.
   */
  function SetModeSpec(cfg: Config, s: SessionState, respond: nat -> Reply, n: nat): Step
  {
    var a := SetModeDirectSpec(cfg, s.page, Mode(s.currentMode), respond, n);
    Step(0, s.(page := a.page, pendingModeChange := false, lastMode := Catalogue(s.currentMode)), a.ops)
  }

  /** `ap1302_set_framefmt`: the YUV 4:2:2 output format for a supported code, -EINVAL for any other. */
  function SetFramefmtSpec(page: u32, f: Fmt, respond: nat -> Reply, n: nat): Access
  {
    if f.code in FORMATS then
      var w := WriteSpec(page, PREVIEW_OUT_FMT, PREVIEW_OUT_FMT_YUV422_JFIF, Some(0), respond, n);
      Access(Kept(0, w.ret), w.page, w.ops, 0)
    else Access(-EINVAL, page, [], 0)
  }

  /**
   * `ap1302_restore_mode`: the power-on register script, then the current
   * mode programmed as a change from the power-on entry, then the output
   * format.
   */
  function RestoreModeSpec(cfg: Config, s: SessionState, respond: nat -> Reply, n: nat): Step
  {
    var l := ScriptSpec(s.page, INIT_DATA.script, 0, respond, n);
    if l.ret < 0 then Step(l.ret, s.(page := l.page), l.ops)
    else
      var m := SetModeSpec(cfg, s.(page := l.page, lastMode := InitData), respond, n + |l.ops|);
      if m.ret < 0 then Step(m.ret, m.s, l.ops + m.ops)
      else
        var f := SetFramefmtSpec(m.s.page, m.s.fmt, respond, n + |l.ops| + |m.ops|);
        Step(f.ret, m.s.(page := f.page), l.ops + m.ops + f.ops)
  }

  // ---------------------------------------------------------------------
  // Power (ap1302_set_power, ap1302_s_power)

  /**
   * `ap1302_set_power`: powering up restores the mode and, if that fails,
   * enters power-down (which clears `streaming`) and returns the error;
   * powering down only clears `streaming`.
   */
  function SetPowerSpec(cfg: Config, s: SessionState, on: bool, respond: nat -> Reply, n: nat): Step
  {
    if on then
      var r := RestoreModeSpec(cfg, s, respond, n);
      if r.ret != 0 then Step(r.ret, r.s.(streaming := false), r.ops) else Step(0, r.s, r.ops)
    else Step(0, s.(streaming := false), [])
  }

  /**
   * `ap1302_s_power`: only the 0 -> 1 (on) and 1 -> 0 (off) transitions of
   * the count call `ap1302_set_power`; a failure there leaves the count
   * alone, otherwise it moves by one. `ctrlSetup` is what replaying the
   * controls returns; it becomes the result when the count has just
   * reached 1 on a power-up.
   */
  function SPowerSpec(cfg: Config, s: SessionState, on: int, ctrlSetup: int, respond: nat -> Reply, n: nat): Step
  {
    var p := if s.powerCount == (if on == 0 then 1 else 0) then SetPowerSpec(cfg, s, on != 0, respond, n)
             else Step(0, s, []);
    if p.ret != 0 then p
    else
      var s' := p.s.(powerCount := p.s.powerCount + if on != 0 then 1 else -1);
      Step(if on != 0 && s'.powerCount == 1 then ctrlSetup else 0, s', p.ops)
  }

  // ---------------------------------------------------------------------
  // Streaming (ap1302_s_stream)

  /** The bus-specific stream call: the CSI-2 one always succeeds, the parallel one is not supported. */
  function StreamCall(bus: BusType, on: bool): int
  {
    if bus == Csi2Dphy then 0 else -EINVAL
  }

  /**
   * `ap1302_s_stream`: nothing to do when the session already streams as
   * requested; otherwise the (mode, rate) pair must be legal, a start
   * first applies a pending mode change and then a pending format change,
   * and `streaming` takes the requested value only if the stream call
   * returned 0.
   */
  function SStreamSpec(cfg: Config, s: SessionState, enable: int, respond: nat -> Reply, n: nat): Step
  {
    var on := enable != 0;
    if s.streaming == on then Step(0, s, [])
    else if CheckValidMode(cfg.bus, Mode(s.currentMode), s.currentFr) != 0 then
      Step(CheckValidMode(cfg.bus, Mode(s.currentMode), s.currentFr), s, [])
    else
      var p := PendingSpec(cfg, s, on, respond, n);
      if p.ret != 0 then p else StreamStep(cfg, p.s, on, p.ops)
  }

  /**
   * The pending changes `ap1302_s_stream` applies before starting the
   * stream: the mode when a mode change is pending, then the frame format
   * when a format change is pending (clearing that flag on success); the
   * first failure ends the step.
   */
  function PendingSpec(cfg: Config, s: SessionState, on: bool, respond: nat -> Reply, n: nat): Step
  {
    var m := if on && s.pendingModeChange then SetModeSpec(cfg, s, respond, n) else Step(0, s, []);
    if m.ret != 0 then m
    else if on && m.s.pendingFmtChange then
      var f := SetFramefmtSpec(m.s.page, m.s.fmt, respond, n + |m.ops|);
      if f.ret != 0 then Step(f.ret, m.s.(page := f.page), m.ops + f.ops)
      else Step(0, m.s.(page := f.page, pendingFmtChange := false), m.ops + f.ops)
    else m
  }

  /** The last part of a stream start or stop: the bus-specific call, then `streaming` if it succeeded. */
  function StreamStep(cfg: Config, s: SessionState, on: bool, ops: seq<Op>): Step
  {
    var st := StreamCall(cfg.bus, on);
    Step(st, if st == 0 then s.(streaming := on) else s, ops)
  }

  // ---------------------------------------------------------------------
  // Format and frame interval (ap1302_set_fmt, ap1302_get_fmt, ap1302_s_frame_interval)

  /** The outcome of `ap1302_set_fmt`: return code, new state, the caller's format and the TRY store afterwards. */
  datatype FmtStep = FmtStep(ret: int, s: SessionState, fmt: Fmt, tryFmt: Fmt)

  /**
   * `ap1302_set_fmt`: refused for a pad other than 0 and while streaming;
   * otherwise the request is snapped to the catalogue and stored (in the
   * TRY store or as the active format), the current mode follows the
   * snapped size on both paths, the pixel rate is republished, and the
   * active format is overwritten again when a change is pending.
   */
  function SetFmtSpec(s: SessionState, pad: nat, which: Which, f: Fmt, tryFmt: Fmt): FmtStep
  {
    if pad != 0 then FmtStep(-EINVAL, s, f, tryFmt)
    else if s.streaming then FmtStep(-EBUSY, s, f, tryFmt)
    else
      FmtCommit(s, which, TryFmt(f), tryFmt)
  }

  /**
   * The accepted path of `ap1302_set_fmt` once the request has been
   * snapped to `t`: the snapped format is stored (in the TRY store or as
   * the active format), the current mode follows it on both paths, the
   * pixel rate is republished, and the active format is overwritten again
   * when a change is pending.
   */
  function FmtCommit(s: SessionState, which: Which, t: TriedFmt, tryFmt: Fmt): FmtStep
  {
    var s1 := if which == Active then s.(fmt := t.fmt) else s;
    var try1 := if which == Try then t.fmt else tryFmt;
    var s2 := if t.mode != s1.currentMode then s1.(currentMode := t.mode, pendingModeChange := true) else s1;
    var s3 := if t.fmt.code != s2.fmt.code then s2.(pendingFmtChange := true) else s2;
    var s4 := s3.(pixelRate := PixelRate(Mode(s3.currentMode), s3.currentFr));
    var s5 := if s4.pendingModeChange || s4.pendingFmtChange then s4.(fmt := t.fmt) else s4;
    FmtStep(0, s5, t.fmt, try1)
  }

  /** The outcome of `ap1302_get_fmt` and `ap1302_s_frame_interval`: code, new state, value handed back. */
  datatype GetStep = GetStep(ret: int, s: SessionState, fmt: Option<Fmt>)
  datatype IntervalStep = IntervalStep(ret: int, s: SessionState, fi: Fract)

  /**
   * `ap1302_get_fmt` on the active format: the second reserved word of the
   * stored format is set to 30 when the current rate is 30 fps and to 15
   * otherwise, and the format is handed back. (The TRY path reads an
   * uninitialised pointer, hence the precondition.)
   */
  function GetFmtSpec(s: SessionState, pad: nat, which: Which): GetStep
    requires pad != 0 || which == Active
  {
    if pad != 0 then GetStep(-EINVAL, s, None)
    else
      var f := s.fmt.(reserved := s.fmt.reserved[1 := if s.currentFr == FPS_30 then 30 else 15]);
      GetStep(0, s.(fmt := f), Some(f))
  }

  /**
   * `ap1302_s_frame_interval`: refused for a pad other than 0 and while
   * streaming; otherwise the interval is moved to a table rate for the
   * current mode's size. If no rate fits, the stored interval is handed
   * back and 0 returned; if the rate or mode differ from the current
   * ones, they are committed, a mode change is left pending and the pixel
   * rate republished.
   */
  function SFrameIntervalSpec(s: SessionState, pad: nat, fi: Fract): IntervalStep
  {
    if pad != 0 then IntervalStep(-EINVAL, s, fi)
    else if s.streaming then IntervalStep(-EBUSY, s, fi)
    else
      var m := Mode(s.currentMode);
      var t := TryFrameInterval(fi, m.hact, m.vact);
      if t.ret < 0 then IntervalStep(0, s, s.frameInterval)
      else
        TryFrameIntervalOutcome(fi, m.hact, m.vact);
        var rate: RateIndex := t.ret;
        var found := FindMode(m.hact, m.vact, true);
        if found.None? then IntervalStep(-EINVAL, s, t.fi)
        else IntervalCommit(s, rate, t.fi, found.value)
  }

  /**
   * The accepted path of `ap1302_s_frame_interval` once the interval has
   * been moved to table rate `rate` and the mode looked up: committed,
   * with a mode change left pending and the pixel rate republished, when
   * the rate or the mode differ from the current ones.
   */
  function IntervalCommit(s: SessionState, rate: RateIndex, fi: Fract, mode: ModeIndex): IntervalStep
  {
    if mode != s.currentMode || rate != s.currentFr then
      IntervalStep(0, s.(currentFr := rate, frameInterval := fi, currentMode := mode,
                         pendingModeChange := true, pixelRate := PixelRate(Mode(mode), rate)), fi)
    else IntervalStep(0, s, fi)
  }

  // ---------------------------------------------------------------------
  // Stall (ap1302_stall)

  const SYS_START_STALL_ENTER: u32 := SYS_START_PLL_LOCK + SYS_START_STALL_MODE_DISABLED
  const SYS_START_STALL_ARM: u32 := SYS_START_PLL_LOCK + SYS_START_STALL_EN + SYS_START_STALL_MODE_DISABLED
  const SYS_START_STALL_LEAVE: u32 :=
    SYS_START_PLL_LOCK + SYS_START_STALL_STATUS + SYS_START_STALL_EN + SYS_START_STALL_MODE_DISABLED

  /** The two `SYS_START` writes that enter the stall. */
  const STALL_WRITES: seq<RegWrite> := [RegWrite(SYS_START, SYS_START_STALL_ENTER), RegWrite(SYS_START, SYS_START_STALL_ARM)]

  /**
   * `ap1302_stall`: entering the stall chains two `SYS_START` writes and,
   * if they succeeded, enables the SIPM interrupts and clears
   * `streaming`; leaving it sets `streaming` before its single write,
   * whatever that write returns.
   */
  function StallSpec(s: SessionState, stall: bool, respond: nat -> Reply, n: nat): Step
  {
    if stall then
      var c := ChainSpec(s.page, STALL_WRITES, 0, respond, n);
      if c.ret < 0 then Step(c.ret, s.(page := c.page), c.ops)
      else
        var w := WriteSpec(c.page, ADV_IRQ_SYS_INTE, ADV_IRQ_SYS_INTE_SIPM_FIFO, Some(c.ret), respond, n + |c.ops|);
        var e := Kept(c.ret, w.ret);
        if e < 0 then Step(e, s.(page := w.page), c.ops + w.ops)
        else Step(0, s.(page := w.page, streaming := false), c.ops + w.ops)
    else
      var w := WriteSpec(s.page, SYS_START, SYS_START_STALL_LEAVE, None, respond, n);
      Step(w.ret, s.(page := w.page, streaming := true), w.ops)
  }

  // ---------------------------------------------------------------------
  // Bring-up (ap1302_hw_init)

  /** `ap1302_set_power_off`: power-down sequence, supplies off, and `streaming` cleared. */
  function SetPowerOffSpec(s: SessionState): SessionState
  {
    s.(power := s.power + [PowerOff, SupplyOff], streaming := false)
  }

  /**
   * The firmware image `blob` as found by a lookup that returned
   * `fetched` is one the driver can process without undefined behaviour:
   * it holds a header, and if the header is accepted there is boot data
   * after it (an empty upload returns an uninitialised code).
   */
  predicate FirmwareDefined(fetched: int, blob: seq<u8>)
  {
    fetched == 0 ==> |blob| >= HEADER_SIZE && (PllInitSize(blob) <= |blob| - HEADER_SIZE ==> |blob| > HEADER_SIZE)
  }

  /** Where the retry loop leaves the session: code, retry counter, page, transactions and power effects. */
  datatype Retry = Retry(ret: int, retries: nat, page: u32, ops: seq<Op>, power: seq<PowerEvent>)

  /** `r` preceded by the transactions `ops` and the power effects `ev`. */
  function Then(ops: seq<Op>, ev: seq<PowerEvent>, r: Retry): Retry
  {
    r.(ops := ops + r.ops, power := ev + r.power)
  }

  /** One attempt of the load loop: code, cache, transactions, and whether the loop goes round again. */
  datatype Attempt = Attempt(ret: int, page: u32, ops: seq<Op>, again: bool)

  /**
   * One attempt: identify the chip and, if that worked, load the
   * firmware. Only a load that ended in -EAGAIN (checksum mismatch) asks
   * for another attempt.
   */
  function AttemptSpec(blob: seq<u8>, page: u32, respond: nat -> Reply, n: nat): (a: Attempt)
    requires |blob| > HEADER_SIZE
    ensures a.again ==> a.ret == -EAGAIN
  {
    AttemptLayer(FoldDepth(n), blob, page, respond, n)
  }

  /** The definition of `AttemptSpec`, behind `k` layers so that reasoning about the loop does not unfold it. */
  function AttemptLayer(k: nat, blob: seq<u8>, page: u32, respond: nat -> Reply, n: nat): (a: Attempt)
    requires |blob| > HEADER_SIZE
    ensures a.again ==> a.ret == -EAGAIN
    decreases k
  {
    if k > 0 then AttemptLayer(k - 1, blob, page, respond, n)
    else
      var d := DetectSpec(page, respond, n);
      if d.ret != 0 then Attempt(d.ret, d.page, d.ops, false)
      else
        var l := LoadSpec(blob, d.page, respond, n + |d.ops|);
        Attempt(l.ret, l.page, d.ops + l.ops, l.ret == -EAGAIN)
  }

  /**
   * The load loop of `ap1302_hw_init` from iteration `retries` on, with
   * `ret` the code when it was entered. Each attempt runs the power-on
   * sequence first; an attempt that does not ask for another leaves the
   * loop with its code, and one that does powers the device off and goes
   * round again while attempts remain.
   */
  function RetrySpec(blob: seq<u8>, retries: nat, ret: int, page: u32, respond: nat -> Reply, n: nat): Retry
    requires |blob| > HEADER_SIZE
    decreases Remaining(retries), 3
  {
    RetryLayer(FoldDepth(n), blob, retries, ret, page, respond, n)
  }

  /** How many attempts the loop has left at iteration `retries`. */
  function Remaining(retries: nat): nat
  {
    if retries >= MAX_FW_LOAD_RETRIES then 0 else MAX_FW_LOAD_RETRIES - retries
  }

  /** The definition of `RetrySpec`, behind `k` layers as for `AttemptLayer`. */
  function RetryLayer(k: nat, blob: seq<u8>, retries: nat, ret: int, page: u32, respond: nat -> Reply, n: nat): Retry
    requires |blob| > HEADER_SIZE
    decreases Remaining(retries), k
  {
    if k > 0 then RetryLayer(k - 1, blob, retries, ret, page, respond, n)
    else if retries >= MAX_FW_LOAD_RETRIES then Retry(ret, retries, page, [], [])
    else
      var a := AttemptSpec(blob, page, respond, n);
      if !a.again then Retry(a.ret, retries, a.page, a.ops, [PowerOn])
      else Then(a.ops, [PowerOn, PowerOff], RetrySpec(blob, retries + 1, a.ret, a.page, respond, n + |a.ops|))
  }

  /**
   * `ap1302_hw_init`: the header check, the supply power-up (whose result
   * `supply` comes from the clock and regulator framework), the load
   * loop, and on any failure after power-up `ap1302_set_power_off`;
   * exhausting the attempts gives -ETIMEDOUT.
   */
  function HwInitSpec(fetched: int, blob: seq<u8>, supply: Status, s: SessionState, respond: nat -> Reply, n: nat): Step
    requires FirmwareDefined(fetched, blob)
  {
    var r := RequestFirmware(fetched, blob);
    if r != 0 then Step(r, s, [])
    else if supply < 0 then Step(supply, s, [])
    else
      var s1 := s.(power := s.power + [SupplyOn, PowerOn]);
      AfterLoad(s1, RetrySpec(blob, 0, 0, s1.page, respond, n))
  }

  /** The end of bring-up once the load loop gave `t`: a timeout or a failed load powers the device off. */
  function AfterLoad(s1: SessionState, t: Retry): Step
  {
    var s2 := s1.(page := t.page, power := s1.power + t.power);
    if t.retries == MAX_FW_LOAD_RETRIES then Step(-ETIMEDOUT, SetPowerOffSpec(s2), t.ops)
    else if t.ret != 0 then Step(t.ret, SetPowerOffSpec(s2), t.ops)
    else Step(0, s2, t.ops)
  }

  // ---------------------------------------------------------------------
  // Properties: mode and format programming

  /** With at most 15 data lanes, the host interface word is the spoof bit plus the lane count. */
  lemma HinfCtrlValue(lanes: u8)
    ensures 0x10 <= HinfCtrl(lanes) < 0x100
    ensures lanes < 0x10 ==> HinfCtrl(lanes) == 0x10 + lanes
  {
    BitOrCovers(PREVIEW_HINF_CTRL_SPOOF, lanes);
    Pow2Byte();
    BitOrBound(PREVIEW_HINF_CTRL_SPOOF, lanes, 8);
    assert Pow2(4) == 16 by {
      assert Pow2(1) == 2;
      assert Pow2(2) == 4;
      assert Pow2(3) == 8;
    }
    if lanes < 0x10 {
      BitOrDisjoint(1, lanes, 4);
    }
  }

  /** The transactions of a mode change that meets no failure. */
  function ModeOps(cfg: Config, m: ModeInfo): seq<Op>
  {
    [Write(W16, 0x2030, HinfCtrl(cfg.lanes)), Write(W16, 0x2000, m.hact), Write(W16, 0x2002, m.vact)]
  }

  /**
   * The direct mode change writes registers 0x2030, 0x2000 and 0x2002 in
   * that order, all 16 bits wide and outside any page, so the page cache
   * is untouched; it stops after the first failing write and returns its
   * status, and returns 0 exactly when all three writes succeeded.
   */
  lemma SetModeDirectOutcome(cfg: Config, page: u32, m: ModeInfo, respond: nat -> Reply, n: nat)
    ensures var a := SetModeDirectSpec(cfg, page, m, respond, n);
      a.page == page && 1 <= |a.ops| <= 3 && a.ops == ModeOps(cfg, m)[..|a.ops|]
      && (a.ret == 0 <==> a.ops == ModeOps(cfg, m) && AllSucceed(respond, n, 3))
      && (a.ret != 0 ==> a.ret == respond(n + |a.ops| - 1).status && AllSucceed(respond, n, |a.ops| - 1))
  {
    ModeChainUnfold(cfg, page, m, respond, n);
    var ws := ModeWrites(cfg, m);
    assert Unpaged16(ws) by {
      assert forall i :: 0 <= i < 3 ==> ws[i].reg.size == 2 && RegPage(ws[i].reg) == 0;
    }
    UnpagedChain(page, ws, respond, n);
    assert Plain16(ws) == ModeOps(cfg, m) by {
      assert Plain16(ws[2..]) == [Write(W16, 0x2002, m.vact)];
      assert Plain16(ws[1..]) == [Write(W16, 0x2000, m.hact)] + Plain16(ws[2..]);
    }
  }

  /**
   * `ap1302_set_mode` returns 0 even when a write failed; it leaves the
   * page cache alone, clears the pending mode change and records the
   * current mode as the last one programmed, changing nothing else.
   */
  lemma SetModeIgnoresFailure(cfg: Config, s: SessionState, respond: nat -> Reply, n: nat)
    ensures var r := SetModeSpec(cfg, s, respond, n);
      r.ret == 0 && r.s == s.(pendingModeChange := false, lastMode := Catalogue(s.currentMode))
      && r.ops == SetModeDirectSpec(cfg, s.page, Mode(s.currentMode), respond, n).ops
      && 1 <= |r.ops| <= 3
  {
    SetModeDirectOutcome(cfg, s.page, Mode(s.currentMode), respond, n);
  }

  /**
   * Setting the output format writes 0x50 (YUV 4:2:2, JFIF) to register
   * 0x2012 for each of the four supported codes and returns that write's
   * status; any other code gives -EINVAL with no transaction. The page
   * cache is untouched either way.
   */
  lemma SetFramefmtOutcome(page: u32, f: Fmt, respond: nat -> Reply, n: nat)
    ensures var a := SetFramefmtSpec(page, f, respond, n);
      a.page == page
      && (f.code in FORMATS ==> a.ops == [Write(W16, 0x2012, 0x50)] && a.ret == respond(n).status)
      && (f.code !in FORMATS ==> a.ret == -EINVAL && a.ops == [])
  {
    AccumulatorRecordsFailure(page, PREVIEW_OUT_FMT, PREVIEW_OUT_FMT_YUV422_JFIF, respond, n);
    UnpagedAccess(page, PREVIEW_OUT_FMT, PREVIEW_OUT_FMT_YUV422_JFIF, respond, n);
  }

  /**
   * The enumerated codes are exactly the ones the output format write
   * accepts: for them the format register is written, for any other code
   * nothing is sent and the result is -EINVAL.
   */
  lemma EnumeratedCodesAreAccepted(page: u32, f: Fmt, respond: nat -> Reply, n: nat)
    ensures var a := SetFramefmtSpec(page, f, respond, n);
      ((exists index :: EnumMbusCode(0, index) == Some(f.code)) <==> a.ops == [Write(W16, 0x2012, 0x50)])
      && (!(exists index :: EnumMbusCode(0, index) == Some(f.code)) ==> a.ret == -EINVAL && a.ops == [])
  {
    SetFramefmtOutcome(page, f, respond, n);
    EnumMbusCodeListsSupported(f);
  }

  /**
   * Restoring the mode after power-up: the power-on script is empty, so
   * the mode writes come first (their failures ignored), then the output
   * format write, whose outcome is the result. The pending mode change is
   * cleared and the current mode recorded as the last one; the cache and
   * every other field are unchanged.
   */
  lemma RestoreModeOutcome(cfg: Config, s: SessionState, respond: nat -> Reply, n: nat)
    ensures var r := RestoreModeSpec(cfg, s, respond, n);
      var d := SetModeDirectSpec(cfg, s.page, Mode(s.currentMode), respond, n);
      r.s == s.(pendingModeChange := false, lastMode := Catalogue(s.currentMode))
      && r.ops == d.ops + (if s.fmt.code in FORMATS then [Write(W16, 0x2012, 0x50)] else [])
      && r.ret == (if s.fmt.code in FORMATS then respond(n + |d.ops|).status else -EINVAL)
  {
    var l := ScriptSpec(s.page, INIT_DATA.script, 0, respond, n);
    assert l == Access(0, s.page, [], 0);
    var s1 := s.(lastMode := InitData);
    SetModeIgnoresFailure(cfg, s1, respond, n);
    var m := SetModeSpec(cfg, s1, respond, n);
    SetFramefmtOutcome(m.s.page, m.s.fmt, respond, n + |m.ops|);
    assert l.ops + m.ops == m.ops;
  }

  // ---------------------------------------------------------------------
  // Properties: power

  /**
   * A call that is not an edge of the reference count (a nested power-up,
   * or a power-down that leaves a user) only moves the count by one,
   * issues nothing and returns 0.
   */
  lemma NestedPowerOnlyCounts(cfg: Config, s: SessionState, on: int, ctrlSetup: int, respond: nat -> Reply, n: nat)
    requires s.powerCount != (if on == 0 then 1 else 0)
    ensures SPowerSpec(cfg, s, on, ctrlSetup, respond, n)
      == Step(0, s.(powerCount := s.powerCount + if on != 0 then 1 else -1), [])
  {
    if on != 0 {
      assert s.powerCount + 1 != 1;
    }
  }

  /**
   * The last power-down (count 1 to 0) always succeeds: it stops
   * streaming, issues nothing and keeps the page cache, which therefore
   * survives the power cycle.
   */
  lemma LastPowerDownStopsStreaming(cfg: Config, s: SessionState, ctrlSetup: int, respond: nat -> Reply, n: nat)
    requires s.powerCount == 1
    ensures SPowerSpec(cfg, s, 0, ctrlSetup, respond, n) == Step(0, s.(powerCount := 0, streaming := false), [])
  {
  }

  /**
   * The first power-up (count 0 to 1) restores the mode. If the output
   * format write succeeds, the count becomes 1 and the result is the
   * control replay's; otherwise the count stays 0, streaming is cleared
   * and the write's error (or -EINVAL) is returned.
   */
  lemma FirstPowerUpRestoresMode(cfg: Config, s: SessionState, on: int, ctrlSetup: int, respond: nat -> Reply, n: nat)
    requires s.powerCount == 0 && on != 0
    ensures var r := SPowerSpec(cfg, s, on, ctrlSetup, respond, n);
      var d := SetModeDirectSpec(cfg, s.page, Mode(s.currentMode), respond, n);
      var restored := s.(pendingModeChange := false, lastMode := Catalogue(s.currentMode));
      var ok := s.fmt.code in FORMATS && respond(n + |d.ops|).status == 0;
      r.ops == d.ops + (if s.fmt.code in FORMATS then [Write(W16, 0x2012, 0x50)] else [])
      && (ok ==> r.ret == ctrlSetup && r.s == restored.(powerCount := 1))
      && (!ok ==> r.ret < 0 && r.s == restored.(streaming := false))
  {
    RestoreModeOutcome(cfg, s, respond, n);
  }

  /**
   * Across every call, the count moves by exactly one unless the power-up
   * it triggered failed, in which case it is unchanged; the bus is used
   * only on the 0 to 1 edge.
   */
  lemma PowerCountMovesByOne(cfg: Config, s: SessionState, on: int, ctrlSetup: int, respond: nat -> Reply, n: nat)
    ensures var r := SPowerSpec(cfg, s, on, ctrlSetup, respond, n);
      var moved := s.powerCount + if on != 0 then 1 else -1;
      (r.s.powerCount == moved || (on != 0 && s.powerCount == 0 && r.ret < 0 && r.s.powerCount == 0))
      && (r.ops != [] ==> on != 0 && s.powerCount == 0)
  {
    if on != 0 && s.powerCount == 0 {
      FirstPowerUpRestoresMode(cfg, s, on, ctrlSetup, respond, n);
    } else if on == 0 && s.powerCount == 1 {
      LastPowerDownStopsStreaming(cfg, s, ctrlSetup, respond, n);
    } else {
      NestedPowerOnlyCounts(cfg, s, on, ctrlSetup, respond, n);
    }
  }

  // ---------------------------------------------------------------------
  // Properties: streaming

  /** A request for the state the session is already in does nothing and returns 0. */
  lemma SStreamNoop(cfg: Config, s: SessionState, enable: int, respond: nat -> Reply, n: nat)
    requires s.streaming == (enable != 0)
    ensures SStreamSpec(cfg, s, enable, respond, n) == Step(0, s, [])
  {
  }

  /**
   * An illegal (mode, rate) pair is refused with -EINVAL, for a stop as
   * well as a start, with no transaction and no change.
   */
  lemma SStreamRejectsIllegal(cfg: Config, s: SessionState, enable: int, respond: nat -> Reply, n: nat)
    requires s.streaming != (enable != 0)
    requires !RateAllowed(cfg.bus, Mode(s.currentMode).id, s.currentFr)
    ensures SStreamSpec(cfg, s, enable, respond, n) == Step(-EINVAL, s, [])
  {
  }

  /**
   * `streaming` changes only on a successful call, and then to the
   * requested value; that needs a legal pair and the CSI-2 bus, so a
   * parallel or BT.656 session never starts streaming.
   */
  lemma SStreamSetsStreamingOnlyOnSuccess(cfg: Config, s: SessionState, enable: int, respond: nat -> Reply, n: nat)
    ensures var r := SStreamSpec(cfg, s, enable, respond, n);
      r.s.streaming != s.streaming ==>
        r.ret == 0 && r.s.streaming == (enable != 0) && cfg.bus == Csi2Dphy
        && CheckValidMode(cfg.bus, Mode(s.currentMode), s.currentFr) == 0
    ensures cfg.bus != Csi2Dphy ==> SStreamSpec(cfg, s, enable, respond, n).s.streaming == s.streaming
  {
  }

  /**
   * A successful start has applied every pending change: the pending mode
   * change was programmed first (mode writes, failures ignored) and the
   * pending format change next (the output format write, which must have
   * succeeded), after which both flags are clear.
   */
  lemma SStreamAppliesPending(cfg: Config, s: SessionState, enable: int, respond: nat -> Reply, n: nat)
    requires !s.streaming && enable != 0
    ensures var r := SStreamSpec(cfg, s, enable, respond, n);
      var d := SetModeDirectSpec(cfg, s.page, Mode(s.currentMode), respond, n);
      var modeOps := if s.pendingModeChange then d.ops else [];
      r.s.streaming ==>
        !r.s.pendingModeChange && !r.s.pendingFmtChange
        && (s.pendingModeChange ==> r.s.lastMode == Catalogue(s.currentMode))
        && r.ops == modeOps + (if s.pendingFmtChange then [Write(W16, 0x2012, 0x50)] else [])
        && (s.pendingFmtChange ==> respond(n + |modeOps|).status == 0)
  {
    var m := if s.pendingModeChange then SetModeSpec(cfg, s, respond, n) else Step(0, s, []);
    if s.pendingModeChange {
      SetModeIgnoresFailure(cfg, s, respond, n);
    }
    SetFramefmtOutcome(m.s.page, m.s.fmt, respond, n + |m.ops|);
  }

  // ---------------------------------------------------------------------
  // Properties: format and frame interval

  /** While streaming, and for any pad but 0, a format request is refused and nothing changes. */
  lemma SetFmtRefusals(s: SessionState, pad: nat, which: Which, f: Fmt, tryFmt: Fmt)
    requires pad != 0 || s.streaming
    ensures var r := SetFmtSpec(s, pad, which, f, tryFmt);
      r.ret == (if pad != 0 then -EINVAL else -EBUSY) && r.s == s && r.tryFmt == tryFmt
  {
  }

  /**
   * An accepted format request returns the request snapped to the nearest
   * catalogue size with a supported code, and makes the snapped size's
   * mode current for a TRY request as well as an ACTIVE one, leaving a
   * mode change pending when the mode differs. On the ACTIVE path the
   * format is stored before the code comparison, so it never raises the
   * pending format change; on the TRY path the comparison is against the
   * active format, and the active format is overwritten whenever a change
   * is pending. The pixel rate is republished; the rate, interval, last
   * mode, cache, power and streaming state are untouched.
   */
  lemma SetFmtOutcome(s: SessionState, which: Which, f: Fmt, tryFmt: Fmt)
    requires !s.streaming
    ensures var r := SetFmtSpec(s, 0, which, f, tryFmt);
      var mode := NearestSize(f.width, f.height);
      r.ret == 0 && r.fmt == TryFmt(f).fmt
      && r.fmt.width == Mode(mode).hact && r.fmt.height == Mode(mode).vact && r.fmt.code in FORMATS
      && r.s.currentMode == mode
      && r.s.pendingModeChange == (s.pendingModeChange || mode != s.currentMode)
      && r.s.pixelRate == PixelRate(Mode(mode), s.currentFr)
      && r.s.(currentMode := s.currentMode, pendingModeChange := s.pendingModeChange, pendingFmtChange := s.pendingFmtChange,
              fmt := s.fmt, pixelRate := s.pixelRate) == s
      && (which == Active ==>
            r.s.fmt == r.fmt && r.s.pendingFmtChange == s.pendingFmtChange && r.tryFmt == tryFmt)
      && (which == Try ==>
            r.tryFmt == r.fmt
            && r.s.pendingFmtChange == (s.pendingFmtChange || r.fmt.code != s.fmt.code)
            && r.s.fmt == (if r.s.pendingModeChange || r.s.pendingFmtChange then r.fmt else s.fmt))
  {
    TryFmtSnaps(f);
  }

  /** Reading the active format stamps the rate hint (30 or 15) into its second reserved word and changes nothing else. */
  lemma GetFmtOutcome(s: SessionState)
    ensures var r := GetFmtSpec(s, 0, Active);
      r.ret == 0 && r.fmt == Some(r.s.fmt)
      && r.s.fmt.reserved[1] == (if s.currentFr == FPS_30 then 30 else 15)
      && (forall k :: 0 <= k < RESERVED_WORDS && k != 1 ==> r.s.fmt.reserved[k] == s.fmt.reserved[k])
      && r.s.fmt.(reserved := s.fmt.reserved) == s.fmt
      && r.s.(fmt := s.fmt) == s
    ensures GetFmtSpec(GetFmtSpec(s, 0, Active).s, 0, Active) == GetFmtSpec(s, 0, Active)
  {
    var v: u16 := if s.currentFr == FPS_30 then 30 else 15;
    assert s.fmt.reserved[1 := v][1 := v] == s.fmt.reserved[1 := v];
  }

  /** While streaming, and for any pad but 0, a frame-interval request is refused and nothing changes. */
  lemma SFrameIntervalRefusals(s: SessionState, pad: nat, fi: Fract)
    requires pad != 0 || s.streaming
    ensures var r := SFrameIntervalSpec(s, pad, fi);
      r.ret == (if pad != 0 then -EINVAL else -EBUSY) && r.s == s
  {
  }

  /**
   * An accepted interval request always succeeds: the current mode's size
   * is in the catalogue, so neither the fallback to the stored interval
   * nor the -EINVAL of the mode lookup can happen. The request is
   * rewritten to one over the chosen table rate; the mode stays; a new
   * rate is committed with its interval and pixel rate and leaves a mode
   * change pending, and the same rate changes nothing.
   */
  lemma SFrameIntervalOutcome(s: SessionState, fi: Fract)
    requires !s.streaming
    ensures var r := SFrameIntervalSpec(s, 0, fi);
      var rate := RequestedRate(fi);
      r.ret == 0 && r.fi == IntervalFor(fi)
      && (rate == s.currentFr ==> r.s == s)
      && (rate != s.currentFr ==>
            r.s == s.(currentFr := rate, frameInterval := IntervalFor(fi), pendingModeChange := true,
                      pixelRate := PixelRate(Mode(s.currentMode), rate)))
  {
    TryFrameIntervalAtMode(fi, s.currentMode);
  }

  /** Requesting the interval the session already has changes nothing and hands it back. */
  lemma SFrameIntervalCurrentIsFixpoint(cfg: Config, s: SessionState)
    requires Invariant(cfg, s) && !s.streaming
    ensures SFrameIntervalSpec(s, 0, s.frameInterval) == IntervalStep(0, s, s.frameInterval)
  {
    var fps := FrameRate(s.currentFr);
    assert DivRoundClosest(fps, 1) == fps;
    NearestRateIsNearest(fps);
    assert RateDistance(fps, NearestRate(fps)) == 0;
    assert RequestedRate(s.frameInterval) == s.currentFr;
    SFrameIntervalOutcome(s, s.frameInterval);
  }

  // ---------------------------------------------------------------------
  // Properties: stall

  /**
   * Entering the stall changes only the cached page and `streaming`: a
   * success leaves the advanced-registers page selected and `streaming`
   * cleared, a failure returns a negative code with `streaming` untouched.
   */
  lemma StallEnterState(s: SessionState, respond: nat -> Reply, n: nat)
    ensures var r := StallSpec(s, true, respond, n);
      && (r.ret == 0 ==> r.s == s.(page := 0x23_0000, streaming := false))
      && (r.ret != 0 ==> r.ret < 0 && r.s.(page := s.page) == s)
  {
    var ws := STALL_WRITES;
    assert Unpaged16(ws) by {
      assert forall i :: 0 <= i < 2 ==> ws[i].reg.size == 2 && RegPage(ws[i].reg) == 0;
    }
    UnpagedChain(s.page, ws, respond, n);
    var c := ChainSpec(s.page, ws, 0, respond, n);
    if c.ret == 0 {
      PagedWriteOutcome(c.page, ADV_IRQ_SYS_INTE, ADV_IRQ_SYS_INTE_SIPM_FIFO, respond, n + |c.ops|);
      AccumulatorRecordsFailure(c.page, ADV_IRQ_SYS_INTE, ADV_IRQ_SYS_INTE_SIPM_FIFO, respond, n + |c.ops|);
    }
  }

  /** The two stall-control writes go straight to the bus, in order, and keep the page cache. */
  lemma StallChain(page: u32, respond: nat -> Reply, n: nat)
    ensures var c := ChainSpec(page, STALL_WRITES, 0, respond, n);
      var head := [Write(W16, 0x601A, 0x8040), Write(W16, 0x601A, 0x8140)];
      c.page == page && c.ret <= 0 && |c.ops| <= 2 && c.ops == head[..|c.ops|]
      && (c.ret == 0 <==> c.ops == head && AllSucceed(respond, n, 2))
  {
    var ws := STALL_WRITES;
    assert Unpaged16(ws) by {
      assert forall i :: 0 <= i < 2 ==> ws[i].reg.size == 2 && RegPage(ws[i].reg) == 0;
    }
    UnpagedChain(page, ws, respond, n);
    assert Plain16(ws) == [Write(W16, 0x601A, 0x8040), Write(W16, 0x601A, 0x8140)] by {
      assert Plain16(ws[1..]) == [Write(W16, 0x601A, 0x8140)];
    }
  }

  /** The transfers of a successful stall entry from cached page `page`. */
  function StallOps(page: u32): seq<Op>
  {
    [Write(W16, 0x601A, 0x8040), Write(W16, 0x601A, 0x8140)]
    + (if page == 0x23_0000 then [] else [PageSelect(0x23_0000)])
    + [Write(W32, 0xE000, 0xC8)]
  }

  /** The stall-entry transfers are the two control writes, then the paged interrupt-enable write. */
  lemma StallOpsSplit(page: u32)
    ensures StallOps(page)
      == [Write(W16, 0x601A, 0x8040), Write(W16, 0x601A, 0x8140)]
         + PagedWriteOps(page, ADV_IRQ_SYS_INTE, ADV_IRQ_SYS_INTE_SIPM_FIFO)
  {
    assert RegPage(ADV_IRQ_SYS_INTE) == 0x23_0000;
  }

  /**
   * Entering the stall writes 0x8040 then 0x8140 to `SYS_START`, then
   * enables the SIPM interrupts in page 0x23 (switching page if needed);
   * it returns 0 and clears `streaming` exactly when every transaction
   * succeeded, and otherwise returns the failing status with `streaming`
   * unchanged.
   */
  lemma StallEnterOutcome(s: SessionState, respond: nat -> Reply, n: nat)
    ensures var r := StallSpec(s, true, respond, n);
      |r.ops| <= |StallOps(s.page)| && r.ops == StallOps(s.page)[..|r.ops|]
      && (r.ret == 0 <==> r.ops == StallOps(s.page) && AllSucceed(respond, n, |r.ops|))
  {
    var head := [Write(W16, 0x601A, 0x8040), Write(W16, 0x601A, 0x8140)];
    StallChain(s.page, respond, n);
    var c := ChainSpec(s.page, STALL_WRITES, 0, respond, n);
    var r := StallSpec(s, true, respond, n);
    if c.ret == 0 {
      var m := n + 2;
      var tail := PagedWriteOps(s.page, ADV_IRQ_SYS_INTE, ADV_IRQ_SYS_INTE_SIPM_FIFO);
      AccumulatorRecordsFailure(c.page, ADV_IRQ_SYS_INTE, ADV_IRQ_SYS_INTE_SIPM_FIFO, respond, m);
      var w := WriteSpec(c.page, ADV_IRQ_SYS_INTE, ADV_IRQ_SYS_INTE_SIPM_FIFO, None, respond, m);
      PagedWriteOutcome(c.page, ADV_IRQ_SYS_INTE, ADV_IRQ_SYS_INTE_SIPM_FIFO, respond, m);
      assert r.ret == w.ret && r.ops == head + w.ops;
      StallOpsSplit(s.page);
      SucceededPrefix(head, tail, w.ops, w.ret, respond, n);
    } else {
      assert r.ops == c.ops;
    }
  }


  /**
   * Leaving the stall marks the session streaming before its single
   * `SYS_START` write (0x8340), whatever that write returns and whatever
   * the bus, mode and pending changes: it bypasses every check of
   * `ap1302_s_stream`.
   */
  lemma StallLeaveSetsStreaming(s: SessionState, respond: nat -> Reply, n: nat)
    ensures var r := StallSpec(s, false, respond, n);
      r.s == s.(streaming := true) && r.ops == [Write(W16, 0x601A, 0x8340)] && r.ret == respond(n).status
  {
    UnpagedAccess(s.page, SYS_START, SYS_START_STALL_LEAVE, respond, n);
  }

  /** So leaving the stall can break the invariant: from the probe state on a parallel bus it starts streaming. */
  lemma StallLeaveBreaksInvariant(respond: nat -> Reply, n: nat)
    ensures Invariant(Config(Parallel, 0), Probe())
    ensures !Invariant(Config(Parallel, 0), StallSpec(Probe(), false, respond, n).s)
  {
    StallLeaveSetsStreaming(Probe(), respond, n);
  }

  // ---------------------------------------------------------------------
  // Properties: bring-up

  /** `k` power cycles of the load loop: power-on then power-off, `k` times. */
  function Cycles(k: nat): (ev: seq<PowerEvent>)
    ensures |ev| == 2 * k
  {
    if k == 0 then [] else [PowerOn, PowerOff] + Cycles(k - 1)
  }

  /**
   * The load loop from iteration `retries` on makes at most the remaining
   * attempts, and leaving it after the last one means the last load ended
   * in -EAGAIN (or, with no attempt left, that the entry code is kept).
   */
  lemma {:induction false} RetryBound(blob: seq<u8>, retries: nat, ret: int, page: u32, respond: nat -> Reply, n: nat)
    requires |blob| > HEADER_SIZE && retries <= MAX_FW_LOAD_RETRIES
    ensures LoopBounded(RetrySpec(blob, retries, ret, page, respond, n), retries, ret)
    decreases MAX_FW_LOAD_RETRIES - retries
  {
    var r := RetrySpec(blob, retries, ret, page, respond, n);
    if retries < MAX_FW_LOAD_RETRIES {
      var a := AttemptSpec(blob, page, respond, n);
      if a.again {
        var m := n + |a.ops|;
        var t := RetrySpec(blob, retries + 1, a.ret, a.page, respond, m);
        assert r.retries == t.retries && r.ret == t.ret by {
          RetryUnfold(blob, retries, ret, page, respond, n);
        }
        RetryBound(blob, retries + 1, a.ret, a.page, respond, m);
        assert LoopBounded(t, retries + 1, a.ret);
        assert a.ret == -EAGAIN;
      } else {
        assert r.retries == retries by {
          RetryUnfold(blob, retries, ret, page, respond, n);
        }
      }
    } else {
      assert r == Retry(ret, retries, page, [], []) by {
        RetryUnfold(blob, retries, ret, page, respond, n);
      }
    }
  }

  /**
   * The power effects of the load loop from iteration `retries` on: a
   * power-on and a power-off for every attempt that asked for another,
   * and a final power-on when the loop was left early (the device stays
   * powered for the caller to handle).
   */
  lemma {:induction false} RetryPower(blob: seq<u8>, retries: nat, ret: int, page: u32, respond: nat -> Reply, n: nat)
    requires |blob| > HEADER_SIZE && retries <= MAX_FW_LOAD_RETRIES
    ensures var r := RetrySpec(blob, retries, ret, page, respond, n);
      retries <= r.retries
      && r.power == LoopPower(r, retries)
    decreases MAX_FW_LOAD_RETRIES - retries, 1
  {
    var r := RetrySpec(blob, retries, ret, page, respond, n);
    if retries < MAX_FW_LOAD_RETRIES {
      var a := AttemptSpec(blob, page, respond, n);
      if a.again {
        RetryPowerAgain(blob, retries, ret, page, respond, n);
      } else {
        assert r == Retry(a.ret, retries, a.page, a.ops, [PowerOn]) by {
          RetryUnfold(blob, retries, ret, page, respond, n);
        }
      }
    } else {
      assert r == Retry(ret, retries, page, [], []) by {
        RetryUnfold(blob, retries, ret, page, respond, n);
      }
    }
  }

  /** `RetryPower` for an iteration whose attempt asks for another. */
  lemma {:induction false} RetryPowerAgain(blob: seq<u8>, retries: nat, ret: int, page: u32, respond: nat -> Reply, n: nat)
    requires |blob| > HEADER_SIZE && retries < MAX_FW_LOAD_RETRIES && AttemptSpec(blob, page, respond, n).again
    ensures var r := RetrySpec(blob, retries, ret, page, respond, n);
      retries <= r.retries && r.power == LoopPower(r, retries)
    decreases MAX_FW_LOAD_RETRIES - retries, 0
  {
    var a := AttemptSpec(blob, page, respond, n);
    var m := n + |a.ops|;
    RetryAgain(blob, retries, ret, page, respond, n);
    RetryPower(blob, retries + 1, a.ret, a.page, respond, m);
    CycleBefore(a.ops, RetrySpec(blob, retries, ret, page, respond, n), RetrySpec(blob, retries + 1, a.ret, a.page, respond, m), retries);
  }

  /** `AttemptSpec` unfolded: the detection, then, if it succeeded, the load. */
  lemma AttemptUnfold(blob: seq<u8>, page: u32, respond: nat -> Reply, n: nat)
    requires |blob| > HEADER_SIZE
    ensures var d := DetectSpec(page, respond, n);
      var l := LoadSpec(blob, d.page, respond, n + |d.ops|);
      AttemptSpec(blob, page, respond, n)
        == if d.ret != 0 then Attempt(d.ret, d.page, d.ops, false)
           else Attempt(l.ret, l.page, d.ops + l.ops, l.ret == -EAGAIN)
  {
    assert FoldDepth(n) == 2;
    assert AttemptSpec(blob, page, respond, n) == AttemptLayer(2, blob, page, respond, n)
      == AttemptLayer(1, blob, page, respond, n) == AttemptLayer(0, blob, page, respond, n);
  }

  /** Effects `ops2`, `ev2` and then `r`, all after `ops1`, `ev1`: the effects concatenate. */
  lemma ThenThen(ops1: seq<Op>, ev1: seq<PowerEvent>, ops2: seq<Op>, ev2: seq<PowerEvent>, r: Retry)
    ensures Then(ops1, ev1, Then(ops2, ev2, r)) == Then(ops1 + ops2, ev1 + ev2, r)
  {
    assert ops1 + (ops2 + r.ops) == ops1 + ops2 + r.ops;
    assert ev1 + (ev2 + r.power) == ev1 + ev2 + r.power;
  }

  /**
   * The loop seen from iteration `retries` with `ops` and `ev` already
   * done: an attempt that does not ask for another ends the loop with its
   * code, page and transactions and a final power-on.
   */
  lemma RetryStops(whole: Retry, ops: seq<Op>, ev: seq<PowerEvent>, blob: seq<u8>, retries: nat, ret: int, page: u32,
                   respond: nat -> Reply, n: nat)
    requires |blob| > HEADER_SIZE && retries < MAX_FW_LOAD_RETRIES && !AttemptSpec(blob, page, respond, n).again
    requires whole == Then(ops, ev, RetrySpec(blob, retries, ret, page, respond, n))
    ensures var a := AttemptSpec(blob, page, respond, n);
      whole == Retry(a.ret, retries, a.page, ops + a.ops, ev + [PowerOn])
  {
    RetryUnfold(blob, retries, ret, page, respond, n);
  }

  /** As `RetryStops`, for an attempt that asks for another: a power cycle, then the loop from the next iteration. */
  lemma RetryContinues(whole: Retry, ops: seq<Op>, ev: seq<PowerEvent>, blob: seq<u8>, retries: nat, ret: int, page: u32,
                       respond: nat -> Reply, n: nat)
    requires |blob| > HEADER_SIZE && retries < MAX_FW_LOAD_RETRIES && AttemptSpec(blob, page, respond, n).again
    requires whole == Then(ops, ev, RetrySpec(blob, retries, ret, page, respond, n))
    ensures var a := AttemptSpec(blob, page, respond, n);
      whole == Then(ops + a.ops, ev + [PowerOn, PowerOff],
                    RetrySpec(blob, retries + 1, a.ret, a.page, respond, n + |a.ops|))
  {
    var a := AttemptSpec(blob, page, respond, n);
    var rest := RetrySpec(blob, retries + 1, a.ret, a.page, respond, n + |a.ops|);
    assert whole == Then(ops, ev, Then(a.ops, [PowerOn, PowerOff], rest)) by {
      RetryAgain(blob, retries, ret, page, respond, n);
    }
    ThenThen(ops, ev, a.ops, [PowerOn, PowerOff], rest);
  }

  /** With every attempt used, the loop seen from its end is what was done so far. */
  lemma RetryExhausted(whole: Retry, ops: seq<Op>, ev: seq<PowerEvent>, blob: seq<u8>, ret: int, page: u32,
                       respond: nat -> Reply, n: nat)
    requires |blob| > HEADER_SIZE
    requires whole == Then(ops, ev, RetrySpec(blob, MAX_FW_LOAD_RETRIES, ret, page, respond, n))
    ensures whole == Retry(ret, MAX_FW_LOAD_RETRIES, page, ops, ev)
  {
    RetryUnfold(blob, MAX_FW_LOAD_RETRIES, ret, page, respond, n);
    assert ops + [] == ops && ev + [] == ev;
  }

  /** An attempt that asks for another is followed by a power cycle and the rest of the loop. */
  lemma RetryAgain(blob: seq<u8>, retries: nat, ret: int, page: u32, respond: nat -> Reply, n: nat)
    requires |blob| > HEADER_SIZE && retries < MAX_FW_LOAD_RETRIES && AttemptSpec(blob, page, respond, n).again
    ensures var a := AttemptSpec(blob, page, respond, n);
      RetrySpec(blob, retries, ret, page, respond, n)
        == Then(a.ops, [PowerOn, PowerOff], RetrySpec(blob, retries + 1, a.ret, a.page, respond, n + |a.ops|))
  {
    RetryUnfold(blob, retries, ret, page, respond, n);
  }

  /** `RetrySpec` unfolded once: nothing after the last iteration, otherwise the attempt and, if it asks for another, the rest. */
  lemma RetryUnfold(blob: seq<u8>, retries: nat, ret: int, page: u32, respond: nat -> Reply, n: nat)
    requires |blob| > HEADER_SIZE
    ensures retries >= MAX_FW_LOAD_RETRIES ==> RetrySpec(blob, retries, ret, page, respond, n) == Retry(ret, retries, page, [], [])
    ensures retries < MAX_FW_LOAD_RETRIES ==>
      var a := AttemptSpec(blob, page, respond, n);
      RetrySpec(blob, retries, ret, page, respond, n)
        == if !a.again then Retry(a.ret, retries, a.page, a.ops, [PowerOn])
           else Then(a.ops, [PowerOn, PowerOff], RetrySpec(blob, retries + 1, a.ret, a.page, respond, n + |a.ops|))
  {
    assert FoldDepth(n) == 2;
    assert RetrySpec(blob, retries, ret, page, respond, n) == RetryLayer(2, blob, retries, ret, page, respond, n)
      == RetryLayer(1, blob, retries, ret, page, respond, n) == RetryLayer(0, blob, retries, ret, page, respond, n);
  }

  /**
   * A loop result `r` entered at iteration `from` with code `ret`: at most
   * the remaining attempts were made, running out means the last load
   * asked for another, and with none left the entry code is kept.
   */
  predicate LoopBounded(r: Retry, from: nat, ret: int)
  {
    from <= r.retries <= MAX_FW_LOAD_RETRIES
    && (r.retries == MAX_FW_LOAD_RETRIES && from < MAX_FW_LOAD_RETRIES ==> r.ret == -EAGAIN)
    && (from == MAX_FW_LOAD_RETRIES ==> r.ret == ret)
  }

  /** The power events a loop result `r` entered at iteration `from` should show. */
  function LoopPower(r: Retry, from: nat): seq<PowerEvent>
    requires from <= r.retries
  {
    Cycles(r.retries - from) + (if r.retries < MAX_FW_LOAD_RETRIES then [PowerOn] else [])
  }

  /** One more power cycle in front of the rest of the loop is one more cycle in `LoopPower`. */
  lemma CycleBefore(ops: seq<Op>, r: Retry, t: Retry, retries: nat)
    requires retries + 1 <= t.retries && r == Then(ops, [PowerOn, PowerOff], t)
    requires t.power == LoopPower(t, retries + 1)
    ensures r.power == LoopPower(r, retries)
  {
    CyclesStep(t.retries - (retries + 1));
  }

  lemma CyclesStep(k: nat)
    ensures Cycles(k + 1) == [PowerOn, PowerOff] + Cycles(k)
  {
  }

  /**
   * Bring-up attempts the load at most three times. On success the device
   * is left powered: the supply power-up, then one power cycle per failed
   * attempt, then the power-on of the attempt that worked. Exhausting the
   * attempts gives -ETIMEDOUT after exactly three cycles; any failure
   * after the supplies came up ends with the power-off sequence and
   * `streaming` cleared. A rejected header or a supply failure returns at
   * once with nothing done.
   */
  lemma HwInitOutcome(fetched: int, blob: seq<u8>, supply: Status, s: SessionState, respond: nat -> Reply, n: nat)
    requires FirmwareDefined(fetched, blob)
    ensures var r := HwInitSpec(fetched, blob, supply, s, respond, n);
      var up := RequestFirmware(fetched, blob) == 0 && supply == 0;
      (!up ==> r.ret != 0 && r.s == s && r.ops == [])
      && (up ==> AfterLoadFacts(s, r))
  {
    if RequestFirmware(fetched, blob) == 0 && supply == 0 {
      assert |blob| > HEADER_SIZE;
      var s1 := s.(power := s.power + [SupplyOn, PowerOn]);
      RetryBound(blob, 0, 0, s1.page, respond, n);
      RetryPower(blob, 0, 0, s1.page, respond, n);
      AfterLoadOutcome(s, RetrySpec(blob, 0, 0, s1.page, respond, n));
    }
  }

  /**
   * What bring-up promises once the supplies are up, for a session that
   * was in `s`: success leaves the device powered after fewer than three
   * failed attempts, the exact three-cycle power trace is the timeout,
   * any failure ends powered off with `streaming` cleared, and only the
   * page, the power trace and `streaming` change.
   */
  ghost predicate AfterLoadFacts(s: SessionState, r: Step)
  {
    (r.ret == 0 ==>
       exists k: nat :: k < MAX_FW_LOAD_RETRIES && r.s.power == s.power + [SupplyOn, PowerOn] + Cycles(k) + [PowerOn])
    && (var exhausted := s.power + [SupplyOn, PowerOn] + Cycles(MAX_FW_LOAD_RETRIES) + [PowerOff, SupplyOff];
        r.s.power == exhausted ==> r.ret == -ETIMEDOUT)
    && (r.ret != 0 ==> !r.s.streaming && |r.s.power| >= 2 && r.s.power[|r.s.power| - 2..] == [PowerOff, SupplyOff])
    && r.s.(page := s.page, power := s.power, streaming := s.streaming) == s
  }

  lemma AfterLoadOutcome(s: SessionState, t: Retry)
    requires LoopBounded(t, 0, 0) && t.power == LoopPower(t, 0)
    ensures AfterLoadFacts(s, AfterLoad(s.(power := s.power + [SupplyOn, PowerOn]), t))
  {
    var s1 := s.(power := s.power + [SupplyOn, PowerOn]);
    if t.retries < MAX_FW_LOAD_RETRIES {
      assert s1.power + t.power == s.power + [SupplyOn, PowerOn] + Cycles(t.retries) + [PowerOn];
    }
  }

  // ---------------------------------------------------------------------
  // Properties: the session invariant

  /** Power changes keep the invariant: only the page, the pending mode flag, the last mode and `streaming` (cleared) move. */
  lemma SPowerKeepsInvariant(cfg: Config, s: SessionState, on: int, ctrlSetup: int, respond: nat -> Reply, n: nat)
    requires Invariant(cfg, s)
    ensures Invariant(cfg, SPowerSpec(cfg, s, on, ctrlSetup, respond, n).s)
  {
    RestoreModeOutcome(cfg, s, respond, n);
  }

  /** Starting or stopping the stream keeps the invariant: a stream starts only once nothing is pending, on CSI-2, at a legal pair. */
  lemma SStreamKeepsInvariant(cfg: Config, s: SessionState, enable: int, respond: nat -> Reply, n: nat)
    requires Invariant(cfg, s)
    ensures Invariant(cfg, SStreamSpec(cfg, s, enable, respond, n).s)
  {
    SetModeIgnoresFailure(cfg, s, respond, n);
  }

  /** Setting a format keeps the invariant: the active format follows the current mode whenever a change is pending. */
  lemma SetFmtKeepsInvariant(cfg: Config, s: SessionState, pad: nat, which: Which, f: Fmt, tryFmt: Fmt)
    requires Invariant(cfg, s)
    ensures Invariant(cfg, SetFmtSpec(s, pad, which, f, tryFmt).s)
  {
    TryFmtSnaps(f);
  }

  /** Reading the active format keeps the invariant: only a reserved word changes. */
  lemma GetFmtKeepsInvariant(cfg: Config, s: SessionState)
    requires Invariant(cfg, s)
    ensures Invariant(cfg, GetFmtSpec(s, 0, Active).s)
  {
  }

  /** Setting the frame interval keeps the invariant: the stored interval and the pixel rate follow the new rate. */
  lemma SFrameIntervalKeepsInvariant(cfg: Config, s: SessionState, pad: nat, fi: Fract)
    requires Invariant(cfg, s)
    ensures Invariant(cfg, SFrameIntervalSpec(s, pad, fi).s)
  {
    if pad == 0 && !s.streaming {
      SFrameIntervalOutcome(s, fi);
      TryFrameIntervalOutcome(fi, Mode(s.currentMode).hact, Mode(s.currentMode).vact);
    }
  }

  /** Entering the stall keeps the invariant: it can only clear `streaming`. */
  lemma StallEnterKeepsInvariant(cfg: Config, s: SessionState, respond: nat -> Reply, n: nat)
    requires Invariant(cfg, s)
    ensures Invariant(cfg, StallSpec(s, true, respond, n).s)
  {
    StallEnterState(s, respond, n);
  }

  /** Bring-up keeps the invariant: it can only move the page and the power trace and clear `streaming`. */
  lemma HwInitKeepsInvariant(cfg: Config, fetched: int, blob: seq<u8>, supply: Status, s: SessionState, respond: nat -> Reply, n: nat)
    requires FirmwareDefined(fetched, blob) && Invariant(cfg, s)
    ensures Invariant(cfg, HwInitSpec(fetched, blob, supply, s, respond, n).s)
  {
    HwInitOutcome(fetched, blob, supply, s, respond, n);
  }
}
