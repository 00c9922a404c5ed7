/**
 * `struct ap1302_dev` as an object: the session fields the driver updates
 * in place, the register map (cached page and bus) it drives, and the
 * power effects so far. Each method performs the operation of the same
 * name in `driver/ap1302.c` step by step and is proved to do exactly what
 * the corresponding function of `Session` describes: same return code,
 * same new state, same bus transactions.
 */
module Device {
  import opened Registers
  import opened Transport
  import opened Access
  import opened Wrappers
  import opened Firmware
  import opened Boot
  import opened Modes
  import opened Session

  class Sensor {
    /** Bus type and lane count, fixed at probe time. */
    const cfg: Config
    /** The register map: cached page and the bus it drives. */
    const rm: RegisterMap

    var powerCount: int
    var streaming: bool
    var pendingModeChange: bool
    var pendingFmtChange: bool
    var currentMode: ModeIndex
    var lastMode: LastMode
    var currentFr: RateIndex
    var frameInterval: Fract
    var fmt: Fmt
    var pixelRate: int
    /** The power effects (supplies, power-up and power-down sequences) so far, oldest first. */
    var power: seq<PowerEvent>

    /** The object's fields as a session value. */
    ghost function State(): SessionState
      reads this, rm
    {
      SessionState(rm.regPage, powerCount, streaming, pendingModeChange, pendingFmtChange, currentMode, lastMode,
                   currentFr, frameInterval, fmt, pixelRate, power)
    }

    /** The session fields as `ap1302_probe` sets them, over a fresh register map on `bus`. */
    constructor (cfg: Config, bus: Bus)
      ensures this.cfg == cfg && rm.bus == bus && fresh(rm)
      ensures State() == Probe()
    {
      this.cfg := cfg;
      rm := new RegisterMap(bus);
      powerCount := 0;
      streaming := false;
      pendingModeChange := false;
      pendingFmtChange := false;
      fmt := PROBE_FMT;
      frameInterval := Fract(1, 30);
      currentFr := FPS_30;
      currentMode := MODE_4K;
      lastMode := Catalogue(MODE_4K);
      pixelRate := PixelRate(Mode(MODE_4K), FPS_30);
      power := [];
    }

    /** `ap1302_set_mode_direct`: three writes through one error cell, whose content is returned. */
    method SetModeDirect(m: ModeInfo) returns (ret: int)
      modifies rm, rm.bus
      ensures var a := SetModeDirectSpec(cfg, old(rm.regPage), m, rm.bus.respond, |old(rm.bus.log)|);
        ret == a.ret && rm.regPage == a.page && rm.bus.log == old(rm.bus.log) + a.ops
    {
      ghost var page, n := rm.regPage, |rm.bus.log|;
      var st, err := rm.Write(PREVIEW_HINF_CTRL, HinfCtrl(cfg.lanes), Some(0));
      ghost var log1 := rm.bus.log;
      st, err := rm.Write(PREVIEW_WIDTH, m.hact, err);
      ghost var log2 := rm.bus.log;
      st, err := rm.Write(PREVIEW_HEIGHT, m.vact, err);
      ghost var ws := ModeWrites(cfg, m);
      ChainOfThree(page, ws, 0, rm.bus.respond, n);
      ModeChainUnfold(cfg, page, m, rm.bus.respond, n);
      ConcatAssoc(old(rm.bus.log), log1[n..], log2[|log1|..]);
      ConcatAssoc(old(rm.bus.log), log1[n..] + log2[|log1|..], rm.bus.log[|log2|..]);
      ret := err.value;
    }

    /** `ap1302_set_mode`: the direct path whatever it returns, then the bookkeeping; always 0. */
    method SetMode() returns (ret: int)
      modifies this, rm, rm.bus
      ensures var r := SetModeSpec(cfg, old(State()), rm.bus.respond, |old(rm.bus.log)|);
        ret == r.ret && State() == r.s && rm.bus.log == old(rm.bus.log) + r.ops
    {
      // Both downscale-strategy branches of the source call the direct path.
      var ignored := SetModeDirect(Mode(currentMode));
      pendingModeChange := false;
      lastMode := Catalogue(currentMode);
      ret := 0;
    }

    /** `ap1302_set_framefmt`: one write of the YUV 4:2:2 output format through a clean cell, or -EINVAL. */
    method SetFramefmt(f: Fmt) returns (ret: int)
      modifies rm, rm.bus
      ensures var a := SetFramefmtSpec(old(rm.regPage), f, rm.bus.respond, |old(rm.bus.log)|);
        ret == a.ret && rm.regPage == a.page && rm.bus.log == old(rm.bus.log) + a.ops
    {
      if f.code !in FORMATS {
        return -EINVAL;
      }
      var st, err := rm.Write(PREVIEW_OUT_FMT, PREVIEW_OUT_FMT_YUV422_JFIF, Some(0));
      ret := err.value;
    }

    /** `ap1302_restore_mode`: the power-on script, the current mode as a change from it, the output format. */
    method RestoreMode() returns (ret: int)
      modifies this, rm, rm.bus
      ensures var r := RestoreModeSpec(cfg, old(State()), rm.bus.respond, |old(rm.bus.log)|);
        ret == r.ret && State() == r.s && rm.bus.log == old(rm.bus.log) + r.ops
    {
      ghost var log0 := rm.bus.log;
      ret := rm.LoadRegs(INIT_DATA.script);
      if ret < 0 {
        return;
      }
      lastMode := InitData;
      ghost var log1 := rm.bus.log;
      // `ap1302_set_mode` returns 0, so the error exit after it is never taken.
      ret := SetMode();
      ghost var log2 := rm.bus.log;
      ret := SetFramefmt(fmt);
      ConcatAssoc(log0, log1[|log0|..], log2[|log1|..]);
      ConcatAssoc(log0, log1[|log0|..] + log2[|log1|..], rm.bus.log[|log2|..]);
    }

    /** `ap1302_set_power`: restore the mode on power-up, entering power-down if that fails. */
    method SetPower(on: bool) returns (ret: int)
      modifies this, rm, rm.bus
      ensures var r := SetPowerSpec(cfg, old(State()), on, rm.bus.respond, |old(rm.bus.log)|);
        ret == r.ret && State() == r.s && rm.bus.log == old(rm.bus.log) + r.ops
    {
      if on {
        ret := RestoreMode();
        if ret != 0 {
          streaming := false;
          return;
        }
      } else {
        streaming := false;
        ret := 0;
      }
    }

    /** `ap1302_s_power`: the reference-counted power switch; `ctrlSetup` is what replaying the controls returns. */
    method SPower(on: int, ctrlSetup: int) returns (ret: int)
      modifies this, rm, rm.bus
      ensures var r := SPowerSpec(cfg, old(State()), on, ctrlSetup, rm.bus.respond, |old(rm.bus.log)|);
        ret == r.ret && State() == r.s && rm.bus.log == old(rm.bus.log) + r.ops
    {
      ret := 0;
      if powerCount == (if on == 0 then 1 else 0) {
        ret := SetPower(on != 0);
        if ret != 0 {
          return;
        }
      }
      powerCount := powerCount + if on != 0 then 1 else -1;
      if on != 0 && powerCount == 1 {
        ret := ctrlSetup;
      }
    }

    /** `ap1302_s_stream`: start or stop the stream, applying pending changes on a start. */
    method SStream(enable: int) returns (ret: int)
      modifies this, rm, rm.bus
      ensures var r := SStreamSpec(cfg, old(State()), enable, rm.bus.respond, |old(rm.bus.log)|);
        ret == r.ret && State() == r.s && rm.bus.log == old(rm.bus.log) + r.ops
    {
      var on := enable != 0;
      if streaming == on {
        return 0;
      }
      ret := CheckValidMode(cfg.bus, Mode(currentMode), currentFr);
      if ret != 0 {
        return;
      }
      ret := ApplyPending(on);
      if ret != 0 {
        return;
      }
      ret := StreamCall(cfg.bus, on);
      if ret == 0 {
        streaming := on;
      }
    }

    /** The mode and frame-format changes left pending, applied before `ap1302_s_stream` starts the stream. */
    method ApplyPending(on: bool) returns (ret: int)
      modifies this, rm, rm.bus
      ensures var r := PendingSpec(cfg, old(State()), on, rm.bus.respond, |old(rm.bus.log)|);
        ret == r.ret && State() == r.s && rm.bus.log == old(rm.bus.log) + r.ops
    {
      ret := 0;
      if on && pendingModeChange {
        // `ap1302_set_mode` returns 0, so the error exit after it is never taken.
        ret := SetMode();
      }
      ghost var log1 := rm.bus.log;
      if on && pendingFmtChange {
        ret := SetFramefmt(fmt);
        ConcatAssoc(old(rm.bus.log), log1[|old(rm.bus.log)|..], rm.bus.log[|log1|..]);
        if ret != 0 {
          return;
        }
        pendingFmtChange := false;
      }
    }

    /**
     * `ap1302_set_fmt`: the request snapped to the catalogue, stored in the
     * TRY store `tryFmt` or as the active format, with the mode, pending
     * flags and pixel rate following it. `f'` is the format handed back.
     */
    method SetFmt(pad: nat, which: Which, f: Fmt, tryFmt: Fmt) returns (ret: int, f': Fmt, tryFmt': Fmt)
      modifies this
      ensures var r := SetFmtSpec(old(State()), pad, which, f, tryFmt);
        ret == r.ret && State() == r.s && f' == r.fmt && tryFmt' == r.tryFmt
    {
      f', tryFmt' := f, tryFmt;
      if pad != 0 {
        return -EINVAL, f', tryFmt';
      }
      if streaming {
        return -EBUSY, f', tryFmt';
      }
      var t := TryFmt(f);
      ret, f', tryFmt' := CommitFmt(which, t, tryFmt);
    }

    /** The accepted path of `ap1302_set_fmt`, once the request has been snapped to `t`. */
    method CommitFmt(which: Which, t: TriedFmt, tryFmt: Fmt) returns (ret: int, f': Fmt, tryFmt': Fmt)
      modifies this
      ensures var r := FmtCommit(old(State()), which, t, tryFmt);
        ret == r.ret && State() == r.s && f' == r.fmt && tryFmt' == r.tryFmt
    {
      f', tryFmt' := t.fmt, tryFmt;
      if which == Try {
        tryFmt' := f';
      } else {
        fmt := f';
      }
      if t.mode != currentMode {
        currentMode := t.mode;
        pendingModeChange := true;
      }
      if f'.code != fmt.code {
        pendingFmtChange := true;
      }
      pixelRate := PixelRate(Mode(currentMode), currentFr);
      if pendingModeChange || pendingFmtChange {
        fmt := f';
      }
      ret := 0;
    }

    /** `ap1302_get_fmt` on the active format: the rate marker is stored into it and the format handed back. */
    method GetFmt(pad: nat, which: Which) returns (ret: int, f: Option<Fmt>)
      requires pad != 0 || which == Active
      modifies this
      ensures var r := GetFmtSpec(old(State()), pad, which);
        ret == r.ret && State() == r.s && f == r.fmt
    {
      if pad != 0 {
        return -EINVAL, None;
      }
      fmt := fmt.(reserved := fmt.reserved[1 := if currentFr == FPS_30 then 30 else 15]);
      return 0, Some(fmt);
    }

    /** `ap1302_s_frame_interval`: the interval moved to a table rate, committed when it changes the rate or mode. */
    method SFrameInterval(pad: nat, fi: Fract) returns (ret: int, fi': Fract)
      modifies this
      ensures var r := SFrameIntervalSpec(old(State()), pad, fi);
        ret == r.ret && State() == r.s && fi' == r.fi
    {
      if pad != 0 {
        return -EINVAL, fi;
      }
      if streaming {
        return -EBUSY, fi;
      }
      var m := Mode(currentMode);
      var t := TryFrameInterval(fi, m.hact, m.vact);
      if t.ret < 0 {
        return 0, frameInterval;
      }
      TryFrameIntervalOutcome(fi, m.hact, m.vact);
      var rate: RateIndex := t.ret;
      var found := FindMode(m.hact, m.vact, true);
      if found.None? {
        return -EINVAL, t.fi;
      }
      ret, fi' := CommitInterval(rate, t.fi, found.value);
    }

    /** The accepted path of `ap1302_s_frame_interval`, once the rate and the mode are known. */
    method CommitInterval(rate: RateIndex, fi: Fract, mode: ModeIndex) returns (ret: int, fi': Fract)
      modifies this
      ensures var r := IntervalCommit(old(State()), rate, fi, mode);
        ret == r.ret && State() == r.s && fi' == r.fi
    {
      if mode != currentMode || rate != currentFr {
        currentFr := rate;
        frameInterval := fi;
        currentMode := mode;
        pendingModeChange := true;
        pixelRate := PixelRate(Mode(currentMode), currentFr);
      }
      return 0, fi;
    }

    /**
     * `ap1302_hw_init`: check the firmware (`fetched` is what the firmware
     * loader returned), power up (`supply` is what the clock and regulator
     * framework returned), run the load loop, and power off again on any
     * failure after power-up.
     */
    method HwInit(fetched: int, blob: seq<u8>, supply: Status) returns (ret: int)
      requires FirmwareDefined(fetched, blob)
      modifies this, rm, rm.bus
      ensures var r := HwInitSpec(fetched, blob, supply, old(State()), rm.bus.respond, |old(rm.bus.log)|);
        ret == r.ret && State() == r.s && rm.bus.log == old(rm.bus.log) + r.ops
    {
      ret := RequestFirmware(fetched, blob);
      if ret != 0 {
        return;
      }
      if supply < 0 {
        return supply;
      }
      power := power + [SupplyOn, PowerOn];
      var retries, events;
      ret, retries, events := LoadLoop(blob);
      power := power + events;
      if retries == MAX_FW_LOAD_RETRIES {
        ret := -ETIMEDOUT;
        SetPowerOff();
      } else if ret != 0 {
        SetPowerOff();
      }
    }

    /**
     * The load loop of `ap1302_hw_init`: each attempt powers the device on,
     * identifies the chip and loads the firmware; only a checksum mismatch
     * (-EAGAIN) powers it off and goes round again. `retries` is the loop
     * counter when the loop was left and `events` the power sequences it ran.
     */
    method LoadLoop(blob: seq<u8>) returns (ret: int, retries: nat, events: seq<PowerEvent>)
      requires |blob| > HEADER_SIZE
      modifies rm, rm.bus
      ensures var t := RetrySpec(blob, 0, 0, old(rm.regPage), rm.bus.respond, |old(rm.bus.log)|);
        ret == t.ret && retries == t.retries && rm.regPage == t.page && rm.bus.log == old(rm.bus.log) + t.ops
        && events == t.power
    {
      ret, retries, events := 0, 0, [];
      ghost var start := rm.bus.log;
      ghost var whole := RetrySpec(blob, 0, 0, rm.regPage, rm.bus.respond, |rm.bus.log|);
      ghost var doneOps: seq<Op> := [];
      assert whole == Then(doneOps, events, whole);
      while retries < MAX_FW_LOAD_RETRIES
        invariant retries <= MAX_FW_LOAD_RETRIES
        invariant rm.bus.log == start + doneOps
        invariant whole == Then(doneOps, events, RetrySpec(blob, retries, ret, rm.regPage, rm.bus.respond, |rm.bus.log|))
        decreases MAX_FW_LOAD_RETRIES - retries
      {
        ghost var page, n, ret0 := rm.regPage, |rm.bus.log|, ret;
        ghost var a := AttemptSpec(blob, page, rm.bus.respond, n);
        events := events + [PowerOn];
        var again;
        ret, again := LoadAttempt(blob);
        ConcatAssoc(start, doneOps, a.ops);
        if !again {
          RetryStops(whole, doneOps, events[..|events| - 1], blob, retries, ret0, page, rm.bus.respond, n);
          return;
        }
        events := events + [PowerOff];
        RetryContinues(whole, doneOps, events[..|events| - 2], blob, retries, ret0, page, rm.bus.respond, n);
        doneOps := doneOps + a.ops;
        retries := retries + 1;
      }
      RetryExhausted(whole, doneOps, events, blob, ret, rm.regPage, rm.bus.respond, |rm.bus.log|);
    }

    /**
     * One attempt of the load loop: identify the chip and, if that worked,
     * load the firmware. `again` is set when the loop goes round again,
     * which only a checksum mismatch (-EAGAIN) from the load asks for.
     */
    method LoadAttempt(blob: seq<u8>) returns (ret: int, again: bool)
      requires |blob| > HEADER_SIZE
      modifies rm, rm.bus
      ensures var a := AttemptSpec(blob, old(rm.regPage), rm.bus.respond, |old(rm.bus.log)|);
        ret == a.ret && again == a.again && rm.regPage == a.page && rm.bus.log == old(rm.bus.log) + a.ops
    {
      AttemptUnfold(blob, rm.regPage, rm.bus.respond, |rm.bus.log|);
      ret := DetectChip(rm);
      if ret != 0 {
        return ret, false;
      }
      ghost var log1 := rm.bus.log;
      ret := LoadFirmware(rm, blob);
      ConcatAssoc(old(rm.bus.log), log1[|old(rm.bus.log)|..], rm.bus.log[|log1|..]);
      again := ret == -EAGAIN;
    }

    /** `ap1302_stall`: enter the stall (two chained writes, then the interrupt enable) or leave it. */
    method Stall(stall: bool) returns (ret: int)
      modifies this, rm, rm.bus
      ensures var r := StallSpec(old(State()), stall, rm.bus.respond, |old(rm.bus.log)|);
        ret == r.ret && State() == r.s && rm.bus.log == old(rm.bus.log) + r.ops
    {
      if stall {
        var err := StallWrites();
        if err < 0 {
          return err;
        }
        ghost var log1 := rm.bus.log;
        var st, cell := rm.Write(ADV_IRQ_SYS_INTE, ADV_IRQ_SYS_INTE_SIPM_FIFO, Some(err));
        ConcatAssoc(old(rm.bus.log), log1[|old(rm.bus.log)|..], rm.bus.log[|log1|..]);
        if cell.value < 0 {
          return cell.value;
        }
        streaming := false;
        ret := 0;
      } else {
        streaming := true;
        var cell;
        ret, cell := rm.Write(SYS_START, SYS_START_STALL_LEAVE, None);
      }
    }

    /** The two chained `SYS_START` writes that enter the stall; `err` is the accumulator cell afterwards. */
    method StallWrites() returns (err: int)
      modifies rm, rm.bus
      ensures var c := ChainSpec(old(rm.regPage), STALL_WRITES, 0, rm.bus.respond, |old(rm.bus.log)|);
        err == c.ret && rm.regPage == c.page && rm.bus.log == old(rm.bus.log) + c.ops
    {
      ghost var page, n := rm.regPage, |rm.bus.log|;
      var st, cell := rm.Write(SYS_START, SYS_START_STALL_ENTER, Some(0));
      ghost var log1 := rm.bus.log;
      st, cell := rm.Write(SYS_START, SYS_START_STALL_ARM, cell);
      ChainOfTwo(page, STALL_WRITES, 0, rm.bus.respond, n);
      ConcatAssoc(old(rm.bus.log), log1[n..], rm.bus.log[|log1|..]);
      err := cell.value;
    }

    /** `ap1302_set_power_off`: the power-down sequence, supplies off, `streaming` cleared. */
    method SetPowerOff()
      modifies this
      ensures State() == SetPowerOffSpec(old(State()))
    {
      power := power + [PowerOff, SupplyOff];
      streaming := false;
    }
  }
}
