/**
 * Bringing the AP1302 up once it is powered: the firmware header check,
 * the chip identification, the firmware load with its checksum handshake,
 * and the MIPI clock adjustment that ends a successful load.
 *
 * As for register accesses, each operation is a pure function of the
 * cached page, the replies of the bus and the number of transactions
 * already issued; the methods are proved to perform exactly those steps.
 */
module Boot {
  import opened Registers
  import opened Transport
  import opened Access
  import opened Wrappers
  import opened Firmware

  // ---------------------------------------------------------------------
  // Firmware header (ap1302_request_firmware)

  /** `pll_init_size`, the first field of the header, as a little-endian host reads it. */
  function PllInitSize(blob: seq<u8>): u16
    requires |blob| >= HEADER_SIZE
  {
    blob[0] as int + 0x100 * blob[1] as int
  }

  /** A header with the given fields, laid out as the packed little-endian structure. */
  function EncodeHeader(pllInitSize: u16, crc: u16): (h: seq<u8>)
    ensures |h| == HEADER_SIZE
  {
    [pllInitSize % 0x100, pllInitSize / 0x100, crc % 0x100, crc / 0x100]
  }

  /**
   * `ap1302_request_firmware` after the lookup: `fetched` is what the
   * firmware loader returned and `blob` the image it found. A lookup
   * failure is passed on; otherwise the image is refused with -EINVAL when
   * its PLL init segment is longer than the boot data after the header.
   */
  function RequestFirmware(fetched: int, blob: seq<u8>): int
    requires fetched == 0 ==> |blob| >= HEADER_SIZE
  {
    if fetched != 0 then fetched
    else if PllInitSize(blob) > |blob| - HEADER_SIZE then -EINVAL
    else 0
  }

  /** The header encoding is read back field for field. */
  lemma HeaderRoundTrip(pllInitSize: u16, crc: u16, body: seq<u8>)
    ensures PllInitSize(EncodeHeader(pllInitSize, crc) + body) == pllInitSize
  {
  }

  /**
   * An image made of a header and boot data is accepted exactly when the
   * declared PLL init segment fits in the boot data; a lookup failure is
   * returned unchanged whatever the image.
   */
  lemma RequestFirmwareAccepts(fetched: int, pllInitSize: u16, crc: u16, body: seq<u8>)
    ensures var r := RequestFirmware(fetched, EncodeHeader(pllInitSize, crc) + body);
      (fetched != 0 ==> r == fetched)
      && (fetched == 0 ==> (r == 0 <==> pllInitSize <= |body|) && (r != 0 ==> r == -EINVAL))
  {
    HeaderRoundTrip(pllInitSize, crc, body);
  }

  // ---------------------------------------------------------------------
  // Chip identification (ap1302_detect_chip)

  /**
   * Read the version then the revision register, each failure returned at
   * once; a version other than 0x0265 gives -EINVAL.
   */
  function DetectSpec(page: u32, respond: nat -> Reply, n: nat): (a: Access)
  {
    var v := ReadSpec(page, CHIP_VERSION, respond, n);
    if v.ret != 0 then Access(v.ret, v.page, v.ops, 0)
    else
      var r := ReadSpec(v.page, CHIP_REV, respond, n + |v.ops|);
      if r.ret != 0 then Access(r.ret, r.page, v.ops + r.ops, 0)
      else if v.val != CHIP_ID then Access(-EINVAL, r.page, v.ops + r.ops, 0)
      else Access(0, r.page, v.ops + r.ops, 0)
  }

  /**
   * Detection reads register 0x0000 and, if that succeeded, register
   * 0x0050, both 16 bits wide and outside any page, so the page cache is
   * untouched. It succeeds exactly when both reads do and the version read
   * is 0x0265; two good reads of another version give -EINVAL, and a
   * failed read's code is returned.
   */
  lemma DetectChipOutcome(page: u32, respond: nat -> Reply, n: nat)
    ensures var a := DetectSpec(page, respond, n);
      var version := respond(n).data % 0x1_0000;
      a.page == page
      && a.ops == (if respond(n).status != 0 then [Read(W16, 0x0000)] else [Read(W16, 0x0000), Read(W16, 0x0050)])
      && (a.ret == 0 <==> respond(n).status == 0 && respond(n + 1).status == 0 && version == 0x0265)
      && (respond(n).status != 0 ==> a.ret == respond(n).status)
      && (respond(n).status == 0 && respond(n + 1).status != 0 ==> a.ret == respond(n + 1).status)
      && (respond(n).status == 0 && respond(n + 1).status == 0 && version != 0x0265 ==> a.ret == -EINVAL)
  {
  }

  method DetectChip(rm: RegisterMap) returns (ret: int)
    modifies rm, rm.bus
    ensures var a := DetectSpec(old(rm.regPage), rm.bus.respond, |old(rm.bus.log)|);
      ret == a.ret && rm.regPage == a.page && rm.bus.log == old(rm.bus.log) + a.ops
  {
    var version, revision;
    ret, version := rm.Read(CHIP_VERSION);
    if ret != 0 {
      return;
    }
    ret, revision := rm.Read(CHIP_REV);
    if ret != 0 {
      return;
    }
    if version != CHIP_ID {
      return -EINVAL;
    }
    return 0;
  }

  // ---------------------------------------------------------------------
  // MIPI clock adjustment (ap1302_set_mipi_t3_clk)

  /** The adjusted T3 register value, as the C unsigned arithmetic computes it. */
  function AdjustedT3(t3: u32): u32
  {
    MipiT3Adjust(t3 as bv32) as int
  }

  /** Read the T3 register; if that succeeded, write back its adjusted value. */
  function MipiT3Spec(page: u32, respond: nat -> Reply, n: nat): (a: Access)
  {
    var r := ReadSpec(page, ADV_HINF_MIPI_T3, respond, n);
    if r.ret != 0 then Access(r.ret, r.page, r.ops, 0)
    else After(r.ops, WriteSpec(r.page, ADV_HINF_MIPI_T3, AdjustedT3(r.val), None, respond, n + |r.ops|))
  }

  /**
   * The adjustment succeeds exactly when all its transactions do. Then its
   * last two transactions are the 32-bit read of the relocated T3 register
   * (0xE014, after at most one page-select) and the write of the adjusted
   * value of what that read returned to the same register; the write
   * needs no second page-select, and the page cache ends on page 0x84.
   */
  lemma MipiT3Outcome(page: u32, respond: nat -> Reply, n: nat)
    ensures var a := MipiT3Spec(page, respond, n);
      -0x8000_0000 <= a.ret <= 0
      && (a.ret == 0 <==> AllSucceed(respond, n, |a.ops|))
      && (a.ret == 0 ==>
            2 <= |a.ops| <= 3 && a.page == 0x84_0000
            && a.ops[|a.ops| - 2] == Read(W32, 0xE014)
            && a.ops[|a.ops| - 1] == Write(W32, 0xE014, AdjustedT3(respond(n + |a.ops| - 2).data)))
  {
    var r := ReadSpec(page, ADV_HINF_MIPI_T3, respond, n);
    ReadSucceedsIffAllTransfersDo(page, ADV_HINF_MIPI_T3, respond, n);
    if r.ret == 0 {
      var v := AdjustedT3(r.val);
      WriteBackT3(page, respond, n, v);
      var w := WriteSpec(r.page, ADV_HINF_MIPI_T3, v, None, respond, n + |r.ops|);
      AllSucceedSplit(respond, n, |r.ops|, |w.ops|);
    }
  }

  /** After a good read of the T3 register, writing `v` back is a single transaction on the same page. */
  lemma WriteBackT3(page: u32, respond: nat -> Reply, n: nat, v: u32)
    requires ReadSpec(page, ADV_HINF_MIPI_T3, respond, n).ret == 0
    ensures var r := ReadSpec(page, ADV_HINF_MIPI_T3, respond, n);
      var w := WriteSpec(r.page, ADV_HINF_MIPI_T3, v, None, respond, n + |r.ops|);
      1 <= |r.ops| <= 2 && r.ops[|r.ops| - 1] == Read(W32, 0xE014) && r.val == respond(n + |r.ops| - 1).data
      && AllSucceed(respond, n, |r.ops|)
      && w.ops == [Write(W32, 0xE014, v)] && w.page == 0x84_0000
      && w.ret == respond(n + |r.ops|).status && -0x8000_0000 <= w.ret <= 0
      && (w.ret == 0 <==> AllSucceed(respond, n + |r.ops|, 1))
  {
    var r := ReadSpec(page, ADV_HINF_MIPI_T3, respond, n);
    ReadSucceedsIffAllTransfersDo(page, ADV_HINF_MIPI_T3, respond, n);
    PagedTarget(page, ADV_HINF_MIPI_T3, 0, respond, n);
    SuccessCachesPage(page, ADV_HINF_MIPI_T3, 0, respond, n);
    var m := n + |r.ops|;
    PageCacheHit(r.page, ADV_HINF_MIPI_T3, v, respond, m);
    WriteSucceedsIffAllTransfersDo(r.page, ADV_HINF_MIPI_T3, v, respond, m);
  }

  method SetMipiT3Clk(rm: RegisterMap) returns (ret: int)
    modifies rm, rm.bus
    ensures var a := MipiT3Spec(old(rm.regPage), rm.bus.respond, |old(rm.bus.log)|);
      ret == a.ret && rm.regPage == a.page && rm.bus.log == old(rm.bus.log) + a.ops
  {
    var t3;
    ret, t3 := rm.Read(ADV_HINF_MIPI_T3);
    if ret != 0 {
      return;
    }
    ghost var log := rm.bus.log;
    var err;
    ret, err := rm.Write(ADV_HINF_MIPI_T3, AdjustedT3(t3), None);
    ConcatAssoc(old(rm.bus.log), log[|old(rm.bus.log)|..], rm.bus.log[|log|..]);
  }

  // ---------------------------------------------------------------------
  // Firmware load (ap1302_load_firmware)

  /**
   * The handshake after the upload: write 0xFFFF to the boot data stage
   * register, then read the checksum register whether or not that write
   * succeeded, and combine the two codes with `|`. `val` is the checksum.
   */
  function ChecksumSpec(page: u32, respond: nat -> Reply, n: nat): (a: Access)
  {
    var w := WriteSpec(page, BOOTDATA_STAGE, 0xFFFF, None, respond, n);
    var r := ReadSpec(w.page, SIP_CHECKSUM, respond, n + |w.ops|);
    WriteSucceedsIffAllTransfersDo(page, BOOTDATA_STAGE, 0xFFFF, respond, n);
    ReadSucceedsIffAllTransfersDo(w.page, SIP_CHECKSUM, respond, n + |w.ops|);
    Access(OrErr(w.ret, r.ret), r.page, w.ops + r.ops, r.val)
  }

  /**
   * The handshake always issues both transactions, the stage write and
   * then the checksum read, both 16 bits wide and unpaged. Its code is 0
   * exactly when both succeeded, and negative otherwise.
   */
  lemma ChecksumReadAfterFailedWrite(page: u32, respond: nat -> Reply, n: nat)
    ensures var c := ChecksumSpec(page, respond, n);
      c.ops == [Write(W16, 0x6002, 0xFFFF), Read(W16, 0x6134)]
      && c.page == page && c.val == respond(n + 1).data % 0x1_0000
      && -0x8000_0000 <= c.ret <= 0
      && (c.ret == 0 <==> respond(n).status == 0 && respond(n + 1).status == 0)
  {
    var w := WriteSpec(page, BOOTDATA_STAGE, 0xFFFF, None, respond, n);
    var r := ReadSpec(w.page, SIP_CHECKSUM, respond, n + |w.ops|);
    UnpagedAccess(page, BOOTDATA_STAGE, 0xFFFF, respond, n);
    WriteSucceedsIffAllTransfersDo(page, BOOTDATA_STAGE, 0xFFFF, respond, n);
    ReadSucceedsIffAllTransfersDo(w.page, SIP_CHECKSUM, respond, n + 1);
    OrErrFacts(w.ret, r.ret);
  }

  /**
   * What follows a successful upload: the checksum handshake; a checksum
   * other than 0xFFFF gives -EAGAIN, otherwise the MIPI clock adjustment
   * decides the result.
   */
  function FinishSpec(page: u32, respond: nat -> Reply, n: nat): (a: Access)
  {
    var c := ChecksumSpec(page, respond, n);
    if c.ret != 0 then Access(c.ret, c.page, c.ops, 0)
    else if c.val != 0xFFFF then Access(-EAGAIN, c.page, c.ops, 0)
    else After(c.ops, MipiT3Spec(c.page, respond, n + |c.ops|))
  }

  /**
   * Loading the firmware image `blob`: upload the boot data after the
   * header from window position 0, then, if that succeeded, finish.
   */
  function LoadSpec(blob: seq<u8>, page: u32, respond: nat -> Reply, n: nat): (a: Access)
    requires |blob| > HEADER_SIZE
  {
    var u := ChunkedSpec(HEADER_SIZE, |blob| - HEADER_SIZE, 0, respond, n);
    var up := Writes(blob, u.pieces);
    if u.ret != 0 then Access(u.ret, page, up, 0)
    else After(up, FinishSpec(page, respond, n + |up|))
  }

  method LoadFirmware(rm: RegisterMap, blob: seq<u8>) returns (ret: int)
    requires |blob| > HEADER_SIZE
    modifies rm, rm.bus
    ensures var a := LoadSpec(blob, old(rm.regPage), rm.bus.respond, |old(rm.bus.log)|);
      ret == a.ret && rm.regPage == a.page && rm.bus.log == old(rm.bus.log) + a.ops
  {
    ghost var up := Writes(blob, ChunkedSpec(HEADER_SIZE, |blob| - HEADER_SIZE, 0, rm.bus.respond, |rm.bus.log|).pieces);
    var winPos;
    ret, winPos := WriteFwWindow(rm.bus, blob, HEADER_SIZE, |blob| - HEADER_SIZE, 0);
    if ret != 0 {
      LoadUnfold(blob, rm.regPage, rm.bus.respond, |old(rm.bus.log)|, |rm.bus.log|);
      return;
    }
    LoadUnfold(blob, rm.regPage, rm.bus.respond, |old(rm.bus.log)|, |rm.bus.log|);
    ghost var f := FinishSpec(rm.regPage, rm.bus.respond, |rm.bus.log|);
    ret := FinishLoad(rm);
    ConcatAssoc(old(rm.bus.log), up, f.ops);
  }

  /** The checksum handshake of `ap1302_load_firmware`. */
  method Checksum(rm: RegisterMap) returns (ret: int, crc: int)
    modifies rm, rm.bus
    ensures var c := ChecksumSpec(old(rm.regPage), rm.bus.respond, |old(rm.bus.log)|);
      ret == c.ret && crc == c.val && rm.regPage == c.page && rm.bus.log == old(rm.bus.log) + c.ops
  {
    var stage, err, sum;
    stage, err := rm.Write(BOOTDATA_STAGE, 0xFFFF, None);
    sum, crc := rm.Read(SIP_CHECKSUM);
    ret := OrErr(stage, sum);
  }

  /** The part of `ap1302_load_firmware` after a successful upload. */
  method FinishLoad(rm: RegisterMap) returns (ret: int)
    modifies rm, rm.bus
    ensures var a := FinishSpec(old(rm.regPage), rm.bus.respond, |old(rm.bus.log)|);
      ret == a.ret && rm.regPage == a.page && rm.bus.log == old(rm.bus.log) + a.ops
  {
    ghost var c := ChecksumSpec(rm.regPage, rm.bus.respond, |rm.bus.log|);
    var crc;
    ret, crc := Checksum(rm);
    ghost var log := rm.bus.log;
    FinishUnfold(old(rm.regPage), rm.bus.respond, |old(rm.bus.log)|, |log|);
    if ret != 0 {
      return;
    }
    if crc != 0xFFFF {
      return -EAGAIN;
    }
    ghost var mp := MipiT3Spec(rm.regPage, rm.bus.respond, |log|);
    ret := SetMipiT3Clk(rm);
    ConcatAssoc(old(rm.bus.log), c.ops, mp.ops);
  }

  lemma FinishUnfold(page: u32, respond: nat -> Reply, n: nat, m: nat)
    requires m == n + |ChecksumSpec(page, respond, n).ops|
    ensures var c := ChecksumSpec(page, respond, n);
      FinishSpec(page, respond, n) ==
        if c.ret != 0 then Access(c.ret, c.page, c.ops, 0)
        else if c.val != 0xFFFF then Access(-EAGAIN, c.page, c.ops, 0)
        else After(c.ops, MipiT3Spec(c.page, respond, m))
  {
  }

  lemma LoadUnfold(blob: seq<u8>, page: u32, respond: nat -> Reply, n: nat, m: nat)
    requires |blob| > HEADER_SIZE
    requires m == n + |Writes(blob, ChunkedSpec(HEADER_SIZE, |blob| - HEADER_SIZE, 0, respond, n).pieces)|
    ensures var u := ChunkedSpec(HEADER_SIZE, |blob| - HEADER_SIZE, 0, respond, n);
      var up := Writes(blob, u.pieces);
      LoadSpec(blob, page, respond, n) ==
        if u.ret != 0 then Access(u.ret, page, up, 0) else After(up, FinishSpec(page, respond, m))
  {
  }

  /** The checksum handshake: the stage write, then the checksum read. */
  function Handshake(): seq<Op>
  {
    [Write(W16, 0x6002, 0xFFFF), Read(W16, 0x6134)]
  }

  /**
   * After an upload the handshake is always issued. If either of its
   * transfers failed the result is that failure and nothing more is sent;
   * if both succeeded but the checksum read back is not 0xFFFF the result
   * is -EAGAIN and nothing more is sent; otherwise the MIPI clock
   * adjustment follows. The result is 0 exactly when every transaction
   * succeeded and the checksum was 0xFFFF.
   */
  lemma FinishOutcome(page: u32, respond: nat -> Reply, n: nat)
    ensures var f := FinishSpec(page, respond, n);
      var crc := respond(n + 1).data % 0x1_0000;
      -0x8000_0000 <= f.ret <= 0
      && |f.ops| >= 2 && f.ops[..2] == Handshake()
      && (f.ret == 0 <==> AllSucceed(respond, n, |f.ops|) && crc == 0xFFFF)
      && (!AllSucceed(respond, n, 2) ==> f.ret != 0 && f.ops == Handshake())
      && (AllSucceed(respond, n, 2) && crc != 0xFFFF ==> f.ret == -EAGAIN && f.ops == Handshake())
      && (AllSucceed(respond, n, 2) && crc == 0xFFFF ==> f == After(Handshake(), MipiT3Spec(page, respond, n + 2)))
  {
    var c := ChecksumSpec(page, respond, n);
    var t := MipiT3Spec(page, respond, n + 2);
    ChecksumReadAfterFailedWrite(page, respond, n);
    MipiT3Outcome(page, respond, n + 2);
    FinishUnfold(page, respond, n, n + 2);
    FinishParts(c, t, FinishSpec(page, respond, n), respond, n);
  }

  /** `FinishOutcome` for a given handshake outcome `c` and adjustment outcome `t`. */
  lemma FinishParts(c: Access, t: Access, f: Access, respond: nat -> Reply, n: nat)
    requires c.ops == Handshake() && c.val == respond(n + 1).data % 0x1_0000
    requires -0x8000_0000 <= c.ret <= 0
    requires c.ret == 0 <==> respond(n).status == 0 && respond(n + 1).status == 0
    requires -0x8000_0000 <= t.ret <= 0 && (t.ret == 0 <==> AllSucceed(respond, n + 2, |t.ops|))
    requires f == if c.ret != 0 then Access(c.ret, c.page, c.ops, 0)
                  else if c.val != 0xFFFF then Access(-EAGAIN, c.page, c.ops, 0)
                  else After(c.ops, t)
    ensures -0x8000_0000 <= f.ret <= 0
      && |f.ops| >= 2 && f.ops[..2] == Handshake()
      && (f.ret == 0 <==> AllSucceed(respond, n, |f.ops|) && c.val == 0xFFFF)
      && (!AllSucceed(respond, n, 2) ==> f.ret != 0 && f.ops == Handshake())
      && (AllSucceed(respond, n, 2) && c.val != 0xFFFF ==> f.ret == -EAGAIN && f.ops == Handshake())
      && (AllSucceed(respond, n, 2) && c.val == 0xFFFF ==> f == After(Handshake(), t))
  {
    SucceedHead(respond, n, 1);
    SucceedHead(respond, n + 1, 0);
    AllSucceedSplit(respond, n, 2, |t.ops|);
    assert (Handshake() + t.ops)[..2] == Handshake();
  }

  /**
   * Loading an image: the upload carries exactly the image after its
   * header. A failed upload ends the load with its code and nothing more;
   * otherwise the handshake follows it, -EAGAIN ends the load when the
   * checksum read back is not 0xFFFF, and the MIPI clock adjustment ends
   * it otherwise. The result is 0 exactly when every transaction succeeded
   * and the checksum was 0xFFFF.
   */
  lemma LoadOutcome(blob: seq<u8>, page: u32, respond: nat -> Reply, n: nat)
    requires |blob| > HEADER_SIZE
    ensures var a := LoadSpec(blob, page, respond, n);
      var u := ChunkedSpec(HEADER_SIZE, |blob| - HEADER_SIZE, 0, respond, n);
      var up := Writes(blob, u.pieces);
      var m := n + |up|;
      var crc := respond(m + 1).data % 0x1_0000;
      -0x8000_0000 <= a.ret <= 0
      && |up| <= |a.ops| && a.ops[..|up|] == up
      && (u.ret != 0 ==> a == Access(u.ret, page, up, 0))
      && (u.ret == 0 ==> Payload(up) == blob[HEADER_SIZE..]
                         && |a.ops| >= m - n + 2 && a.ops[|up|..|up| + 2] == Handshake())
      && (a.ret == 0 <==> AllSucceed(respond, n, |a.ops|) && crc == 0xFFFF)
      && (AllSucceed(respond, n, |up| + 2) && crc != 0xFFFF ==> a.ret == -EAGAIN && a.ops == up + Handshake())
      && (AllSucceed(respond, n, |up| + 2) && crc == 0xFFFF ==>
            a == After(up + Handshake(), MipiT3Spec(page, respond, m + 2)))
  {
    var u := ChunkedSpec(HEADER_SIZE, |blob| - HEADER_SIZE, 0, respond, n);
    var up := Writes(blob, u.pieces);
    var m := n + |up|;
    ChunkedOutcome(HEADER_SIZE, |blob| - HEADER_SIZE, 0, respond, n);
    UploadCarriesImage(blob, respond, n);
    FinishOutcome(page, respond, m);
    LoadUnfold(blob, page, respond, n, m);
    LoadParts(u.ret, up, FinishSpec(page, respond, m), MipiT3Spec(page, respond, m + 2),
              LoadSpec(blob, page, respond, n), page, respond, n);
  }

  /** A successful upload carries exactly the image after its header. */
  lemma UploadCarriesImage(blob: seq<u8>, respond: nat -> Reply, n: nat)
    requires |blob| > HEADER_SIZE
    ensures var u := ChunkedSpec(HEADER_SIZE, |blob| - HEADER_SIZE, 0, respond, n);
      u.ret == 0 ==> Payload(Writes(blob, u.pieces)) == blob[HEADER_SIZE..]
  {
    var u := ChunkedSpec(HEADER_SIZE, |blob| - HEADER_SIZE, 0, respond, n);
    if u.ret == 0 {
      ChunkedCarriesData(blob, HEADER_SIZE, |blob| - HEADER_SIZE, 0, respond, n);
      PayloadIsCarried(blob, u.pieces);
      assert blob[HEADER_SIZE..HEADER_SIZE + (|blob| - HEADER_SIZE)] == blob[HEADER_SIZE..];
    }
  }

  /** `LoadOutcome` for a given upload code and transactions, finish outcome `f` and adjustment outcome `t`. */
  lemma LoadParts(uret: int, up: seq<Op>, f: Access, t: Access, a: Access, page: u32, respond: nat -> Reply, n: nat)
    requires -0x8000_0000 <= uret <= 0 && (uret == 0 <==> AllSucceed(respond, n, |up|))
    requires var m := n + |up|;
      var crc := respond(m + 1).data % 0x1_0000;
      -0x8000_0000 <= f.ret <= 0
      && |f.ops| >= 2 && f.ops[..2] == Handshake()
      && (f.ret == 0 <==> AllSucceed(respond, m, |f.ops|) && crc == 0xFFFF)
      && (AllSucceed(respond, m, 2) && crc != 0xFFFF ==> f.ret == -EAGAIN && f.ops == Handshake())
      && (AllSucceed(respond, m, 2) && crc == 0xFFFF ==> f == After(Handshake(), t))
    requires a == if uret != 0 then Access(uret, page, up, 0) else After(up, f)
    ensures var m := n + |up|;
      var crc := respond(m + 1).data % 0x1_0000;
      -0x8000_0000 <= a.ret <= 0
      && |up| <= |a.ops| && a.ops[..|up|] == up
      && (uret != 0 ==> a == Access(uret, page, up, 0))
      && (uret == 0 ==> |a.ops| >= m - n + 2 && a.ops[|up|..|up| + 2] == Handshake())
      && (a.ret == 0 <==> AllSucceed(respond, n, |a.ops|) && crc == 0xFFFF)
      && (AllSucceed(respond, n, |up| + 2) && crc != 0xFFFF ==> a.ret == -EAGAIN && a.ops == up + Handshake())
      && (AllSucceed(respond, n, |up| + 2) && crc == 0xFFFF ==> a == After(up + Handshake(), t))
  {
    var m := n + |up|;
    AllSucceedSplit(respond, n, |up|, 2);
    AllSucceedSplit(respond, n, |up|, |f.ops|);
    assert (up + f.ops)[..|up|] == up;
    assert (up + f.ops)[|up|..|up| + 2] == f.ops[..2];
    if uret == 0 && AllSucceed(respond, n, |up| + 2) && respond(m + 1).data % 0x1_0000 == 0xFFFF {
      AfterAfter(up, Handshake(), t);
    }
  }
}
