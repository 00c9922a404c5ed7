# AP1302 image signal processor driver — a verified model

This project models the core of the Linux V4L2 sub-device driver for the
onsemi AP1302 image signal processor (`driver/ap1302.c`). The model covers:

- **Register access** (module `Access`). A 32-bit register reference packs
  the access size, a 16-bit address and an advanced-register page. Paged
  registers go through a page-select register. The driver caches the
  selected page and writes the selector only when the page changes. Errors
  can be accumulated across a chain of writes.
- **Register encodings** (module `Registers`). This covers the reference
  layout and relocation into the advanced window at `0xE000`, the OR-ing of
  error codes, the big-endian 16-bit frames used by the raw helpers, and
  the MIPI T3 clock adjustment.
- **Firmware loading** (modules `Firmware` and `Boot`):
  - the header check;
  - chip detection;
  - the upload of the boot data through the 8 KiB register window, written
    in slices of at most 2 KiB;
  - the boot-data-stage handshake and checksum test;
  - the MIPI T3 timing adjustment.
- **Modes, formats and frame rates** (module `Modes`):
  - the mode catalogue;
  - the legality table of `check_valid_mode`;
  - nearest-size and nearest-rate selection;
  - format negotiation;
  - the enumeration callbacks.
- **The session state machine** (module `Session` gives functions,
  module `Device` gives the class `Sensor` that performs them in place).
  This covers:
  - power reference counting;
  - mode restoration on power-up;
  - stream start and stop, including changes applied when streaming starts;
  - format and frame-interval negotiation;
  - the stall handshake;
  - the bounded firmware-load retry loop of `ap1302_hw_init`.

## How the model works

- **The bus.** The I2C bus is a `Transport.Bus` object. It records every
  transaction in `log` and gets each transaction's status and data from a
  fixed oracle, `respond`, indexed by the transaction's position in the log.
- **Operations as functions.** Every operation is a pure function of the
  session state, the oracle and the log position. It returns the return
  code, the new state (including the cached page) and the transactions it
  issues.
- **Methods proved against the functions.** The methods of
  `Access.RegisterMap`, `Boot`, `Firmware` and `Device.Sensor` perform the
  operation step by step on object fields and the bus. Each is proved to
  produce exactly the function's return code, new state and transaction
  sequence.
- **Integers.** Codes are C `int` values and registers are `u32`. The
  32-bit truncations the driver relies on are written out explicitly:
  - the window position modulo `2^32`;
  - the `|=` of two error codes;
  - the MIPI T3 bit-field arithmetic, on `bv32`.

## Model

| member | source | states |
|---|---|---|
| Registers.FromWord | driver/ap1302.c:45-50 | decoding a 32-bit reference word into size, page and address loses nothing: re-encoding gives the word back |
| Registers.WordDecodes | driver/ap1302.c:45-50 | encoding a reference and decoding it again gives the same reference |
| Registers.RegPage | driver/ap1302.c:49-50 | the page of a reference is a multiple of 0x10000 within `AP1302_REG_PAGE_MASK` |
| Registers.RegPageMasksWord | driver/ap1302.c:49-50 | the page of a reference is its word masked with `AP1302_REG_PAGE_MASK`: bits 16-23 of the word, left in place |
| Registers.Reg16 | driver/ap1302.c:45 | `AP1302_REG_16BIT(n)` describes a 2-byte register whose word is `0x2000000 + n` |
| Registers.Reg32 | driver/ap1302.c:46 | `AP1302_REG_32BIT(n)` describes a 4-byte register whose word is `0x4000000 + n` |
| Registers.Relocate | driver/ap1302.c:725-726 | relocation keeps the size and moves the address by `AP1302_REG_ADV_START`, modulo the 16-bit address field |
| Registers.RelocateIsWordArithmetic | driver/ap1302.c:725-726 | masking out the page and adding `0xE000` to the reference word is exactly what the relocated reference encodes |
| Registers.BitOrZero | driver/ap1302.c:2123 | a bitwise OR is zero exactly when both operands are zero |
| Registers.BitOrCovers | driver/ap1302.c:2123 | a bitwise OR is at least each operand |
| Registers.BitOrBound | driver/ap1302.c:2123 | the OR of two values below `2^k` stays below `2^k`, so OR-ing 32-bit patterns never needs truncation |
| Registers.BitOrDisjoint | driver/ap1302.c:842 | OR-ing a shifted high part with a low part that fits below the shift adds them |
| Registers.OrErrFacts | driver/ap1302.c:2121-2125 | `ret \|= ...` on two C ints is zero iff both are zero, keeps the other code when one is zero, and is negative when either is |
| Registers.WriteReg16Frame | driver/ap1302.c:794-797 | the raw register write sends a 4-byte frame |
| Registers.Be16RoundTrip | driver/ap1302.c:794-797 | splitting a 16-bit value into big-endian bytes and rejoining them as the raw read does gives the value back |
| Registers.FromBe16RoundTrip | driver/ap1302.c:842 | joining two bytes and splitting the result again gives the two bytes back |
| Registers.WriteReg16FrameDecodes | driver/ap1302.c:788-813 | both the register address and the value can be recovered from the frame `ap1302_write_reg16` sends |
| Registers.MipiT3Fields | driver/ap1302.c:1959-1968 | the adjusted T3 word's low byte is the old T_CLK_POST plus 5 mod 256, its second byte the old T_CLK_PRE plus 1 OR-ed with the carry out of the low byte, and its upper half the old upper half OR-ed with the carry out of the second byte |
| Registers.MipiT3NoOverflow | driver/ap1302.c:1959-1968 | when neither field overflows, the adjustment adds 5 to T_CLK_POST and 1 to T_CLK_PRE and leaves bits 16-31 unchanged |
| Registers.MipiT3CarryLeaks | driver/ap1302.c:1959-1968 | at T3 = 0xFFFC the unmasked sums carry into neighbouring fields: the result is 0x10101 |
| Transport.Bus.constructor | driver/ap1302.c:2217-2231 | a new bus has an empty transaction log and the given response oracle |
| Transport.Bus.Transfer | driver/ap1302.c:681-705 | a transfer appends exactly one transaction to the log and returns the oracle's answer for its position |
| Access.InvalidSizeIssuesNothing | driver/ap1302.c:687-698 | a reference whose size is neither 2 nor 4 is refused with `-EINVAL` by both the raw write and the raw read, and nothing is sent |
| Access.InvalidSizeThroughPageCache | driver/ap1302.c:707-786 | a missized paged access fails, and sends at most the page selection |
| Access.WriteSucceedsIffAllTransfersDo | driver/ap1302.c:707-736 | `ap1302_write` issues at most two transfers and returns 0 exactly when the size is valid and every transfer succeeded; every transfer before the last succeeded |
| Access.ReadSucceedsIffAllTransfersDo | driver/ap1302.c:767-786 | the same for `ap1302_read` |
| Access.UnpagedAccess | driver/ap1302.c:713-728 | an unpaged write leaves the page cache alone, sends exactly one write at the raw address, and returns that transfer's status |
| Access.PageCacheHit | driver/ap1302.c:716-723 | when the page is already cached, no page selection is sent |
| Access.PageCacheMiss | driver/ap1302.c:716-723 | on a cache miss the page selector is written first; the cache is updated only if that write succeeded, and a failed selection ends the access with its code |
| Access.PagedTarget | driver/ap1302.c:725-729 | a successful paged access ends with one data transfer at the register address plus `0xE000` |
| Access.PagedWriteOutcome | driver/ap1302.c:713-735 | a paged write sends a prefix of "select page, write data" and succeeds iff it sent all of it and every transfer succeeded; on success the page is cached, on failure the code is negative |
| Access.SuccessCachesPage | driver/ap1302.c:717-723 | after a successful paged write or read, the cached page is that register's page |
| Access.BackToBackSamePage | driver/ap1302.c:717-723 | a second write to the same page right after a successful one sends no page selection |
| Access.AccumulatorShortCircuits | driver/ap1302.c:713-714 | with an error already recorded, a write sends nothing, returns that error and keeps it |
| Access.AccumulatorRecordsFailure | driver/ap1302.c:731-733 | with a clear accumulator the write behaves as without one, and its code becomes the accumulated error |
| Access.ChainAfterFailure | driver/ap1302.c:713-714 | once a chain of accumulating writes has an error, the rest of the chain sends nothing |
| Access.ChainFirstFailureWins | driver/ap1302.c:713-733 | a chain's result is its first failing write's code and transactions, or continues after a successful write |
| Access.ChainSucceedsIffEveryWrite | driver/ap1302.c:707-736 | a chain of accumulated writes succeeds iff every transfer it issued succeeded and every register has a valid size; otherwise its code is negative |
| Access.UnpagedChain | driver/ap1302.c:707-736 | a chain of unpaged 16-bit writes sends a prefix of one write per register, succeeds iff all were sent and succeeded, and otherwise returns the last transfer's status after only successes |
| Access.ScriptStopsAtFirstFailure | driver/ap1302.c:895-919 | `ap1302_load_regs` returns 0 iff every transfer it issued succeeded and every size was valid; on failure every transfer but the last succeeded, and the code is the last transfer's status, or `-EINVAL` for an invalid size after only successes |
| Access.WriteFailureCode | driver/ap1302.c:707-736 | a failed write returns its last transfer's status, or `-EINVAL` for an invalid size after only successes |
| Access.ScriptFailsAtEntry | driver/ap1302.c:905-918 | a failing script stops at its first failing entry: the entries before it succeeded, and the result is that entry's code and cache after the transactions of the entries up to and including it |
| Access.RegisterMap.constructor | driver/ap1302.c:2217-2231 | a new register map drives the given bus with page 0 cached |
| Access.RegisterMap.DispatchWrite | driver/ap1302.c:681-705 | `__ap1302_write` returns the raw write's code and sends exactly its transactions |
| Access.RegisterMap.DispatchRead | driver/ap1302.c:738-765 | `__ap1302_read` returns the raw read's code and value and sends exactly its transactions |
| Access.RegisterMap.Write | driver/ap1302.c:707-736 | `ap1302_write` returns the reference write's code, page and transactions, and stores a failure into the accumulator without overwriting an earlier one |
| Access.RegisterMap.Read | driver/ap1302.c:767-786 | `ap1302_read` returns the reference read's code, value, page and transactions |
| Access.RegisterMap.LoadRegs | driver/ap1302.c:895-919 | the loop over a register script behaves as the reference script: it stops at the first failure |
| Firmware.WindowAddr | driver/ap1302.c:2049 | every window address lies within `0x8000 .. 0x9FFF` |
| Firmware.WindowAddrIgnoresWrap | driver/ap1302.c:2045-2058 | the 32-bit wrap of the window position never changes the address written, because 2^32 is a multiple of the window size |
| Firmware.WritesAt | driver/ap1302.c:2048-2057 | the k-th raw transfer carries the k-th slice |
| Firmware.WritesAppend | driver/ap1302.c:2048-2066 | the transfers of two consecutive plans are the concatenation of each plan's transfers |
| Firmware.ChunkedOutcome | driver/ap1302.c:2039-2097 | an upload succeeds iff every transfer succeeded, and then advances the position by its length; otherwise its code is the last transfer's |
| Firmware.ChunkedWithin | driver/ap1302.c:2048-2066 | every slice lies within the bytes being uploaded |
| Firmware.ChunkedLayout | driver/ap1302.c:2048-2066 | the k-th slice starts k * 2 KiB into the data and into the window position, and is 2 KiB long except for a shorter last one |
| Firmware.ChunkedCarriesData | driver/ap1302.c:2039-2097 | a successful upload carries exactly the uploaded bytes, in order |
| Firmware.PayloadIsCarried | driver/ap1302.c:2050 | the bytes sent over the bus are the bytes of the planned slices |
| Firmware.ChunksStayInWindow | driver/ap1302.c:2049-2060 | every slice of an upload starting at a 2 KiB-aligned position is 1..2048 bytes long and lies entirely within the window |
| Firmware.ChunkedLastStep | driver/ap1302.c:2058-2066 | a remainder shorter than 2 KiB is sent as one last slice |
| Firmware.ChunkedSplit | driver/ap1302.c:2080-2094 | uploading window by window, then the remainder, issues the same transfers with the same outcome as one upload of the whole length |
| Firmware.WriteFwBlock | driver/ap1302.c:2039-2070 | `ap1302_write_fw_block` issues exactly the planned transfers, returns the plan's code, and advances the position only on success |
| Firmware.WriteFwWindow | driver/ap1302.c:2072-2097 | `ap1302_write_fw_window` issues exactly the transfers of one upload of the whole length and returns its code |
| Boot.EncodeHeader | driver/ap1302.c:434-437 | a firmware header is 4 bytes |
| Boot.HeaderRoundTrip | driver/ap1302.c:434-437 | the PLL-init size read from an encoded header is the one encoded |
| Boot.RequestFirmwareAccepts | driver/ap1302.c:1979-2025 | a failed fetch returns its code; otherwise the image is accepted iff its PLL-init size fits in the boot data, and refused with `-EINVAL` if not |
| Boot.DetectChipOutcome | driver/ap1302.c:1883-1909 | detection reads the version, then the revision, and succeeds iff both reads do and the version is 0x0265; a failed read returns its code and a wrong version returns `-EINVAL` |
| Boot.DetectChip | driver/ap1302.c:1883-1909 | `ap1302_detect_chip` does exactly what the reference detection does |
| Boot.MipiT3Outcome | driver/ap1302.c:1948-1972 | the T3 adjustment succeeds iff every transfer does; on success it reads T3 at 0xE014 on page 0x84 and writes back the adjusted word |
| Boot.WriteBackT3 | driver/ap1302.c:1954-1971 | after a successful T3 read the page is cached, so the write-back is a single transfer |
| Boot.SetMipiT3Clk | driver/ap1302.c:1948-1972 | `ap1302_set_mipi_t3_clk` does exactly what the reference adjustment does |
| Boot.ChecksumReadAfterFailedWrite | driver/ap1302.c:2117-2125 | the checksum is read even if writing 0xFFFF to the boot-data stage failed; the pair succeeds iff both transfers do |
| Boot.FinishOutcome | driver/ap1302.c:2117-2135 | after an upload the stage write and checksum read are always sent; a failed one ends the load with its code, a checksum other than 0xFFFF ends it with `-EAGAIN` and nothing more, and otherwise the T3 adjustment follows; the result is 0 iff every transfer succeeded and the checksum was 0xFFFF |
| Boot.LoadOutcome | driver/ap1302.c:2099-2136 | the upload carries exactly the image after its header; a failed upload ends the load with its code and nothing more; otherwise the stage write and checksum read follow, then `-EAGAIN` or the T3 read and write; the result is 0 iff every transfer succeeded and the checksum was 0xFFFF |
| Boot.LoadFirmware | driver/ap1302.c:2099-2136 | `ap1302_load_firmware` does exactly what the reference load does |
| Boot.Checksum | driver/ap1302.c:2117-2125 | the stage write and checksum read return the reference pair's code, value and transactions |
| Boot.FinishLoad | driver/ap1302.c:2117-2135 | the steps after the upload do exactly what the reference does |
| Modes.FrameRate | driver/ap1302.c:418-424 | every supported frame rate is between 8 and 60 fps |
| Modes.CatalogueSizesDistinct | driver/ap1302.c:600-652 | no two catalogue modes have the same size |
| Modes.CheckValidMode | driver/ap1302.c:847-893 | the legality check returns only 0 or `-EINVAL` |
| Modes.CheckValidModeMatchesTable | driver/ap1302.c:847-893 | a (mode, rate) pair is accepted iff the driver's table lists it for the bus type; 60 fps is never accepted |
| Modes.PixelRateInControlRange | driver/ap1302.c:975-983 | the pixel rate of every mode and rate is positive and fits the control's `INT_MAX` range |
| Modes.AbsDiff32 | driver/ap1302.c:958-973 | the unsigned difference of two 32-bit sizes is at most 2^31 |
| Modes.SizeErrorIsDistance | driver/ap1302.c:958-973 | for sizes below 2^31 the size error is the L1 distance between the sizes |
| Modes.NearestFromIsClosest | driver/ap1302.c:958-973 | the nearest-size scan returns a mode of minimal error; a mode after it has a strictly larger error unless the match is exact |
| Modes.NearestSizeIsClosest | driver/ap1302.c:958-973 | no catalogue mode is closer to the requested size than the chosen one |
| Modes.CatalogueSizesSmall | driver/ap1302.c:600-652 | every catalogue size is positive and at most 3840x2160 |
| Modes.NearestSizeFindsExact | driver/ap1302.c:958-973 | a requested size that is in the catalogue selects that mode |
| Modes.FindModeExact | driver/ap1302.c:958-973 | the exact lookup finds a mode iff one has the size, and returns it |
| Modes.FindModeNearestTotal | driver/ap1302.c:958-973 | the nearest lookup always finds the nearest-size mode |
| Modes.NearestRateFromIsNearest | driver/ap1302.c:1259-1267 | the rate scan returns a rate of minimal distance, the first such in table order |
| Modes.NearestRateIsNearest | driver/ap1302.c:1256-1270 | no supported rate is closer to the requested one than the chosen rate, and every earlier rate is farther away |
| Modes.TryFrameIntervalOutcome | driver/ap1302.c:1237-1275 | the adjusted interval is always 1/8, 1/15, 1/30 or 1/60 (1/60 for a zero numerator); the rate index is returned iff the size is in the catalogue, otherwise `-EINVAL` |
| Modes.TryFrameIntervalAtMode | driver/ap1302.c:1237-1275 | for a catalogue size, the result is the requested rate and its interval |
| Modes.TryFrameIntervalPicksNearest | driver/ap1302.c:1256-1270 | for a non-zero numerator, the chosen rate is the supported rate nearest the clamped rounded request, ties going to the lower rate |
| Modes.FrameRateIncreasing | driver/ap1302.c:418-424 | the rate table is strictly increasing |
| Modes.FormatIndex | driver/ap1302.c:1321-1325 | the format scan finds the first table entry equal to the code, or 0 if it is not supported |
| Modes.TryFmtSnaps | driver/ap1302.c:1302-1334 | the adjusted format has the nearest mode's size and a supported code: the requested one if supported, else UYVY8_2X8; the field is kept and the reserved words are cleared |
| Modes.TryFmtIdempotent | driver/ap1302.c:1302-1334 | adjusting an adjusted format changes nothing |
| Modes.EnumeratedSizeIsExact | driver/ap1302.c:1655-1672 | an enumerated size is found by the exact lookup at the index it was enumerated at, and the format adjustment keeps that size and chooses that mode |
| Modes.EnumFrameSizeCoversCatalogue | driver/ap1302.c:1655-1672 | the enumerated sizes are exactly the sizes the exact lookup accepts |
| Modes.EnumMbusCodeListsSupported | driver/ap1302.c:1772-1785 | the enumerated codes are exactly the supported ones, and exactly the ones the format adjustment keeps |
| Modes.CountTableAt | driver/ap1302.c:1694-1706 | the scan visits (rate, mode) pairs rate-major and marks those with the requested size and a legal combination |
| Modes.ScanPosition | driver/ap1302.c:1694-1706 | each (rate, mode) pair has one scan position, and it decodes back to that pair |
| Modes.RatesOfMarked | driver/ap1302.c:1694-1706 | every rate counted by the scan comes from a marked pair |
| Modes.RatesOfPrefix | driver/ap1302.c:1694-1706 | the rates counted so far are a prefix of the final count |
| Modes.FindIndexedRate | driver/ap1302.c:1694-1706 | the nested loop finds a rate iff the index is below the number of legal rates for the size, and then returns the index-th one |
| Modes.EnumFrameInterval | driver/ap1302.c:1674-1710 | a bad pad, index, size or code gives `-EINVAL` and the interval untouched; otherwise the call succeeds iff the index-th legal rate exists, and returns its interval |
| Modes.EnumeratedRatesAreLegal | driver/ap1302.c:1694-1706 | every enumerated rate belongs to a mode of the requested size and passes the legality check |
| Session.ProbeSatisfiesInvariant | driver/ap1302.c:2237-2251 | the probed session (4K, 30 fps, UYVY8_1X16) satisfies the session invariant, unpowered, not streaming, page 0 |
| Session.HinfCtrlValue | driver/ap1302.c:999-1001 | the HINF control word sets the spoof bit and carries the lane count, below 0x100 |
| Session.SetModeDirectOutcome | driver/ap1302.c:989-1009 | mode programming writes HINF control, width and height in that order, stops at the first failure with its status, and succeeds iff all three writes did; the page cache is untouched |
| Session.SetModeIgnoresFailure | driver/ap1302.c:1011-1043 | `ap1302_set_mode` always returns 0, clears the pending mode change and records the current mode as last mode, even when a write failed |
| Session.SetFramefmtOutcome | driver/ap1302.c:1387-1409 | a supported code writes 0x50 to `PREVIEW_OUT_FMT` and returns that write's status; any other code is refused with `-EINVAL` and nothing sent |
| Session.EnumeratedCodesAreAccepted | driver/ap1302.c:1387-1409 | the enumerated codes are exactly those for which `ap1302_set_framefmt` writes the format register; any other code is refused with `-EINVAL` and nothing sent |
| Session.RestoreModeOutcome | driver/ap1302.c:1049-1065 | restoring reprograms the current mode, then the output format, returning the format write's result |
| Session.NestedPowerOnlyCounts | driver/ap1302.c:1205-1235 | power calls other than the first up or the last down only move the use count, with nothing sent |
| Session.LastPowerDownStopsStreaming | driver/ap1302.c:1205-1235 | the last power-down stops streaming and drops the count to 0, with nothing sent |
| Session.FirstPowerUpRestoresMode | driver/ap1302.c:1173-1235 | the first power-up restores the mode and format; on success it returns the control-setup result with count 1, on failure a negative code with the count left at 0 and streaming off |
| Session.PowerCountMovesByOne | driver/ap1302.c:1205-1235 | each power call moves the use count by exactly one, except a failed first power-up; only a first power-up sends anything |
| Session.SStreamNoop | driver/ap1302.c:1787-1830 | asking for the current streaming state does nothing and returns 0 |
| Session.SStreamRejectsIllegal | driver/ap1302.c:1794-1803 | starting or stopping at an illegal (mode, rate) pair returns `-EINVAL` with nothing changed or sent |
| Session.SStreamSetsStreamingOnlyOnSuccess | driver/ap1302.c:1787-1830 | the streaming flag changes only on success, to the requested value, on CSI-2 at a legal pair; the parallel bus never starts streaming |
| Session.SStreamAppliesPending | driver/ap1302.c:1805-1822 | a start that succeeds first programmed any pending mode, then any pending format (which succeeded), and leaves nothing pending |
| Session.SetFmtRefusals | driver/ap1302.c:1336-1385 | a non-zero pad is refused with `-EINVAL` and a streaming session with `-EBUSY`; nothing changes |
| Session.SetFmtOutcome | driver/ap1302.c:1336-1385 | setting a format adopts the adjusted format and the nearest mode, marks a mode change pending if the mode moved, and recomputes the pixel rate; the ACTIVE path stores the format while the TRY path updates the try format and marks a format change pending on a code change |
| Session.GetFmtOutcome | driver/ap1302.c:1277-1300 | reading the active format returns it after stamping reserved word 1 with 30 or 15 (by the current rate), changes nothing else, and reading twice gives the same result |
| Session.SFrameIntervalRefusals | driver/ap1302.c:1724-1770 | a non-zero pad is refused with `-EINVAL` and a streaming session with `-EBUSY`; nothing changes |
| Session.SFrameIntervalOutcome | driver/ap1302.c:1724-1770 | setting an interval returns the adjusted interval; a new rate is stored with its interval and pixel rate and marks a mode change pending, and the current rate changes nothing |
| Session.SFrameIntervalCurrentIsFixpoint | driver/ap1302.c:1724-1770 | setting the stored interval again is a no-op |
| Session.StallEnterState | driver/ap1302.c:1913-1937 | a successful stall stops streaming and caches page 0x23; a failed one returns a negative code with only the page cache possibly changed |
| Session.StallChain | driver/ap1302.c:1918-1926 | stall entry writes `SYS_START` twice, stops at the first failure, and continues only if both writes succeeded |
| Session.StallEnterOutcome | driver/ap1302.c:1913-1937 | stall entry sends a prefix of its fixed transaction sequence and succeeds iff it sent all of it and every transfer succeeded |
| Session.StallLeaveSetsStreaming | driver/ap1302.c:1938-1945 | leaving the stall marks the session streaming before the write and returns that write's status |
| Session.StallLeaveBreaksInvariant | driver/ap1302.c:1938-1945 | from the probed state on the parallel bus, leaving the stall gives a streaming session that breaks the invariant |
| Session.RetryBound | driver/ap1302.c:2161-2178 | the load loop runs at most `MAX_FW_LOAD_RETRIES` attempts, and runs out only after `-EAGAIN` |
| Session.RetryPower | driver/ap1302.c:2161-2178 | the loop's power effects are one power-up/power-down cycle per retried attempt, then a final power-up unless retries ran out |
| Session.RetryPowerAgain | driver/ap1302.c:2174-2177 | the same holds after an attempt that asked for another try |
| Session.HwInitOutcome | driver/ap1302.c:2139-2194 | a rejected image or failed supply returns its code with nothing sent; otherwise success ends powered after fewer than three cycles, running out of retries returns `-ETIMEDOUT`, and every failure ends with power off and streaming off |
| Session.AfterLoadOutcome | driver/ap1302.c:2180-2193 | after the loop, exhausting the retries gives `-ETIMEDOUT`, any other failure powers off, and success keeps the device powered |
| Session.SPowerKeepsInvariant | driver/ap1302.c:1205-1235 | `s_power` keeps the session invariant |
| Session.SStreamKeepsInvariant | driver/ap1302.c:1787-1830 | `s_stream` keeps the session invariant |
| Session.SetFmtKeepsInvariant | driver/ap1302.c:1336-1385 | `set_fmt` keeps the session invariant |
| Session.GetFmtKeepsInvariant | driver/ap1302.c:1277-1300 | `get_fmt` keeps the session invariant |
| Session.SFrameIntervalKeepsInvariant | driver/ap1302.c:1724-1770 | `s_frame_interval` keeps the session invariant |
| Session.StallEnterKeepsInvariant | driver/ap1302.c:1913-1937 | entering the stall keeps the session invariant |
| Session.HwInitKeepsInvariant | driver/ap1302.c:2139-2194 | `hw_init` keeps the session invariant |
| Device.Sensor.constructor | driver/ap1302.c:2237-2251 | a new sensor is in the probed session state over a fresh register map on the given bus |
| Device.Sensor.SetModeDirect | driver/ap1302.c:989-1009 | `ap1302_set_mode_direct` issues exactly the reference mode writes and returns their accumulated code |
| Device.Sensor.SetMode | driver/ap1302.c:1011-1043 | `ap1302_set_mode` updates the fields and the bus as the reference does |
| Device.Sensor.SetFramefmt | driver/ap1302.c:1387-1409 | `ap1302_set_framefmt` does exactly what the reference does |
| Device.Sensor.RestoreMode | driver/ap1302.c:1049-1065 | `ap1302_restore_mode` updates the fields and the bus as the reference does |
| Device.Sensor.SetPower | driver/ap1302.c:1173-1200 | `ap1302_set_power` updates the fields and the bus as the reference does |
| Device.Sensor.SPower | driver/ap1302.c:1205-1235 | `ap1302_s_power` updates the fields and the bus as the reference does |
| Device.Sensor.SStream | driver/ap1302.c:1787-1830 | `ap1302_s_stream` updates the fields and the bus as the reference does |
| Device.Sensor.ApplyPending | driver/ap1302.c:1805-1817 | applying pending changes before streaming updates the fields and the bus as the reference does |
| Device.Sensor.SetFmt | driver/ap1302.c:1336-1385 | `ap1302_set_fmt` updates the fields and returns the formats as the reference does |
| Device.Sensor.CommitFmt | driver/ap1302.c:1361-1381 | the commit part of `set_fmt` updates the fields as the reference does |
| Device.Sensor.GetFmt | driver/ap1302.c:1277-1300 | `ap1302_get_fmt` updates the fields and returns the format as the reference does |
| Device.Sensor.SFrameInterval | driver/ap1302.c:1724-1770 | `ap1302_s_frame_interval` updates the fields and returns the interval as the reference does |
| Device.Sensor.CommitInterval | driver/ap1302.c:1757-1765 | the commit part of `s_frame_interval` updates the fields as the reference does |
| Device.Sensor.HwInit | driver/ap1302.c:2139-2194 | `ap1302_hw_init` updates the fields, the power effects and the bus as the reference does |
| Device.Sensor.LoadLoop | driver/ap1302.c:2161-2178 | the retry loop issues the reference transactions and power effects, and returns the final code and retry count |
| Device.Sensor.LoadAttempt | driver/ap1302.c:2166-2172 | one attempt (detect, then load) matches the reference attempt |
| Device.Sensor.Stall | driver/ap1302.c:1913-1946 | `ap1302_stall` updates the fields and the bus as the reference does |
| Device.Sensor.StallWrites | driver/ap1302.c:1918-1926 | the two accumulated `SYS_START` writes match the reference chain |
| Device.Sensor.SetPowerOff | driver/ap1302.c:1153-1159 | powering off appends power-down and supply-off effects and stops streaming |

## Left out

- Clocks, regulators, reset and standby GPIOs and delays (`ap1302_power_on`, `ap1302_power_off`, `usleep_range`, `msleep`) are abstract `PowerEvent`s. A clock or regulator failure in `ap1302_set_power_on` is the `supply` parameter of `HwInit`.
- `request_firmware` and `release_firmware` are not modelled. The fetch result is the `fetched` parameter and the image is `blob`.
- regmap is not modelled. Each register access is one logged transaction, answered by the oracle `respond`; regmap's byte framing and retries are not modelled.
- The control framework is not modelled: `ap1302_ctrls_init`, `s_ctrl`, `g_volatile_ctrl`, the test-pattern and colour controls, and `__v4l2_ctrl_handler_setup`. Its result is the `ctrlSetup` parameter of `SPower`.
- The sub-device locking (`sensor->lock`), event subscription, media-entity and async registration, `virtual_channel`, `g_frame_interval`, and probe/remove beyond the initial session values are not modelled.
- The `dev_err`, `dev_dbg` and `dev_info` logging is not modelled.
- Modes.NearestSize: `ap1302_find_mode` delegates the search to the kernel helper `v4l2_find_nearest_size`, which is not part of this model. The metric is the kernel's: `|dw| + |dh|` on unsigned values, with an entry skipped only when its error exceeds the best so far, so ties go to the later table entry. This is stated for sizes below 2^31, where the unsigned arithmetic cannot wrap.
- Boot.PllInitSize: reads the 16-bit header field little-endian, that is, as the driver reads it on a little-endian host. A big-endian host is not modelled.
- Session.GetFmtSpec: requires `pad != 0 || which == Active`. The TRY path with pad 0 reads a pointer the driver never initialises.
- Firmware.WriteFwWindow: requires `len > 0`. With `len == 0` the driver returns an uninitialised `ret`.
- Boot.LoadFirmware and Device.Sensor.HwInit: require an image longer than its 4-byte header for the same reason. Image sizes are not limited to 32 bits.
- Session.SetModeSpec: models the write errors of `ap1302_set_mode_direct` being dropped, as written. `ap1302_set_mode` returns 0, so the error exits after it in `restore_mode` and `s_stream` are never taken and are not modelled.
- Session.StallSpec: `ap1302_stall(false)` sets `streaming` before its write, even on the parallel bus and even if the write fails. This is modelled as written, and `StallLeaveBreaksInvariant` shows it breaks the session invariant. Stall leave therefore has no keeps-invariant lemma.
- Session.SFrameIntervalSpec: the `-EINVAL` branch of `ap1302_s_frame_interval` after `ap1302_find_mode(..., true)` is unreachable, because the nearest lookup always finds a mode (`FindModeNearestTotal`). The failure of `ap1302_try_fmt_internal` is likewise impossible and not modelled.
- Device.Sensor.HwInit: the power effects of the retry loop are returned by `LoadLoop` and appended to `power` after the loop, not one at a time inside it. The order of effects is the same.
- Behaviour of the driver that a reader may not expect, modelled as written:
  - the cached register page survives power-off;
  - `ap1302_set_mode` ignores write failures;
  - the boot-data checksum is compared with 0xFFFF;
  - `ap1302_hw_init` powers the device up in `set_power_on` and again at the start of every attempt.
