/**
 * Register references, register constants and the small pieces of bit
 * arithmetic the AP1302 driver performs on register values.
 *
 * A register reference is a 32-bit word: the transfer size in bytes in
 * bits 24-31 (2 or 4), a page selector in bits 16-23 and a 16-bit offset
 * in bits 0-15; the model keeps the three fields apart.
 */
module Registers {

  type u8 = x: int | 0 <= x < 0x100
  type u16 = x: int | 0 <= x < 0x1_0000
  type u32 = x: int | 0 <= x < 0x1_0000_0000
  /** A C `int` holding a return code. */
  type i32 = x: int | -0x8000_0000 <= x < 0x8000_0000

  // Kernel errno values; the driver returns them negated.
  const EAGAIN: int := 11
  const EBUSY: int := 16
  const EINVAL: int := 22
  const ETIMEDOUT: int := 110

  // ---------------------------------------------------------------------
  // Register reference encoding

  const REG_PAGE_MASK: u32 := 0x00FF_0000
  /** Offset added to a paged register's offset: the advanced register window. */
  const REG_ADV_START: u32 := 0xE000

  /**
   * A register reference, held by its three fields: the transfer size in
   * bytes, the page selector and the 16-bit offset.
   */
  datatype RegRef = RegRef(size: u8, page: u8, addr: u16)

  /** Whether the reference names a transfer size the bus supports: 2 or 4 bytes. */
  predicate ValidSize(r: RegRef)
  {
    r.size == 2 || r.size == 4
  }

  /** The 32-bit word the driver passes around for a reference. */
  function Word(r: RegRef): (w: u32)
  {
    r.size * 0x100_0000 + r.page * 0x1_0000 + r.addr
  }

  /** A 32-bit word read back as a reference: size in bits 24-31, page in 16-23, offset in 0-15. */
  function FromWord(w: u32): (r: RegRef)
    ensures Word(r) == w
  {
    RegRef(w / 0x100_0000, w / 0x1_0000 % 0x100, w % 0x1_0000)
  }

  /** The fields can be recovered from the word: the encoding loses nothing. */
  lemma WordDecodes(r: RegRef)
    ensures FromWord(Word(r)) == r
  {
    var w := Word(r);
    assert w / 0x1_0000 == r.size * 0x100 + r.page;
  }

  /** The page bits of a reference, left in place as the driver keeps them (`reg & REG_PAGE_MASK`). */
  function RegPage(r: RegRef): (p: u32)
    ensures p % 0x1_0000 == 0 && p <= REG_PAGE_MASK
  {
    r.page * 0x1_0000
  }

  /**
   * The page is the reference's word masked with `REG_PAGE_MASK`: bits
   * 16-23 of the word, left in place.
   */
  lemma RegPageMasksWord(r: RegRef)
    ensures RegPage(r) == (Word(r) / 0x1_0000 % 0x100) * 0x1_0000
  {
    assert Word(r) / 0x1_0000 == r.size * 0x100 + r.page;
  }

  /** A 16-bit register reference for a 24-bit page-and-offset value. */
  function Reg16(n: int): (r: RegRef)
    requires 0 <= n < 0x100_0000
    ensures r.size == 2 && Word(r) == 0x200_0000 + n
  {
    RegRef(2, n / 0x1_0000, n % 0x1_0000)
  }

  /** A 32-bit register reference for a 24-bit page-and-offset value. */
  function Reg32(n: int): (r: RegRef)
    requires 0 <= n < 0x100_0000
    ensures r.size == 4 && Word(r) == 0x400_0000 + n
  {
    RegRef(4, n / 0x1_0000, n % 0x1_0000)
  }

  /**
   * The reference a paged access really uses: the page bits cleared and
   * the advanced-window base added to the offset. A carry out of the
   * 16-bit offset lands in the lowest page bit, as it does in the word.
   */
  function Relocate(r: RegRef): (q: RegRef)
    ensures q.size == r.size && q.addr == (r.addr + REG_ADV_START) % 0x1_0000
  {
    var moved := r.addr + REG_ADV_START;
    if moved < 0x1_0000 then RegRef(r.size, 0, moved) else RegRef(r.size, 1, moved - 0x1_0000)
  }

  /** Relocation is the driver's unsigned word arithmetic `reg - page + REG_ADV_START`. */
  lemma RelocateIsWordArithmetic(r: RegRef)
    ensures Word(Relocate(r)) == Word(r) - RegPage(r) + REG_ADV_START
  {
  }

  // ---------------------------------------------------------------------
  // Registers used by the modelled code

  const CHIP_VERSION: RegRef := Reg16(0x0000)
  const CHIP_ID: u32 := 0x0265
  const CHIP_REV: RegRef := Reg16(0x0050)
  const PREVIEW_WIDTH: RegRef := Reg16(0x2000)
  const PREVIEW_HEIGHT: RegRef := Reg16(0x2002)
  const PREVIEW_OUT_FMT: RegRef := Reg16(0x2012)
  /** FT_YUV_JFIF (5 << 4) | FST_YUV_422 (0). */
  const PREVIEW_OUT_FMT_YUV422_JFIF: u32 := 0x50
  const PREVIEW_HINF_CTRL: RegRef := Reg16(0x2030)
  const PREVIEW_HINF_CTRL_SPOOF: u32 := 0x10
  const BOOTDATA_STAGE: RegRef := Reg16(0x6002)
  const SYS_START: RegRef := Reg16(0x601A)
  const SYS_START_PLL_LOCK: u32 := 0x8000
  const SYS_START_STALL_STATUS: u32 := 0x200
  const SYS_START_STALL_EN: u32 := 0x100
  const SYS_START_STALL_MODE_DISABLED: u32 := 0x40
  const SIP_CHECKSUM: RegRef := Reg16(0x6134)
  /** The page-select register: written with the page bits of a paged reference. */
  const ADVANCED_BASE: RegRef := Reg32(0xF038)
  const ADV_IRQ_SYS_INTE: RegRef := Reg32(0x23_0000)
  /** SIPM (3 << 6) | SIPS_FIFO_WRITE (1 << 3). */
  const ADV_IRQ_SYS_INTE_SIPM_FIFO: u32 := 0xC8
  const ADV_HINF_MIPI_T3: RegRef := Reg32(0x84_0014)

  // ---------------------------------------------------------------------
  // Bitwise OR on unsigned values

  function Pow2(k: nat): (p: nat)
    ensures p >= 1
  {
    if k == 0 then 1 else 2 * Pow2(k - 1)
  }

  /** Bitwise OR of two non-negative integers, bit by bit from the least significant one. */
  function BitOr(x: nat, y: nat): nat
    decreases x + y
  {
    if x == 0 then y
    else if y == 0 then x
    else 2 * BitOr(x / 2, y / 2) + (if x % 2 == 1 || y % 2 == 1 then 1 else 0)
  }

  /** The OR is zero exactly when both operands are. */
  lemma {:induction false} BitOrZero(x: nat, y: nat)
    ensures BitOr(x, y) == 0 <==> x == 0 && y == 0
  {
    BitOrCovers(x, y);
  }

  /** The OR keeps every bit of each operand, so it is at least as large as either. */
  lemma {:induction false} BitOrCovers(x: nat, y: nat)
    ensures BitOr(x, y) >= x && BitOr(x, y) >= y
    decreases x + y
  {
    if x != 0 && y != 0 {
      BitOrCovers(x / 2, y / 2);
    }
  }

  /** The OR of two k-bit values is a k-bit value. */
  lemma {:induction false} BitOrBound(x: nat, y: nat, k: nat)
    requires x < Pow2(k) && y < Pow2(k)
    ensures BitOr(x, y) < Pow2(k)
    decreases k
  {
    if x != 0 && y != 0 {
      BitOrBound(x / 2, y / 2, k - 1);
    }
  }

  /** OR with a value whose low k bits are clear adds the two. */
  lemma {:induction false} BitOrDisjoint(q: nat, lo: nat, k: nat)
    requires lo < Pow2(k)
    ensures BitOr(q * Pow2(k), lo) == q * Pow2(k) + lo
    decreases k
  {
    var hi := q * Pow2(k);
    if hi != 0 && lo != 0 {
      assert k > 0;
      var m := q * Pow2(k - 1);
      assert hi == 2 * m;
      assert hi / 2 == m && hi % 2 == 0;
      BitOrDisjoint(q, lo / 2, k - 1);
    }
  }

  lemma {:induction false} Pow2Add(a: nat, b: nat)
    ensures Pow2(a + b) == Pow2(a) * Pow2(b)
    decreases a
  {
    if a > 0 {
      Pow2Add(a - 1, b);
    }
  }

  lemma Pow2Byte()
    ensures Pow2(8) == 0x100
  {
    assert Pow2(4) == 16 by {
      assert Pow2(1) == 2;
      assert Pow2(2) == 4;
      assert Pow2(3) == 8;
    }
    Pow2Add(4, 4);
  }

  lemma Pow2Word()
    ensures Pow2(32) == 0x1_0000_0000
  {
    Pow2Byte();
    Pow2Add(8, 8);
    Pow2Add(16, 16);
  }

  /** A byte shifted left by 8 and ORed with another byte is their sum. */
  lemma ByteJoin(hi: u8, lo: u8)
    ensures BitOr(hi * 0x100, lo) == hi * 0x100 + lo
  {
    Pow2Byte();
    BitOrDisjoint(hi, lo, 8);
  }

  // ---------------------------------------------------------------------
  // Error codes combined with `|`

  /** The 32-bit two's-complement pattern of a C int. */
  function ToBits(a: i32): u32 { if a < 0 then a + 0x1_0000_0000 else a }

  /** The C int whose two's-complement pattern is the given word. */
  function FromBits(w: u32): i32 { if w >= 0x8000_0000 then w - 0x1_0000_0000 else w }

  /**
   * `a | b` on two C ints, as `ret |= ...` computes it. The OR of two
   * 32-bit patterns is itself below 2^32 (`OrErrFacts` uses this), so the
   * reduction to 32 bits never changes it.
   */
  function OrErr(a: i32, b: i32): i32
  {
    FromBits(BitOr(ToBits(a), ToBits(b)) % 0x1_0000_0000)
  }

  /**
   * Combining two return codes with `|` yields success exactly when both
   * succeeded, keeps a lone failure unchanged, and stays negative when
   * either code is negative.
   */
  lemma OrErrFacts(a: i32, b: i32)
    ensures OrErr(a, b) == 0 <==> a == 0 && b == 0
    ensures a == 0 ==> OrErr(a, b) == b
    ensures b == 0 ==> OrErr(a, b) == a
    ensures a < 0 || b < 0 ==> OrErr(a, b) < 0
  {
    var x, y := ToBits(a), ToBits(b);
    var o := BitOr(x, y);
    Pow2Word();
    BitOrBound(x, y, 32);
    assert o < 0x1_0000_0000;
    assert o % 0x1_0000_0000 == o;
    BitOrZero(x, y);
    BitOrCovers(x, y);
  }

  // ---------------------------------------------------------------------
  // Big-endian 16-bit framing (ap1302_write_reg16 / ap1302_read_reg16)

  function Be16(x: u16): seq<u8> { [x / 0x100, x % 0x100] }

  /** `(u16)buf[0] << 8 | buf[1]`: the low byte fills bits the shifted high byte leaves clear. */
  function FromBe16(b0: u8, b1: u8): (x: u16)
  {
    ByteJoin(b0, b1);
    BitOr(b0 * 0x100, b1)
  }

  /** The four-byte write frame: register address then value, each most significant byte first. */
  function WriteReg16Frame(reg: u16, val: u16): (f: seq<u8>)
    ensures |f| == 4
  {
    Be16(reg) + Be16(val)
  }

  lemma {:induction false} Be16RoundTrip(x: u16)
    ensures FromBe16(Be16(x)[0], Be16(x)[1]) == x
  {
    ByteJoin(x / 0x100, x % 0x100);
  }

  lemma {:induction false} FromBe16RoundTrip(b0: u8, b1: u8)
    ensures Be16(FromBe16(b0, b1)) == [b0, b1]
  {
    ByteJoin(b0, b1);
    var x := b0 * 0x100 + b1;
    assert x / 0x100 == b0 && x % 0x100 == b1;
  }

  /** The write frame carries the register then the value, and both decode back. */
  lemma WriteReg16FrameDecodes(reg: u16, val: u16)
    ensures var f := WriteReg16Frame(reg, val);
      FromBe16(f[0], f[1]) == reg && FromBe16(f[2], f[3]) == val
  {
    Be16RoundTrip(reg);
    Be16RoundTrip(val);
  }

  // ---------------------------------------------------------------------
  // MIPI T3 clock timing adjustment (ap1302_set_mipi_t3_clk)

  const TCLK_POST_MASK: bv32 := 0xFF
  const TCLK_PRE_MASK: bv32 := 0xFF00

  /**
   * Tclk_post (bits 0-7) is read and increased by 5, Tclk_pre (bits 8-15)
   * by 1, the two fields are cleared and the new values ORed back in, all
   * in unsigned 32-bit arithmetic. The increments are not reduced to the
   * field width.
   */
  function MipiT3Adjust(t3: bv32): bv32
  {
    var post := (t3 & TCLK_POST_MASK) + 5;
    var pre := ((t3 & TCLK_PRE_MASK) >> 8) + 1;
    ((t3 & !TCLK_POST_MASK) & !TCLK_PRE_MASK) | (pre << 8) | post
  }

  /**
   * Exact effect of the adjustment on every field: each field wraps
   * within its byte, and a carry out of Tclk_post sets bit 0 of Tclk_pre
   * while a carry out of Tclk_pre sets bit 16 of the untouched upper half.
   */
  lemma MipiT3Fields(t3: bv32)
    ensures MipiT3Adjust(t3) & 0xFF == ((t3 & 0xFF) + 5) & 0xFF
    ensures (MipiT3Adjust(t3) >> 8) & 0xFF
      == ((((t3 >> 8) & 0xFF) + 1) & 0xFF) | (if t3 & 0xFF >= 0xFB then 1 else 0)
    ensures MipiT3Adjust(t3) >> 16 == (t3 >> 16) | (if (t3 >> 8) & 0xFF == 0xFF then 1 else 0)
  {
  }

  /** Without overflow, the two fields are incremented and every other bit is preserved. */
  lemma MipiT3NoOverflow(t3: bv32)
    requires t3 & 0xFF <= 0xFA && (t3 >> 8) & 0xFF <= 0xFE
    ensures MipiT3Adjust(t3) & 0xFF == (t3 & 0xFF) + 5
    ensures (MipiT3Adjust(t3) >> 8) & 0xFF == ((t3 >> 8) & 0xFF) + 1
    ensures MipiT3Adjust(t3) & 0xFFFF_0000 == t3 & 0xFFFF_0000
  {
  }

  /** A register whose fields are near their maximum leaks carries into neighbouring bits. */
  lemma MipiT3CarryLeaks()
    ensures MipiT3Adjust(0xFFFC) == 0x1_0101
  {
  }
}
