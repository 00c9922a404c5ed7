/**
 * Firmware handling of the AP1302 driver: the header check, the upload of
 * the boot data through the 8 KiB register window at 0x8000 in pieces of
 * at most 2 KiB, the checksum handshake after the upload, the MIPI clock
 * adjustment that follows it, and the chip identification.
 *
 * Both upload routines are proved to issue exactly the raw writes of one
 * reference plan, `ChunkedSpec`: consecutive 2 KiB slices of the data, the
 * last one shorter, each at the window address of its position, stopping
 * at the first failed transfer. The plan is a list of pieces (offset,
 * length, window position); `Writes` turns it into bus transactions.
 */
module Firmware {
  import opened Registers
  import opened Transport
  import opened Access
  import opened Wrappers

  const FW_WINDOW_SIZE: nat := 0x2000
  const FW_WINDOW_OFFSET: nat := 0x8000
  const FW_BLOCK_LEN: nat := 0x800
  /** `struct ap1302_firmware_header`: `pll_init_size` and `crc`, two 16-bit fields. */
  const HEADER_SIZE: nat := 4

  /** One raw write of an upload: `len` bytes from offset `off` of the data, at window position `pos`. */
  datatype Piece = Piece(off: nat, len: nat, pos: nat)

  /** The outcome of an upload: return code, window position reached, pieces written. */
  datatype Upload = Upload(ret: int, pos: nat, pieces: seq<Piece>)

  /** The register address the window position `pos` maps to: the window wraps every 8 KiB. */
  function WindowAddr(pos: nat): (a: u16)
    ensures FW_WINDOW_OFFSET <= a < FW_WINDOW_OFFSET + FW_WINDOW_SIZE
  {
    FW_WINDOW_OFFSET + pos % FW_WINDOW_SIZE
  }

  /**
   * The C cursor is an `unsigned int`; its wrap-around at 2^32 does not
   * change the address, since 2^32 is a multiple of the window size.
   */
  lemma WindowAddrIgnoresWrap(pos: nat)
    ensures WindowAddr(pos % 0x1_0000_0000) == WindowAddr(pos)
  {
    var q, r := pos / 0x1_0000_0000, pos % 0x1_0000_0000;
    assert pos == (q * 0x8_0000) * FW_WINDOW_SIZE + r;
    ModMultipleOfWindow(q * 0x8_0000, r);
  }

  lemma ModMultipleOfWindow(k: nat, r: nat)
    ensures (k * FW_WINDOW_SIZE + r) % FW_WINDOW_SIZE == r % FW_WINDOW_SIZE
  {
    var x := k * FW_WINDOW_SIZE + r;
    assert x == (k + r / FW_WINDOW_SIZE) * FW_WINDOW_SIZE + r % FW_WINDOW_SIZE;
  }

  /** Every piece of `ps` lies within bytes `lo..hi` of the data. */
  ghost predicate Within(ps: seq<Piece>, lo: nat, hi: nat)
  {
    forall i | 0 <= i < |ps| :: lo <= ps[i].off && ps[i].off + ps[i].len <= hi
  }

  /** The bytes of `data` piece `p` covers (pieces of an upload always lie inside the data: `ChunkedWithin`). */
  function Bytes(data: seq<u8>, p: Piece): seq<u8>
  {
    if p.off + p.len <= |data| then data[p.off..p.off + p.len] else []
  }

  /** The raw write of piece `p` of `data`. */
  function Chunk(data: seq<u8>, p: Piece): Op
  {
    RawWrite(WindowAddr(p.pos), Bytes(data, p))
  }

  /** The transactions that write the pieces `ps` of `data`, in order. */
  function Writes(data: seq<u8>, ps: seq<Piece>): (ops: seq<Op>)
    ensures |ops| == |ps|
  {
    if ps == [] then [] else [Chunk(data, ps[0])] + Writes(data, ps[1..])
  }

  lemma {:induction false} WritesAt(data: seq<u8>, ps: seq<Piece>, k: nat)
    requires k < |ps|
    ensures Writes(data, ps)[k] == Chunk(data, ps[k])
    decreases k
  {
    if k > 0 {
      WritesAt(data, ps[1..], k - 1);
    }
  }

  lemma {:induction false} WritesAppend(data: seq<u8>, a: seq<Piece>, b: seq<Piece>)
    ensures Writes(data, a + b) == Writes(data, a) + Writes(data, b)
    decreases |a|
  {
    if a != [] {
      assert (a + b)[1..] == a[1..] + b;
      WritesAppend(data, a[1..], b);
    } else {
      assert a + b == b;
    }
  }

  function Prepend(ps: seq<Piece>, u: Upload): Upload
  {
    u.(pieces := ps + u.pieces)
  }

  function Min(a: nat, b: nat): nat { if a < b then a else b }

  // ---------------------------------------------------------------------
  // The reference plan

  /**
   * `len` bytes from offset `off` written as consecutive slices of at most
   * 2 KiB, the first at window position `pos`; the first failed transfer
   * ends the upload with its code.
   */
  function ChunkedSpec(off: nat, len: nat, pos: nat, respond: nat -> Reply, n: nat): (u: Upload)
    decreases len, 2
  {
    ChunkedLayer(FoldDepth(n), off, len, pos, respond, n)
  }

  /**
   * The definition of `ChunkedSpec`, behind `k` layers of indirection so that
   * proofs about the upload loops do not unfold the plan at every use;
   * `ChunkedUnfold` gives the definition where a proof needs it.
   */
  function ChunkedLayer(k: nat, off: nat, len: nat, pos: nat, respond: nat -> Reply, n: nat): (u: Upload)
    decreases len, 1, k
  {
    if k > 0 then ChunkedLayer(k - 1, off, len, pos, respond, n)
    else if len == 0 then Upload(0, pos, [])
    else
      var c := Min(len, FW_BLOCK_LEN);
      if respond(n).status != 0 then Upload(respond(n).status, pos, [Piece(off, c, pos)])
      else Prepend([Piece(off, c, pos)], ChunkedSpec(off + c, len - c, pos + c, respond, n + 1))
  }

  /** One step of `ChunkedSpec`: nothing left, a failed transfer, or a piece followed by the rest. */
  lemma ChunkedUnfold(off: nat, len: nat, pos: nat, respond: nat -> Reply, n: nat)
    ensures ChunkedSpec(off, len, pos, respond, n) ==
      if len == 0 then Upload(0, pos, [])
      else
        var c := Min(len, FW_BLOCK_LEN);
        if respond(n).status != 0 then Upload(respond(n).status, pos, [Piece(off, c, pos)])
        else Prepend([Piece(off, c, pos)], ChunkedSpec(off + c, len - c, pos + c, respond, n + 1))
  {
    assert FoldDepth(n) == 2;
    assert ChunkedSpec(off, len, pos, respond, n) == ChunkedLayer(2, off, len, pos, respond, n)
      == ChunkedLayer(1, off, len, pos, respond, n) == ChunkedLayer(0, off, len, pos, respond, n);
  }

  /** Where slice `k` of a plan starts, relative to the plan's start. */
  function SliceStart(k: nat): nat { k * FW_BLOCK_LEN }

  /**
   * A plan succeeds exactly when all its transfers do, and then it has
   * advanced the position by `len`; otherwise its code is the failing
   * transfer's, which is the last one issued.
   */
  lemma {:induction false} ChunkedOutcome(off: nat, len: nat, pos: nat, respond: nat -> Reply, n: nat)
    ensures var u := ChunkedSpec(off, len, pos, respond, n);
      -0x8000_0000 <= u.ret <= 0
      && (u.ret == 0 <==> AllSucceed(respond, n, |u.pieces|))
      && (u.ret == 0 ==> u.pos == pos + len)
      && (u.ret != 0 ==> |u.pieces| > 0 && u.ret == respond(n + |u.pieces| - 1).status)
    decreases len
  {
    ChunkedUnfold(off, len, pos, respond, n);
    if len > 0 {
      var c := Min(len, FW_BLOCK_LEN);
      if respond(n).status == 0 {
        ChunkedOutcome(off + c, len - c, pos + c, respond, n + 1);
      }
    }
  }

  /** Every piece of a plan lies inside the bytes it was given. */
  lemma {:induction false} ChunkedWithin(off: nat, len: nat, pos: nat, respond: nat -> Reply, n: nat)
    ensures Within(ChunkedSpec(off, len, pos, respond, n).pieces, off, off + len)
    decreases len
  {
    ChunkedUnfold(off, len, pos, respond, n);
    if len > 0 && respond(n).status == 0 {
      var c := Min(len, FW_BLOCK_LEN);
      var rest := ChunkedSpec(off + c, len - c, pos + c, respond, n + 1);
      ChunkedWithin(off + c, len - c, pos + c, respond, n + 1);
      var ps := [Piece(off, c, pos)] + rest.pieces;
      assert ChunkedSpec(off, len, pos, respond, n).pieces == ps;
      forall i | 0 <= i < |ps|
        ensures off <= ps[i].off && ps[i].off + ps[i].len <= off + len
      {
        if i > 0 {
          assert ps[i] == rest.pieces[i - 1];
        }
      }
    }
  }

  /** Slice `k` of a plan over `len` bytes from `off`, starting at position `pos`, is the piece `p`. */
  ghost predicate SliceAt(off: nat, len: nat, pos: nat, k: nat, p: Piece)
  {
    SliceStart(k) < len
    && p == Piece(off + SliceStart(k), Min(len - SliceStart(k), FW_BLOCK_LEN), pos + SliceStart(k))
  }

  /**
   * The k-th piece of a plan is slice `k`: the bytes from `off + k*2048`,
   * at most 2048 of them, at position `pos + k*2048`.
   */
  lemma {:induction false} ChunkedLayout(off: nat, len: nat, pos: nat, respond: nat -> Reply, n: nat, k: nat)
    requires k < |ChunkedSpec(off, len, pos, respond, n).pieces|
    ensures SliceAt(off, len, pos, k, ChunkedSpec(off, len, pos, respond, n).pieces[k])
    decreases k
  {
    ChunkedUnfold(off, len, pos, respond, n);
    var c := Min(len, FW_BLOCK_LEN);
    var u := ChunkedSpec(off, len, pos, respond, n);
    if k > 0 {
      var rest := ChunkedSpec(off + c, len - c, pos + c, respond, n + 1);
      assert u.pieces == [Piece(off, c, pos)] + rest.pieces;
      ChunkedLayout(off + c, len - c, pos + c, respond, n + 1, k - 1);
      assert u.pieces[k] == rest.pieces[k - 1];
      assert c == FW_BLOCK_LEN;
      SliceAtShift(off, len, pos, k, u.pieces[k]);
    }
  }

  /** Slice `k - 1` of the plan after the first full slice is slice `k` of the whole plan. */
  lemma SliceAtShift(off: nat, len: nat, pos: nat, k: nat, p: Piece)
    requires len >= FW_BLOCK_LEN && k > 0
    requires SliceAt(off + FW_BLOCK_LEN, len - FW_BLOCK_LEN, pos + FW_BLOCK_LEN, k - 1, p)
    ensures SliceAt(off, len, pos, k, p)
  {
    assert SliceStart(k - 1) + FW_BLOCK_LEN == SliceStart(k);
  }

  /** The bytes a sequence of raw writes carries, in order. */
  function Payload(ops: seq<Op>): seq<u8>
  {
    if ops == [] then [] else (if ops[0].RawWrite? then ops[0].data else []) + Payload(ops[1..])
  }

  /** A successful plan carries exactly the bytes it was given, in order. */
  lemma {:induction false} ChunkedCarriesData(data: seq<u8>, off: nat, len: nat, pos: nat, respond: nat -> Reply, n: nat)
    requires off + len <= |data|
    requires ChunkedSpec(off, len, pos, respond, n).ret == 0
    ensures Carried(data, ChunkedSpec(off, len, pos, respond, n).pieces) == data[off..off + len]
    decreases len
  {
    if len > 0 {
      var c := Min(len, FW_BLOCK_LEN);
      ChunkedHead(off, len, pos, respond, n);
      ChunkedCarriesData(data, off + c, len - c, pos + c, respond, n + 1);
      CarryStep(data, ChunkedSpec(off, len, pos, respond, n).pieces, len);
    } else {
      ChunkedUnfold(off, len, pos, respond, n);
    }
  }

  /** A successful non-empty plan is its first piece followed by the plan for the rest. */
  lemma ChunkedHead(off: nat, len: nat, pos: nat, respond: nat -> Reply, n: nat)
    requires len > 0
    requires ChunkedSpec(off, len, pos, respond, n).ret == 0
    ensures var c := Min(len, FW_BLOCK_LEN);
      var rest := ChunkedSpec(off + c, len - c, pos + c, respond, n + 1);
      var qs := ChunkedSpec(off, len, pos, respond, n).pieces;
      rest.ret == 0 && |qs| > 0 && qs[0] == Piece(off, c, pos) && qs[1..] == rest.pieces
  {
    var c := Min(len, FW_BLOCK_LEN);
    ChunkedUnfold(off, len, pos, respond, n);
  }

  lemma CarryStep(data: seq<u8>, qs: seq<Piece>, len: nat)
    requires |qs| > 0 && qs[0].len <= len && qs[0].off + len <= |data|
    requires Carried(data, qs[1..]) == data[qs[0].off + qs[0].len..qs[0].off + len]
    ensures Carried(data, qs) == data[qs[0].off..qs[0].off + len]
  {
    var p := qs[0];
    assert Carried(data, qs) == Bytes(data, p) + Carried(data, qs[1..]);
    SliceSplit(data, p.off, p.len, len, Carried(data, qs), Bytes(data, p), Carried(data, qs[1..]));
  }

  /** The payload of the writes of a plan is what its pieces carry. */
  lemma {:induction false} PayloadIsCarried(data: seq<u8>, ps: seq<Piece>)
    ensures Payload(Writes(data, ps)) == Carried(data, ps)
  {
    if ps != [] {
      PayloadIsCarried(data, ps[1..]);
      PayloadFirst(data, ps);
    }
  }

  lemma SliceSplit(data: seq<u8>, off: nat, c: nat, len: nat, whole: seq<u8>, head: seq<u8>, tail: seq<u8>)
    requires c <= len && off + len <= |data|
    requires whole == head + tail && head == data[off..off + c] && tail == data[off + c..off + len]
    ensures whole == data[off..off + len]
  {
  }

  lemma PayloadFirst(data: seq<u8>, qs: seq<Piece>)
    requires |qs| > 0
    ensures Payload(Writes(data, qs)) == Bytes(data, qs[0]) + Payload(Writes(data, qs[1..]))
  {
    var t := Writes(data, qs[1..]);
    assert Writes(data, qs) == [Chunk(data, qs[0])] + t;
    PayloadCons(Chunk(data, qs[0]), t);
  }

  /** The bytes the pieces `ps` of `data` carry, in order. */
  function Carried(data: seq<u8>, ps: seq<Piece>): seq<u8>
  {
    if ps == [] then [] else Bytes(data, ps[0]) + Carried(data, ps[1..])
  }

  lemma PayloadCons(op: Op, ops: seq<Op>)
    ensures Payload([op] + ops) == (if op.RawWrite? then op.data else []) + Payload(ops)
  {
    assert ([op] + ops)[1..] == ops;
  }

  /**
   * Starting on a 2 KiB boundary, every write of a plan is a raw write of
   * 1 to 2048 bytes that lands entirely in the window 0x8000..0x9FFF.
   */
  lemma ChunksStayInWindow(data: seq<u8>, off: nat, len: nat, pos: nat, respond: nat -> Reply, n: nat, k: nat)
    requires off + len <= |data| && pos % FW_BLOCK_LEN == 0
    requires k < |ChunkedSpec(off, len, pos, respond, n).pieces|
    ensures var op := Writes(data, ChunkedSpec(off, len, pos, respond, n).pieces)[k];
      op.RawWrite? && 0 < |op.data| <= FW_BLOCK_LEN
      && FW_WINDOW_OFFSET <= op.addr && op.addr + |op.data| <= FW_WINDOW_OFFSET + FW_WINDOW_SIZE
  {
    var u := ChunkedSpec(off, len, pos, respond, n);
    WritesAt(data, u.pieces, k);
    ChunkedLayout(off, len, pos, respond, n, k);
    var m := pos / FW_BLOCK_LEN + k;
    assert pos + SliceStart(k) == SliceStart(m);
    AlignedSlotFits(m);
  }

  /** A 2 KiB-aligned position leaves at least 2 KiB before the end of the 8 KiB window. */
  lemma AlignedSlotFits(m: nat)
    ensures SliceStart(m) % FW_WINDOW_SIZE <= FW_WINDOW_SIZE - FW_BLOCK_LEN
  {
    var d, r := m / 4, m % 4;
    assert SliceStart(m) == d * FW_WINDOW_SIZE + r * FW_BLOCK_LEN;
  }

  /** The first step of a plan over at least one full slice. */
  lemma ChunkedFullStep(off: nat, len: nat, pos: nat, respond: nat -> Reply, n: nat)
    requires len >= FW_BLOCK_LEN
    ensures ChunkedSpec(off, len, pos, respond, n)
      == if respond(n).status != 0 then Upload(respond(n).status, pos, [Piece(off, FW_BLOCK_LEN, pos)])
         else Prepend([Piece(off, FW_BLOCK_LEN, pos)],
                      ChunkedSpec(off + FW_BLOCK_LEN, len - FW_BLOCK_LEN, pos + FW_BLOCK_LEN, respond, n + 1))
  {
    ChunkedUnfold(off, len, pos, respond, n);
  }

  /** The last step of a plan: fewer than 2 KiB left, written as one piece. */
  lemma ChunkedLastStep(off: nat, len: nat, pos: nat, respond: nat -> Reply, n: nat)
    requires 0 < len < FW_BLOCK_LEN
    ensures ChunkedSpec(off, len, pos, respond, n)
      == if respond(n).status != 0 then Upload(respond(n).status, pos, [Piece(off, len, pos)])
         else Upload(0, pos + len, [Piece(off, len, pos)])
  {
    ChunkedUnfold(off, len, pos, respond, n);
    ChunkedUnfold(off + len, 0, pos + len, respond, n + 1);
  }

  /**
   * `whole` is `first` followed by `rest`: equal to `first` when that failed,
   * otherwise `first` ended at `at` and its pieces come before those of `rest`.
   */
  ghost predicate SplitHolds(first: Upload, whole: Upload, at: nat, rest: Upload)
  {
    (first.ret != 0 ==> whole == first)
    && (first.ret == 0 ==> first.pos == at && whole == Prepend(first.pieces, rest))
  }

  /** The plan over `m` full slices and `b` more bytes is the plan over the slices followed by the rest. */
  ghost predicate SplitAt(off: nat, m: nat, b: nat, pos: nat, respond: nat -> Reply, n: nat)
  {
    var x := ChunkedSpec(off, SliceStart(m), pos, respond, n);
    SplitHolds(x, ChunkedSpec(off, SliceStart(m) + b, pos, respond, n), pos + SliceStart(m),
               ChunkedSpec(off + SliceStart(m), b, pos + SliceStart(m), respond, n + |x.pieces|))
  }

  /**
   * A plan splits after any number `m` of full slices: the first part, and
   * if that succeeded the rest from where it stopped.
   */
  lemma {:induction false} ChunkedSplit(off: nat, m: nat, b: nat, pos: nat, respond: nat -> Reply, n: nat)
    ensures SplitAt(off, m, b, pos, respond, n)
    decreases m
  {
    if m > 0 {
      assert SliceStart(m) == SliceStart(m - 1) + FW_BLOCK_LEN;
      ChunkedSplit(off + FW_BLOCK_LEN, m - 1, b, pos + FW_BLOCK_LEN, respond, n + 1);
      SplitAfterFirst(off, m, b, pos, respond, n);
    } else {
      var rest := ChunkedSpec(off, b, pos, respond, n);
      ChunkedUnfold(off, 0, pos, respond, n);
      assert Prepend([], rest) == rest;
    }
  }

  /** The induction step of `ChunkedSplit`: a split after the first slice carries over to the whole plan. */
  lemma SplitAfterFirst(off: nat, m: nat, b: nat, pos: nat, respond: nat -> Reply, n: nat)
    requires m > 0 && SliceStart(m) == SliceStart(m - 1) + FW_BLOCK_LEN
    requires SplitAt(off + FW_BLOCK_LEN, m - 1, b, pos + FW_BLOCK_LEN, respond, n + 1)
    ensures SplitAt(off, m, b, pos, respond, n)
  {
    var a := SliceStart(m);
    var a' := SliceStart(m - 1);
    ChunkedFullStep(off, a, pos, respond, n);
    ChunkedFullStep(off, a + b, pos, respond, n);
    var x := ChunkedSpec(off, a, pos, respond, n);
    var whole := ChunkedSpec(off, a + b, pos, respond, n);
    var y := ChunkedSpec(off + FW_BLOCK_LEN, a', pos + FW_BLOCK_LEN, respond, n + 1);
    var tail := ChunkedSpec(off + a, b, pos + a, respond, n + 1 + |y.pieces|);
    if respond(n).status == 0 {
      assert |x.pieces| == 1 + |y.pieces|;
      SplitStep(respond(n).status, pos, Piece(off, FW_BLOCK_LEN, pos), x, whole, y,
                ChunkedSpec(off + FW_BLOCK_LEN, a' + b, pos + FW_BLOCK_LEN, respond, n + 1), pos + a, tail);
      assert SplitHolds(x, whole, pos + a, tail);
    } else {
      assert SplitHolds(x, whole, pos + a, tail);
    }
  }

  /** The induction step of `ChunkedSplit`, on the values alone. */
  lemma SplitStep(st: int, pos: nat, p: Piece, x: Upload, whole: Upload, y: Upload, whole': Upload, at: nat, tail: Upload)
    requires x == if st != 0 then Upload(st, pos, [p]) else Prepend([p], y)
    requires whole == if st != 0 then Upload(st, pos, [p]) else Prepend([p], whole')
    requires SplitHolds(y, whole', at, tail)
    ensures SplitHolds(x, whole, at, tail)
  {
    if st == 0 && y.ret == 0 {
      assert [p] + (y.pieces + tail.pieces) == ([p] + y.pieces) + tail.pieces;
    }
  }

  // ---------------------------------------------------------------------
  // The upload routines

  /** Writing one more piece appends its raw write to the transactions. */
  lemma WritesSnoc(data: seq<u8>, done: seq<Piece>, p: Piece)
    ensures Writes(data, done + [p]) == Writes(data, done) + [Chunk(data, p)]
  {
    WritesAppend(data, done, [p]);
    assert Writes(data, [p]) == [Chunk(data, p)];
  }

  /**
   * An upload in progress: the transactions so far are `start` followed by
   * the writes of the pieces `done`, and the whole plan `whole` is `done`
   * followed by the plan for the `rest` bytes from `cur`, at `wrPos`.
   */
  ghost predicate Progress(data: seq<u8>, whole: Upload, start: seq<Op>, log: seq<Op>, done: seq<Piece>,
                           cur: nat, rest: nat, wrPos: nat, respond: nat -> Reply)
  {
    log == start + Writes(data, done) && whole == Prepend(done, ChunkedSpec(cur, rest, wrPos, respond, |log|))
  }

  /** One full-slice write of an upload in progress, answered by `st`. */
  lemma BlockAdvance(data: seq<u8>, whole: Upload, start: seq<Op>, log: seq<Op>, done: seq<Piece>,
                     cur: nat, rest: nat, wrPos: nat, respond: nat -> Reply, st: int)
    requires Progress(data, whole, start, log, done, cur, rest, wrPos, respond)
    requires rest >= FW_BLOCK_LEN && st == respond(|log|).status
    ensures var p := Piece(cur, FW_BLOCK_LEN, wrPos);
      var log' := log + [Chunk(data, p)];
      if st != 0 then whole == Upload(st, wrPos, done + [p]) && log' == start + Writes(data, done + [p])
      else Progress(data, whole, start, log', done + [p], cur + FW_BLOCK_LEN, rest - FW_BLOCK_LEN, wrPos + FW_BLOCK_LEN, respond)
  {
    var p := Piece(cur, FW_BLOCK_LEN, wrPos);
    var n := |log|;
    ChunkedFullStep(cur, rest, wrPos, respond, n);
    WritesSnoc(data, done, p);
    ConcatAssoc(start, Writes(data, done), [Chunk(data, p)]);
    if st == 0 {
      var next := ChunkedSpec(cur + FW_BLOCK_LEN, rest - FW_BLOCK_LEN, wrPos + FW_BLOCK_LEN, respond, n + 1);
      assert done + ([p] + next.pieces) == (done + [p]) + next.pieces;
    }
  }

  /** The final short write of an upload in progress, answered by `st`. */
  lemma LastAdvance(data: seq<u8>, whole: Upload, start: seq<Op>, log: seq<Op>, done: seq<Piece>,
                    cur: nat, rest: nat, wrPos: nat, respond: nat -> Reply, st: int)
    requires Progress(data, whole, start, log, done, cur, rest, wrPos, respond)
    requires 0 < rest < FW_BLOCK_LEN && st == respond(|log|).status
    ensures var p := Piece(cur, rest, wrPos);
      log + [Chunk(data, p)] == start + Writes(data, done + [p])
      && whole == Upload(st, if st == 0 then wrPos + rest else wrPos, done + [p])
  {
    var p := Piece(cur, rest, wrPos);
    ChunkedLastStep(cur, rest, wrPos, respond, |log|);
    WritesSnoc(data, done, p);
    ConcatAssoc(start, Writes(data, done), [Chunk(data, p)]);
  }

  /** An upload in progress with nothing left to write has succeeded. */
  lemma Finished(data: seq<u8>, whole: Upload, start: seq<Op>, log: seq<Op>, done: seq<Piece>,
                 cur: nat, wrPos: nat, respond: nat -> Reply)
    requires Progress(data, whole, start, log, done, cur, 0, wrPos, respond)
    ensures whole == Upload(0, wrPos, done)
  {
    ChunkedUnfold(cur, 0, wrPos, respond, |log|);
    assert done + [] == done;
  }

  /**
   * `ap1302_write_fw_block`: `len` bytes of `data` from `off` as `len / 2048`
   * full raw writes and then the remainder, if any, each at the window
   * address of the cursor. The first failure is returned at once and leaves
   * the caller's cursor where it was; success advances it by `len`.
   */
  method WriteFwBlock(bus: Bus, data: seq<u8>, off: nat, len: nat, pos: nat) returns (ret: int, pos': nat)
    requires off + len <= |data|
    modifies bus
    ensures var u := ChunkedSpec(off, len, pos, bus.respond, |old(bus.log)|);
      ret == u.ret && bus.log == old(bus.log) + Writes(data, u.pieces)
    ensures pos' == if ret == 0 then pos + len else pos
  {
    var blockNum := len / FW_BLOCK_LEN;
    var lastBlockSize := len % FW_BLOCK_LEN;
    var wrPos := pos;
    var cur := off;
    ghost var rest := len;
    ghost var done: seq<Piece> := [];
    ghost var whole := ChunkedSpec(off, len, pos, bus.respond, |bus.log|);
    assert len == blockNum * FW_BLOCK_LEN + lastBlockSize;
    assert Prepend([], whole) == whole;
    var i := 0;
    while i < blockNum
      invariant 0 <= i <= blockNum
      invariant rest == (blockNum - i) * FW_BLOCK_LEN + lastBlockSize
      invariant cur + rest == off + len && wrPos == pos + (cur - off) && cur >= off
      invariant Progress(data, whole, old(bus.log), bus.log, done, cur, rest, wrPos, bus.respond)
    {
      var piece := Piece(cur, FW_BLOCK_LEN, wrPos);
      ghost var log := bus.log;
      var st, _ := bus.Transfer(Chunk(data, piece));
      BlockAdvance(data, whole, old(bus.log), log, done, cur, rest, wrPos, bus.respond, st);
      done := done + [piece];
      if st != 0 {
        return st, pos;
      }
      cur := cur + FW_BLOCK_LEN;
      wrPos := wrPos + FW_BLOCK_LEN;
      rest := rest - FW_BLOCK_LEN;
      i := i + 1;
    }
    if lastBlockSize > 0 {
      var piece := Piece(cur, lastBlockSize, wrPos);
      ghost var log := bus.log;
      var st, _ := bus.Transfer(Chunk(data, piece));
      LastAdvance(data, whole, old(bus.log), log, done, cur, rest, wrPos, bus.respond, st);
      done := done + [piece];
      if st != 0 {
        return st, pos;
      }
      wrPos := wrPos + lastBlockSize;
    } else {
      Finished(data, whole, old(bus.log), bus.log, done, cur, wrPos, bus.respond);
    }
    return 0, wrPos;
  }

  /** A plan over at least 8 KiB is the plan for its first 8 KiB followed by the plan for the rest. */
  lemma SplitWindow(cur: nat, rest: nat, wrPos: nat, respond: nat -> Reply, n: nat)
    requires rest >= FW_WINDOW_SIZE
    ensures SplitHolds(ChunkedSpec(cur, FW_WINDOW_SIZE, wrPos, respond, n), ChunkedSpec(cur, rest, wrPos, respond, n),
                       wrPos + FW_WINDOW_SIZE,
                       ChunkedSpec(cur + FW_WINDOW_SIZE, rest - FW_WINDOW_SIZE, wrPos + FW_WINDOW_SIZE, respond,
                                   n + |ChunkedSpec(cur, FW_WINDOW_SIZE, wrPos, respond, n).pieces|))
  {
    ChunkedSplit(cur, 4, rest - FW_WINDOW_SIZE, wrPos, respond, n);
    assert SliceStart(4) == FW_WINDOW_SIZE;
  }

  /** Writing the first part `x` of the remaining plan `plan` of an upload in progress. */
  lemma AdvanceBy(data: seq<u8>, whole: Upload, start: seq<Op>, log: seq<Op>, done: seq<Piece>,
                  x: Upload, plan: Upload, at: nat, next: Upload)
    requires log == start + Writes(data, done) && whole == Prepend(done, plan)
    requires SplitHolds(x, plan, at, next)
    ensures log + Writes(data, x.pieces) == start + Writes(data, done + x.pieces)
    ensures x.ret != 0 ==> whole == Upload(x.ret, x.pos, done + x.pieces)
    ensures x.ret == 0 ==> x.pos == at && whole == Prepend(done + x.pieces, next)
  {
    WritesAppend(data, done, x.pieces);
    ConcatAssoc(start, Writes(data, done), Writes(data, x.pieces));
    if x.ret == 0 {
      assert done + (x.pieces + next.pieces) == (done + x.pieces) + next.pieces;
    }
  }

  /** One 8 KiB block of an upload in progress, written as a plan of its own. */
  lemma WindowAdvance(data: seq<u8>, whole: Upload, start: seq<Op>, log: seq<Op>, done: seq<Piece>,
                      cur: nat, rest: nat, wrPos: nat, respond: nat -> Reply)
    requires Progress(data, whole, start, log, done, cur, rest, wrPos, respond) && rest >= FW_WINDOW_SIZE
    ensures var x := ChunkedSpec(cur, FW_WINDOW_SIZE, wrPos, respond, |log|);
      var log' := log + Writes(data, x.pieces);
      if x.ret != 0 then whole == Upload(x.ret, x.pos, done + x.pieces) && log' == start + Writes(data, done + x.pieces)
      else Progress(data, whole, start, log', done + x.pieces, cur + FW_WINDOW_SIZE, rest - FW_WINDOW_SIZE,
                    wrPos + FW_WINDOW_SIZE, respond)
  {
    var n := |log|;
    SplitWindow(cur, rest, wrPos, respond, n);
    var x := ChunkedSpec(cur, FW_WINDOW_SIZE, wrPos, respond, n);
    var next := ChunkedSpec(cur + FW_WINDOW_SIZE, rest - FW_WINDOW_SIZE, wrPos + FW_WINDOW_SIZE, respond, n + |x.pieces|);
    AdvanceBy(data, whole, start, log, done, x, ChunkedSpec(cur, rest, wrPos, respond, n), wrPos + FW_WINDOW_SIZE, next);
  }

  /** The rest of an upload in progress, written as a plan of its own, completes it. */
  lemma WindowLast(data: seq<u8>, whole: Upload, start: seq<Op>, log: seq<Op>, done: seq<Piece>,
                   cur: nat, rest: nat, wrPos: nat, respond: nat -> Reply)
    requires Progress(data, whole, start, log, done, cur, rest, wrPos, respond)
    ensures var x := ChunkedSpec(cur, rest, wrPos, respond, |log|);
      whole == Upload(x.ret, x.pos, done + x.pieces) && log + Writes(data, x.pieces) == start + Writes(data, done + x.pieces)
  {
    var x := ChunkedSpec(cur, rest, wrPos, respond, |log|);
    WritesAppend(data, done, x.pieces);
    ConcatAssoc(start, Writes(data, done), Writes(data, x.pieces));
  }

  /**
   * `ap1302_write_fw_window`: `len` bytes as `len / 8192` calls of
   * `WriteFwBlock` with 8 KiB each and one with the remainder, if any,
   * stopping at the first failure. Together they issue exactly the writes
   * of the plan for the whole range; on success the cursor has advanced by
   * `len`.
   */
  method WriteFwWindow(bus: Bus, data: seq<u8>, off: nat, len: nat, pos: nat) returns (ret: int, pos': nat)
    requires off + len <= |data| && len > 0
    modifies bus
    ensures var u := ChunkedSpec(off, len, pos, bus.respond, |old(bus.log)|);
      ret == u.ret && bus.log == old(bus.log) + Writes(data, u.pieces)
    ensures ret == 0 ==> pos' == pos + len
  {
    var blockNum := len / FW_WINDOW_SIZE;
    var lastBlockSize := len % FW_WINDOW_SIZE;
    var winPos := pos;
    var cur := off;
    ghost var rest := len;
    ghost var done: seq<Piece> := [];
    ghost var whole := ChunkedSpec(off, len, pos, bus.respond, |bus.log|);
    assert len == blockNum * FW_WINDOW_SIZE + lastBlockSize;
    assert Prepend([], whole) == whole;
    ret := 0;
    var i := 0;
    while i < blockNum
      invariant 0 <= i <= blockNum
      invariant rest == (blockNum - i) * FW_WINDOW_SIZE + lastBlockSize
      invariant cur + rest == off + len && winPos == pos + (cur - off) && cur >= off
      invariant ret == 0
      invariant Progress(data, whole, old(bus.log), bus.log, done, cur, rest, winPos, bus.respond)
    {
      ghost var log := bus.log;
      ghost var x := ChunkedSpec(cur, FW_WINDOW_SIZE, winPos, bus.respond, |log|);
      assert rest - FW_WINDOW_SIZE == (blockNum - (i + 1)) * FW_WINDOW_SIZE + lastBlockSize;
      WindowAdvance(data, whole, old(bus.log), log, done, cur, rest, winPos, bus.respond);
      ret, winPos := WriteFwBlock(bus, data, cur, FW_WINDOW_SIZE, winPos);
      done := done + x.pieces;
      if ret != 0 {
        return ret, winPos;
      }
      assert Progress(data, whole, old(bus.log), bus.log, done, cur + FW_WINDOW_SIZE, rest - FW_WINDOW_SIZE, winPos, bus.respond);
      cur := cur + FW_WINDOW_SIZE;
      rest := rest - FW_WINDOW_SIZE;
      i := i + 1;
    }
    assert rest == lastBlockSize;
    if lastBlockSize > 0 {
      ghost var log := bus.log;
      ghost var x := ChunkedSpec(cur, lastBlockSize, winPos, bus.respond, |log|);
      WindowLast(data, whole, old(bus.log), log, done, cur, rest, winPos, bus.respond);
      ret, winPos := WriteFwBlock(bus, data, cur, lastBlockSize, winPos);
      assert ret == x.ret && bus.log == log + Writes(data, x.pieces);
    } else {
      Finished(data, whole, old(bus.log), bus.log, done, cur, winPos, bus.respond);
    }
    return ret, winPos;
  }
}
