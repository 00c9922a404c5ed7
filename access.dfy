/**
 * The register access layer: `__ap1302_write` / `__ap1302_read` pick the
 * 16-bit or 32-bit channel from the size byte of a register reference;
 * `ap1302_write` / `ap1302_read` add a one-entry page cache (`reg_page`)
 * and, for writes, an optional "first error wins" accumulator cell.
 *
 * Each operation is specified by a pure function of the cached page, the
 * arguments, the bus oracle and the number of transactions already issued;
 * the class methods below perform the same steps on the bus and are
 * proved equal to those functions.
 */
module Access {
  import opened Registers
  import opened Transport
  import opened Wrappers

  /** The outcome of one register access: return code, cached page afterwards, transactions issued, value read. */
  datatype Access = Access(ret: int, page: u32, ops: seq<Op>, val: u32)

  /** The outcome of page resolution: return code, cached page, transactions issued, reference to transfer. */
  datatype Selection = Selection(ret: int, page: u32, ops: seq<Op>, target: RegRef)

  /** One entry of a register script (`struct reg_value`). */
  datatype RegValue = RegValue(reg: RegRef, val: u32, mask: u32, delayMs: u32)

  /** One write of a chained sequence of writes. */
  datatype RegWrite = RegWrite(reg: RegRef, val: u32)

  // ---------------------------------------------------------------------
  // Specification functions

  /** `__ap1302_write`: one write on the channel the size byte selects, or -EINVAL and nothing. */
  function DispatchWriteSpec(ref: RegRef, val: u32, respond: nat -> Reply, n: nat): (a: Access)
  {
    if ref.size == 2 then Access(respond(n).status, 0, [Write(W16, ref.addr, val)], 0)
    else if ref.size == 4 then Access(respond(n).status, 0, [Write(W32, ref.addr, val)], 0)
    else Access(-EINVAL, 0, [], 0)
  }

  /** `__ap1302_read`: one read on the channel the size byte selects, or -EINVAL and nothing. */
  function DispatchReadSpec(ref: RegRef, respond: nat -> Reply, n: nat): (a: Access)
  {
    if ref.size == 2 then Access(respond(n).status, 0, [Read(W16, ref.addr)], respond(n).data % 0x1_0000)
    else if ref.size == 4 then Access(respond(n).status, 0, [Read(W32, ref.addr)], respond(n).data)
    else Access(-EINVAL, 0, [], 0)
  }

  /** The page-select transaction for a page value. */
  function PageSelect(pg: u32): Op { Write(W32, ADVANCED_BASE.addr, pg) }

  /**
   * Page resolution shared by reads and writes: for a paged reference whose
   * page differs from the cached one, write the page to the page-select
   * register and update the cache only if that succeeded. `target` is
   * the reference the data transfer must use.
   */
  function SelectSpec(page: u32, ref: RegRef, respond: nat -> Reply, n: nat): (s: Selection)
  {
    var pg := RegPage(ref);
    if pg == 0 then Selection(0, page, [], ref)
    else if page == pg then Selection(0, page, [], Relocate(ref))
    else
      var sel := DispatchWriteSpec(ADVANCED_BASE, pg, respond, n);
      if sel.ret < 0 then Selection(sel.ret, page, sel.ops, ref)
      else Selection(0, pg, sel.ops, Relocate(ref))
  }

  /** `ap1302_write`, with `err` the accumulator cell (None for NULL). */
  function WriteSpec(page: u32, ref: RegRef, val: u32, err: Option<int>, respond: nat -> Reply, n: nat): (a: Access)
  {
    WriteLayer(FoldDepth(n), page, ref, val, err, respond, n)
  }

  /**
   * The definition of `WriteSpec`, reached through `k` layers of
   * indirection. `WriteSpec` enters it with a layer count the verifier does
   * not evaluate on its own, so proofs about callers work with the lemmas
   * below, and only `WriteUnfold` exposes the page selection.
   */
  function WriteLayer(k: nat, page: u32, ref: RegRef, val: u32, err: Option<int>, respond: nat -> Reply, n: nat): (a: Access)
    decreases k
  {
    if k > 0 then WriteLayer(k - 1, page, ref, val, err, respond, n)
    else if err.Some? && err.value != 0 then Access(err.value, page, [], 0)
    else
      var s := SelectSpec(page, ref, respond, n);
      if s.ret != 0 then Access(s.ret, s.page, s.ops, 0)
      else
        var w := DispatchWriteSpec(s.target, val, respond, n + |s.ops|);
        Access(w.ret, s.page, s.ops + w.ops, 0)
  }

  /** `WriteSpec` is the page selection followed by the data write. */
  lemma WriteUnfold(page: u32, ref: RegRef, val: u32, err: Option<int>, respond: nat -> Reply, n: nat)
    ensures WriteSpec(page, ref, val, err, respond, n) == WriteLayer(0, page, ref, val, err, respond, n)
  {
    assert FoldDepth(n) == 2;
  }

  /** `ap1302_read`. */
  function ReadSpec(page: u32, ref: RegRef, respond: nat -> Reply, n: nat): (a: Access)
  {
    ReadLayer(FoldDepth(n), page, ref, respond, n)
  }

  /** The definition of `ReadSpec`, behind `k` layers as for `WriteLayer`. */
  function ReadLayer(k: nat, page: u32, ref: RegRef, respond: nat -> Reply, n: nat): (a: Access)
    decreases k
  {
    if k > 0 then ReadLayer(k - 1, page, ref, respond, n)
    else
      var s := SelectSpec(page, ref, respond, n);
      if s.ret != 0 then Access(s.ret, s.page, s.ops, 0)
      else
        var r := DispatchReadSpec(s.target, respond, n + |s.ops|);
        Access(r.ret, s.page, s.ops + r.ops, r.val)
  }

  /** `ReadSpec` is the page selection followed by the data read. */
  lemma ReadUnfold(page: u32, ref: RegRef, respond: nat -> Reply, n: nat)
    ensures ReadSpec(page, ref, respond, n) == ReadLayer(0, page, ref, respond, n)
  {
    assert FoldDepth(n) == 2;
  }

  /**
   * Keeps the layered definitions from unfolding in their callers' proofs.
   * It is two, written as the length of a two-element sequence so that the
   * verifier does not evaluate it as a literal: the number of layers
   * behind which `WriteSpec`, `ReadSpec` and the upload and load-loop
   * definitions keep their bodies, reached through their unfolding lemmas.
   */
  function FoldDepth(n: nat): nat
  {
    |[n, n]|
  }

  /** The accumulator cell after a write returned `ret`: a failure is stored, success leaves it alone. */
  function Accumulate(err: Option<int>, ret: int): Option<int>
  {
    if err.Some? && ret != 0 then Some(ret) else err
  }

  /** What a cell holding `err` holds after a write returned `ret`. */
  function Kept(err: int, ret: int): int
  {
    if ret != 0 then ret else err
  }

  /** `c` preceded by the transactions `ops`. */
  function After(ops: seq<Op>, c: Access): Access
  {
    c.(ops := ops + c.ops)
  }

  lemma ConcatAssoc(s1: seq<Op>, s2: seq<Op>, s3: seq<Op>)
    ensures s1 + (s2 + s3) == s1 + s2 + s3
  {
  }

  lemma AfterAfter(ops1: seq<Op>, ops2: seq<Op>, c: Access)
    ensures After(ops1, After(ops2, c)) == After(ops1 + ops2, c)
  {
    assert ops1 + (ops2 + c.ops) == (ops1 + ops2) + c.ops;
  }

  /**
   * A run of writes sharing one accumulator cell that holds `err`; the
   * result's `ret` is the cell's final value, which is what the callers
   * return.
   */
  function ChainSpec(page: u32, writes: seq<RegWrite>, err: int, respond: nat -> Reply, n: nat): (c: Access)
    decreases |writes|
  {
    if writes == [] then Access(err, page, [], 0)
    else
      var a := WriteSpec(page, writes[0].reg, writes[0].val, Some(err), respond, n);
      After(a.ops, ChainSpec(a.page, writes[1..], Kept(err, a.ret), respond, n + |a.ops|))
  }

  /**
   * `ap1302_load_regs` from entry `k` of the script on: the writes in order
   * (no accumulator), stopping at the first failure.
   */
  function ScriptSpec(page: u32, script: seq<RegValue>, k: nat, respond: nat -> Reply, n: nat): (c: Access)
    decreases |script| - k
  {
    if k >= |script| then Access(0, page, [], 0)
    else
      var a := WriteSpec(page, script[k].reg, script[k].val, None, respond, n);
      if a.ret != 0 then Access(a.ret, a.page, a.ops, 0)
      else After(a.ops, ScriptSpec(a.page, script, k + 1, respond, n + |a.ops|))
  }

  /** Every one of `count` transactions from position `n` on succeeded. */
  ghost predicate AllSucceed(respond: nat -> Reply, n: nat, count: nat)
    decreases count
  {
    count == 0 || (respond(n).status == 0 && AllSucceed(respond, n + 1, count - 1))
  }

  // ---------------------------------------------------------------------
  // Properties

  /**
   * Transfers that all succeeded followed by a partial run of `tail` whose
   * outcome is known: the whole is a prefix of `head + tail`, and it
   * succeeded exactly when it is all of it and every transfer did.
   */
  lemma SucceededPrefix(head: seq<Op>, tail: seq<Op>, ops: seq<Op>, ret: int, respond: nat -> Reply, n: nat)
    requires AllSucceed(respond, n, |head|)
    requires |ops| <= |tail| && ops == tail[..|ops|]
    requires ret == 0 <==> ops == tail && AllSucceed(respond, n + |head|, |tail|)
    ensures |head + ops| <= |head + tail| && head + ops == (head + tail)[..|head + ops|]
    ensures ret == 0 <==> head + ops == head + tail && AllSucceed(respond, n, |head + ops|)
  {
    AllSucceedSplit(respond, n, |head|, |ops|);
    assert head + ops == head + tail <==> ops == tail by {
      if head + ops == head + tail {
        assert ops == (head + ops)[|head|..];
      }
    }
  }

  lemma {:induction false} AllSucceedSplit(respond: nat -> Reply, n: nat, k1: nat, k2: nat)
    ensures AllSucceed(respond, n, k1 + k2) <==> AllSucceed(respond, n, k1) && AllSucceed(respond, n + k1, k2)
    decreases k1
  {
    if k1 > 0 {
      AllSucceedSplit(respond, n + 1, k1 - 1, k2);
    }
  }

  /** A reference whose size byte is neither 2 nor 4 is refused with -EINVAL before any transaction. */
  lemma InvalidSizeIssuesNothing(ref: RegRef, val: u32, respond: nat -> Reply, n: nat)
    requires ref.size != 2 && ref.size != 4
    ensures DispatchWriteSpec(ref, val, respond, n).ret == -EINVAL
    ensures DispatchWriteSpec(ref, val, respond, n).ops == []
    ensures DispatchReadSpec(ref, respond, n).ret == -EINVAL
    ensures DispatchReadSpec(ref, respond, n).ops == []
  {
  }

  /**
   * Through the paged layer, a bad size byte still costs the page switch
   * (which, if it succeeds, updates the cache) but never a data transfer.
   */
  lemma InvalidSizeThroughPageCache(page: u32, ref: RegRef, val: u32, respond: nat -> Reply, n: nat)
    requires ref.size != 2 && ref.size != 4
    ensures var a := WriteSpec(page, ref, val, None, respond, n);
      a.ret < 0 && (forall i :: 0 <= i < |a.ops| ==> a.ops[i] == PageSelect(RegPage(ref)))
    ensures var a := ReadSpec(page, ref, respond, n);
      a.ret < 0 && (forall i :: 0 <= i < |a.ops| ==> a.ops[i] == PageSelect(RegPage(ref)))
  {
    WriteUnfold(page, ref, val, None, respond, n);
  }

  /**
   * A write returns 0 exactly when the size byte is valid and every
   * transaction it issued succeeded. It issues at most two transactions,
   * only the last of which can have failed, and never returns a positive
   * value.
   */
  lemma WriteSucceedsIffAllTransfersDo(page: u32, ref: RegRef, val: u32, respond: nat -> Reply, n: nat)
    ensures var a := WriteSpec(page, ref, val, None, respond, n);
      |a.ops| <= 2 && -0x8000_0000 <= a.ret <= 0
      && (a.ret == 0 <==> ValidSize(ref) && AllSucceed(respond, n, |a.ops|))
      && (|a.ops| > 0 ==> AllSucceed(respond, n, |a.ops| - 1))
  {
    WriteUnfold(page, ref, val, None, respond, n);
  }

  /**
   * How an access that failed reports it: every transaction but the last
   * succeeded, and the code is -EINVAL after only successes (a size byte
   * that could not be dispatched) or the status of the last transaction.
   */
  ghost predicate FailedAsLast(c: Access, respond: nat -> Reply, n: nat)
  {
    c.ret != 0 ==>
      (|c.ops| > 0 ==> AllSucceed(respond, n, |c.ops| - 1))
      && ((c.ret == -EINVAL && AllSucceed(respond, n, |c.ops|))
          || (|c.ops| > 0 && c.ret == respond(n + |c.ops| - 1).status))
  }

  /**
   * A failed write reports either -EINVAL, for a size byte it could not
   * dispatch after every transaction it issued succeeded, or the status of
   * its last transaction, after only successes.
   */
  lemma WriteFailureCode(page: u32, ref: RegRef, val: u32, respond: nat -> Reply, n: nat)
    ensures FailedAsLast(WriteSpec(page, ref, val, None, respond, n), respond, n)
  {
    WriteUnfold(page, ref, val, None, respond, n);
  }

  /** The same for a read. */
  lemma ReadSucceedsIffAllTransfersDo(page: u32, ref: RegRef, respond: nat -> Reply, n: nat)
    ensures var a := ReadSpec(page, ref, respond, n);
      |a.ops| <= 2 && -0x8000_0000 <= a.ret <= 0
      && (a.ret == 0 <==> ValidSize(ref) && AllSucceed(respond, n, |a.ops|))
      && (|a.ops| > 0 ==> AllSucceed(respond, n, |a.ops| - 1))
  {
  }

  /** An unpaged reference goes straight to its own offset and leaves the cache alone. */
  lemma UnpagedAccess(page: u32, ref: RegRef, val: u32, respond: nat -> Reply, n: nat)
    requires RegPage(ref) == 0 && ValidSize(ref)
    ensures var a := WriteSpec(page, ref, val, None, respond, n);
      a.page == page && a.ret == respond(n).status
      && a.ops == [Write(if ref.size == 2 then W16 else W32, ref.addr, val)]
  {
    WriteUnfold(page, ref, val, None, respond, n);
  }

  /** Cache hit: the page is already selected, so no page-select is issued and the cache stays. */
  lemma PageCacheHit(page: u32, ref: RegRef, val: u32, respond: nat -> Reply, n: nat)
    requires RegPage(ref) != 0 && RegPage(ref) == page
    ensures var a := WriteSpec(page, ref, val, None, respond, n);
      a.page == page && |a.ops| <= 1
    ensures var a := ReadSpec(page, ref, respond, n);
      a.page == page && |a.ops| <= 1
  {
    WriteUnfold(page, ref, val, None, respond, n);
  }

  /**
   * Cache miss: the first transaction writes the page to the page-select
   * register; the cache takes the new page exactly when that write
   * succeeded, and a failed page-select ends the access with its error.
   */
  lemma PageCacheMiss(page: u32, ref: RegRef, val: u32, respond: nat -> Reply, n: nat)
    requires RegPage(ref) != 0 && RegPage(ref) != page
    ensures var a := WriteSpec(page, ref, val, None, respond, n);
      |a.ops| >= 1 && a.ops[0] == PageSelect(RegPage(ref))
      && a.page == (if respond(n).status == 0 then RegPage(ref) else page)
      && (respond(n).status != 0 ==> a.ret == respond(n).status && |a.ops| == 1)
    ensures var a := ReadSpec(page, ref, respond, n);
      |a.ops| >= 1 && a.ops[0] == PageSelect(RegPage(ref))
      && a.page == (if respond(n).status == 0 then RegPage(ref) else page)
      && (respond(n).status != 0 ==> a.ret == respond(n).status && |a.ops| == 1)
  {
    WriteUnfold(page, ref, val, None, respond, n);
  }

  /** The data transfer of a paged access targets the offset moved into the advanced window. */
  lemma PagedTarget(page: u32, ref: RegRef, val: u32, respond: nat -> Reply, n: nat)
    requires RegPage(ref) != 0 && ValidSize(ref)
    ensures var a := WriteSpec(page, ref, val, None, respond, n);
      var w := if ref.size == 2 then W16 else W32;
      a.ret == 0 ==> |a.ops| > 0 && a.ops[|a.ops| - 1] == Write(w, (ref.addr + 0xE000) % 0x1_0000, val)
    ensures var a := ReadSpec(page, ref, respond, n);
      var w := if ref.size == 2 then W16 else W32;
      a.ret == 0 ==> |a.ops| > 0 && a.ops[|a.ops| - 1] == Read(w, (ref.addr + 0xE000) % 0x1_0000)
  {
    WriteUnfold(page, ref, val, None, respond, n);
  }

  /**
   * A paged write in full: a page-select unless the page is cached, then
   * the data write at the relocated offset, stopping at the first failing
   * transaction; it returns 0 exactly when both were issued and succeeded,
   * and then the cache holds the page.
   */
  /** The transfers a write to a paged register makes when nothing fails: the page select when the cache misses, then the write in the window. */
  function PagedWriteOps(page: u32, ref: RegRef, val: u32): seq<Op>
  {
    (if page == RegPage(ref) then [] else [PageSelect(RegPage(ref))])
    + [Write(if ref.size == 2 then W16 else W32, (ref.addr + 0xE000) % 0x1_0000, val)]
  }

  lemma PagedWriteOutcome(page: u32, ref: RegRef, val: u32, respond: nat -> Reply, n: nat)
    requires RegPage(ref) != 0 && ValidSize(ref)
    ensures var a := WriteSpec(page, ref, val, None, respond, n);
      var full := PagedWriteOps(page, ref, val);
      1 <= |a.ops| <= |full| && a.ops == full[..|a.ops|]
      && (a.ret == 0 <==> a.ops == full && AllSucceed(respond, n, |full|))
      && (a.ret == 0 ==> a.page == RegPage(ref))
      && (a.ret != 0 ==> a.ret < 0)
  {
    WriteSucceedsIffAllTransfersDo(page, ref, val, respond, n);
    PagedTarget(page, ref, val, respond, n);
    SuccessCachesPage(page, ref, val, respond, n);
    if page == RegPage(ref) {
      PageCacheHit(page, ref, val, respond, n);
    } else {
      PageCacheMiss(page, ref, val, respond, n);
    }
  }

  /** After a successful paged access, the cache holds that access's page. */
  lemma SuccessCachesPage(page: u32, ref: RegRef, val: u32, respond: nat -> Reply, n: nat)
    requires RegPage(ref) != 0
    ensures WriteSpec(page, ref, val, None, respond, n).ret == 0 ==>
      WriteSpec(page, ref, val, None, respond, n).page == RegPage(ref)
    ensures ReadSpec(page, ref, respond, n).ret == 0 ==> ReadSpec(page, ref, respond, n).page == RegPage(ref)
  {
    WriteUnfold(page, ref, val, None, respond, n);
  }

  /**
   * Two accesses in a row to references on the same page: when the first
   * succeeds, the second issues no page-select, so the pair costs a single
   * page switch at most.
   */
  lemma BackToBackSamePage(page: u32, ref1: RegRef, val1: u32, ref2: RegRef, val2: u32, respond: nat -> Reply, n: nat)
    requires RegPage(ref1) != 0 && RegPage(ref1) == RegPage(ref2)
    requires WriteSpec(page, ref1, val1, None, respond, n).ret == 0
    ensures var a := WriteSpec(page, ref1, val1, None, respond, n);
      var b := WriteSpec(a.page, ref2, val2, None, respond, n + |a.ops|);
      b.page == RegPage(ref2) && |b.ops| <= 1
  {
    SuccessCachesPage(page, ref1, val1, respond, n);
    var a := WriteSpec(page, ref1, val1, None, respond, n);
    PageCacheHit(a.page, ref2, val2, respond, n + |a.ops|);
  }

  /** A cell that already holds an error makes the write return it at once: no transaction, cache untouched. */
  lemma AccumulatorShortCircuits(page: u32, ref: RegRef, val: u32, e: int, respond: nat -> Reply, n: nat)
    requires e != 0
    ensures var a := WriteSpec(page, ref, val, Some(e), respond, n);
      a.ret == e && a.ops == [] && a.page == page && Kept(e, a.ret) == e
  {
    WriteUnfold(page, ref, val, Some(e), respond, n);
  }

  /** With a clean cell, the write behaves as without one, and its failure is stored in the cell. */
  lemma AccumulatorRecordsFailure(page: u32, ref: RegRef, val: u32, respond: nat -> Reply, n: nat)
    ensures var a := WriteSpec(page, ref, val, Some(0), respond, n);
      a == WriteSpec(page, ref, val, None, respond, n)
      && Kept(0, a.ret) == a.ret
  {
    WriteUnfold(page, ref, val, Some(0), respond, n);
    WriteUnfold(page, ref, val, None, respond, n);
  }

  /** Once the cell holds an error, the rest of a chain issues nothing and returns that error. */
  lemma {:induction false} ChainAfterFailure(page: u32, writes: seq<RegWrite>, e: int, respond: nat -> Reply, n: nat)
    requires e != 0
    ensures ChainSpec(page, writes, e, respond, n) == Access(e, page, [], 0)
    decreases |writes|
  {
    if writes != [] {
      AccumulatorShortCircuits(page, writes[0].reg, writes[0].val, e, respond, n);
      ChainAfterFailure(page, writes[1..], e, respond, n);
    }
  }

  /**
   * A chain with a clean cell returns the error of its first failing write
   * and issues nothing after that write: it equals the prefix of writes up
   * to the failure.
   */
  lemma {:induction false} ChainFirstFailureWins(page: u32, writes: seq<RegWrite>, respond: nat -> Reply, n: nat)
    requires writes != []
    ensures var a := WriteSpec(page, writes[0].reg, writes[0].val, Some(0), respond, n);
      a.ret != 0 ==> ChainSpec(page, writes, 0, respond, n) == Access(a.ret, a.page, a.ops, 0)
    ensures var a := WriteSpec(page, writes[0].reg, writes[0].val, Some(0), respond, n);
      a.ret == 0 ==> ChainSpec(page, writes, 0, respond, n) == After(a.ops, ChainSpec(a.page, writes[1..], 0, respond, n + |a.ops|))
  {
    var a := WriteSpec(page, writes[0].reg, writes[0].val, Some(0), respond, n);
    if a.ret != 0 {
      ChainAfterFailure(a.page, writes[1..], a.ret, respond, n + |a.ops|);
    }
  }

  /** A chain of one write: that write, with the cell it leaves as the result. */
  lemma ChainOfOne(page: u32, w0: RegWrite, e: int, respond: nat -> Reply, n: nat)
    ensures var a0 := WriteSpec(page, w0.reg, w0.val, Some(e), respond, n);
      ChainSpec(page, [w0], e, respond, n) == Access(Kept(e, a0.ret), a0.page, a0.ops, 0)
  {
    var a0 := WriteSpec(page, w0.reg, w0.val, Some(e), respond, n);
    assert [w0][1..] == [];
    ChainCons(page, [w0], e, respond, n);
    assert a0.ops + [] == a0.ops;
  }

  /** A chain of two writes: the first, then the second from where the first left the page, cell and position. */
  lemma ChainOfTwo(page: u32, ws: seq<RegWrite>, e: int, respond: nat -> Reply, n: nat)
    requires |ws| == 2
    ensures var a0 := WriteSpec(page, ws[0].reg, ws[0].val, Some(e), respond, n);
      var a1 := WriteSpec(a0.page, ws[1].reg, ws[1].val, Some(Kept(e, a0.ret)), respond, n + |a0.ops|);
      ChainSpec(page, ws, e, respond, n) == Access(Kept(Kept(e, a0.ret), a1.ret), a1.page, a0.ops + a1.ops, 0)
  {
    var a0 := WriteSpec(page, ws[0].reg, ws[0].val, Some(e), respond, n);
    ChainCons(page, ws, e, respond, n);
    ChainOfOne(a0.page, ws[1], Kept(e, a0.ret), respond, n + |a0.ops|);
    assert ws[1..] == [ws[1]];
  }

  /** A chain of three writes, each from where the previous one left the page, cell and position. */
  lemma ChainOfThree(page: u32, ws: seq<RegWrite>, e: int, respond: nat -> Reply, n: nat)
    requires |ws| == 3
    ensures var a0 := WriteSpec(page, ws[0].reg, ws[0].val, Some(e), respond, n);
      var a1 := WriteSpec(a0.page, ws[1].reg, ws[1].val, Some(Kept(e, a0.ret)), respond, n + |a0.ops|);
      var a2 := WriteSpec(a1.page, ws[2].reg, ws[2].val, Some(Kept(Kept(e, a0.ret), a1.ret)), respond, n + |a0.ops| + |a1.ops|);
      ChainSpec(page, ws, e, respond, n)
        == Access(Kept(Kept(Kept(e, a0.ret), a1.ret), a2.ret), a2.page, a0.ops + a1.ops + a2.ops, 0)
  {
    var a0 := WriteSpec(page, ws[0].reg, ws[0].val, Some(e), respond, n);
    var a1 := WriteSpec(a0.page, ws[1].reg, ws[1].val, Some(Kept(e, a0.ret)), respond, n + |a0.ops|);
    var a2 := WriteSpec(a1.page, ws[2].reg, ws[2].val, Some(Kept(Kept(e, a0.ret), a1.ret)), respond, n + |a0.ops| + |a1.ops|);
    ConcatAssoc(a0.ops, a1.ops, a2.ops);
    ChainCons(page, ws, e, respond, n);
    ChainOfTwo(a0.page, ws[1..], Kept(e, a0.ret), respond, n + |a0.ops|);
  }

  /** A non-empty chain: its first write, then the rest from where that write left the page, cell and position. */
  lemma ChainCons(page: u32, writes: seq<RegWrite>, e: int, respond: nat -> Reply, n: nat)
    requires writes != []
    ensures var a := WriteSpec(page, writes[0].reg, writes[0].val, Some(e), respond, n);
      ChainSpec(page, writes, e, respond, n)
        == After(a.ops, ChainSpec(a.page, writes[1..], Kept(e, a.ret), respond, n + |a.ops|))
  {
  }

  /** A chain that started clean returns 0 exactly when every write of it returned 0. */
  lemma {:induction false} ChainSucceedsIffEveryWrite(page: u32, writes: seq<RegWrite>, respond: nat -> Reply, n: nat)
    ensures ChainSpec(page, writes, 0, respond, n).ret <= 0
    ensures ChainSpec(page, writes, 0, respond, n).ret == 0 <==>
      AllSucceed(respond, n, |ChainSpec(page, writes, 0, respond, n).ops|) && AllSized(writes)
    decreases |writes|
  {
    if writes != [] {
      var a := WriteSpec(page, writes[0].reg, writes[0].val, Some(0), respond, n);
      AccumulatorRecordsFailure(page, writes[0].reg, writes[0].val, respond, n);
      WriteSucceedsIffAllTransfersDo(page, writes[0].reg, writes[0].val, respond, n);
      ChainCons(page, writes, 0, respond, n);
      AllSizedCons(writes);
      if a.ret != 0 {
        ChainAfterFailure(a.page, writes[1..], a.ret, respond, n + |a.ops|);
      } else {
        ChainSucceedsIffEveryWrite(a.page, writes[1..], respond, n + |a.ops|);
        var rest := ChainSpec(a.page, writes[1..], 0, respond, n + |a.ops|);
        AllSucceedSplit(respond, n, |a.ops|, |rest.ops|);
      }
    }
  }

  /** Every write of the run names a register with a valid size byte. */
  ghost predicate AllSized(writes: seq<RegWrite>)
  {
    forall i :: 0 <= i < |writes| ==> ValidSize(writes[i].reg)
  }

  lemma AllSizedCons(writes: seq<RegWrite>)
    requires writes != []
    ensures AllSized(writes) <==> ValidSize(writes[0].reg) && AllSized(writes[1..])
  {
    assert forall i :: 0 < i < |writes| ==> writes[i] == writes[1..][i - 1];
  }

  /** Every write of the run targets a 16-bit register outside any page. */
  ghost predicate Unpaged16(writes: seq<RegWrite>)
  {
    forall i :: 0 <= i < |writes| ==> writes[i].reg.size == 2 && RegPage(writes[i].reg) == 0
  }

  /** The transactions a run of unpaged 16-bit writes would issue if none failed. */
  function Plain16(writes: seq<RegWrite>): (ops: seq<Op>)
    ensures |ops| == |writes|
  {
    if writes == [] then [] else [Write(W16, writes[0].reg.addr, writes[0].val)] + Plain16(writes[1..])
  }

  /**
   * A clean chain of unpaged 16-bit writes leaves the page cache alone and
   * issues its writes in order, up to and including the first one that
   * fails; it returns 0 exactly when all were issued and all succeeded,
   * and otherwise the status of the one that failed.
   */
  lemma {:induction false} UnpagedChain(page: u32, writes: seq<RegWrite>, respond: nat -> Reply, n: nat)
    requires Unpaged16(writes)
    ensures var c := ChainSpec(page, writes, 0, respond, n);
      c.page == page && |c.ops| <= |writes| && c.ops == Plain16(writes)[..|c.ops|]
      && (c.ret == 0 <==> |c.ops| == |writes| && AllSucceed(respond, n, |writes|))
      && (c.ret != 0 ==> |c.ops| > 0 && c.ret == respond(n + |c.ops| - 1).status && AllSucceed(respond, n, |c.ops| - 1))
    decreases |writes|
  {
    if writes != [] {
      var w := writes[0];
      var c := ChainSpec(page, writes, 0, respond, n);
      var a := WriteSpec(page, w.reg, w.val, Some(0), respond, n);
      var op := Write(W16, w.reg.addr, w.val);
      AccumulatorRecordsFailure(page, w.reg, w.val, respond, n);
      UnpagedAccess(page, w.reg, w.val, respond, n);
      assert a.page == page && a.ops == [op] && a.ret == respond(n).status;
      ChainFirstFailureWins(page, writes, respond, n);
      assert Plain16(writes) == [op] + Plain16(writes[1..]);
      if a.ret == 0 {
        UnpagedTail(writes);
        UnpagedChain(page, writes[1..], respond, n + 1);
        var rest := ChainSpec(page, writes[1..], 0, respond, n + 1);
        assert c == After([op], rest);
        SucceedHead(respond, n, |writes| - 1);
        if rest.ret != 0 {
          SucceedHead(respond, n, |rest.ops| - 1);
          assert c.ops == Plain16(writes)[..|c.ops|];
        } else {
          assert c.ops == Plain16(writes);
        }
      } else {
        assert c == Access(a.ret, page, [op], 0);
        assert AllSucceed(respond, n, 0);
      }
    }
  }

  lemma UnpagedTail(writes: seq<RegWrite>)
    requires writes != [] && Unpaged16(writes)
    ensures Unpaged16(writes[1..])
  {
    forall i | 0 <= i < |writes[1..]|
      ensures writes[1..][i].reg.size == 2 && RegPage(writes[1..][i].reg) == 0
    {
      assert writes[1..][i] == writes[i + 1];
    }
  }

  lemma SucceedHead(respond: nat -> Reply, n: nat, k: nat)
    ensures AllSucceed(respond, n, k + 1) <==> respond(n).status == 0 && AllSucceed(respond, n + 1, k)
  {
  }

  /** Every script entry from `k` on names a register of a valid size. */
  ghost predicate SizesValid(script: seq<RegValue>, k: nat)
    decreases |script| - k
  {
    k >= |script| || (ValidSize(script[k].reg) && SizesValid(script, k + 1))
  }

  /**
   * A script (from entry `k` on) returns 0 exactly when every entry has a
   * valid size and every transaction it issued succeeded. A script that
   * failed did so on its last transaction, with that transaction's status,
   * or with -EINVAL on an entry of invalid size after only successes.
   */
  lemma {:induction false} ScriptStopsAtFirstFailure(page: u32, script: seq<RegValue>, k: nat, respond: nat -> Reply, n: nat)
    ensures var c := ScriptSpec(page, script, k, respond, n);
      c.ret <= 0
      && (c.ret == 0 <==> AllSucceed(respond, n, |c.ops|) && SizesValid(script, k))
      && FailedAsLast(c, respond, n)
    decreases |script| - k
  {
    if k < |script| {
      var a := WriteSpec(page, script[k].reg, script[k].val, None, respond, n);
      var rest := ScriptSpec(a.page, script, k + 1, respond, n + |a.ops|);
      WriteSucceedsIffAllTransfersDo(page, script[k].reg, script[k].val, respond, n);
      WriteFailureCode(page, script[k].reg, script[k].val, respond, n);
      ScriptUnfold(page, script, k, respond, n);
      if a.ret == 0 {
        ScriptStopsAtFirstFailure(a.page, script, k + 1, respond, n + |a.ops|);
      }
      ScriptStep(a, rest, ScriptSpec(page, script, k, respond, n), ValidSize(script[k].reg), SizesValid(script, k + 1), respond, n);
    }
  }

  /** One step of `ScriptStopsAtFirstFailure`: the entry's write `a`, then `rest` if it succeeded. */
  lemma ScriptStep(a: Access, rest: Access, c: Access, valid: bool, restValid: bool, respond: nat -> Reply, n: nat)
    requires a.ret <= 0 && (a.ret == 0 <==> valid && AllSucceed(respond, n, |a.ops|))
    requires FailedAsLast(a, respond, n)
    requires var m := n + |a.ops|;
      a.ret == 0 ==>
        rest.ret <= 0
        && (rest.ret == 0 <==> AllSucceed(respond, m, |rest.ops|) && restValid)
        && FailedAsLast(rest, respond, m)
    requires c == if a.ret != 0 then Access(a.ret, a.page, a.ops, 0) else After(a.ops, rest)
    ensures c.ret <= 0
      && (c.ret == 0 <==> AllSucceed(respond, n, |c.ops|) && valid && restValid)
      && FailedAsLast(c, respond, n)
  {
    if a.ret == 0 {
      FailureAfterSuccess(a.ops, rest, respond, n);
    }
  }

  /** A failure that follows successful transactions `ops` keeps its shape seen from before them. */
  lemma FailureAfterSuccess(ops: seq<Op>, rest: Access, respond: nat -> Reply, n: nat)
    requires AllSucceed(respond, n, |ops|)
    requires FailedAsLast(rest, respond, n + |ops|)
    ensures AllSucceed(respond, n, |ops| + |rest.ops|) <==> AllSucceed(respond, n + |ops|, |rest.ops|)
    ensures FailedAsLast(After(ops, rest), respond, n)
  {
    AllSucceedSplit(respond, n, |ops|, |rest.ops|);
    if |rest.ops| > 0 {
      AllSucceedSplit(respond, n, |ops|, |rest.ops| - 1);
    } else if |ops| > 0 {
      AllSucceedSplit(respond, n, |ops| - 1, 1);
    }
  }

  /**
   * Entry `j` of a script is where it failed from entry `k` on: the entries
   * before it all succeeded, its own write failed, and the script's outcome
   * is that write's code and cache after everything issued so far.
   */
  ghost predicate FailsAt(page: u32, script: seq<RegValue>, k: nat, j: nat, respond: nat -> Reply, n: nat, c: Access)
    requires k <= j < |script|
  {
    var p := ScriptSpec(page, script[..j], k, respond, n);
    var a := WriteSpec(p.page, script[j].reg, script[j].val, None, respond, n + |p.ops|);
    p.ret == 0 && a.ret != 0 && c == Access(a.ret, a.page, p.ops + a.ops, 0)
  }

  /**
   * A script that fails stops at its first failing entry: nothing after
   * that entry is written.
   */
  lemma {:induction false} ScriptFailsAtEntry(page: u32, script: seq<RegValue>, k: nat, respond: nat -> Reply, n: nat)
    ensures var c := ScriptSpec(page, script, k, respond, n);
      c.ret != 0 ==> exists j :: k <= j < |script| && FailsAt(page, script, k, j, respond, n, c)
    decreases |script| - k
  {
    var c := ScriptSpec(page, script, k, respond, n);
    if k < |script| && c.ret != 0 {
      var a := WriteSpec(page, script[k].reg, script[k].val, None, respond, n);
      ScriptUnfold(page, script, k, respond, n);
      if a.ret != 0 {
        FailsAtFirst(page, script, k, respond, n);
      } else {
        var m := n + |a.ops|;
        var rest := ScriptSpec(a.page, script, k + 1, respond, m);
        ScriptFailsAtEntry(a.page, script, k + 1, respond, m);
        var j :| k + 1 <= j < |script| && FailsAt(a.page, script, k + 1, j, respond, m, rest);
        FailsAtLater(page, script, k, j, respond, n, rest);
      }
    }
  }

  /** The entry the script starts from failing is where it failed. */
  lemma FailsAtFirst(page: u32, script: seq<RegValue>, k: nat, respond: nat -> Reply, n: nat)
    requires k < |script|
    requires WriteSpec(page, script[k].reg, script[k].val, None, respond, n).ret != 0
    ensures FailsAt(page, script, k, k, respond, n, ScriptSpec(page, script, k, respond, n))
  {
    var a := WriteSpec(page, script[k].reg, script[k].val, None, respond, n);
    ScriptUnfold(page, script, k, respond, n);
    assert ScriptSpec(page, script[..k], k, respond, n) == Access(0, page, [], 0);
    assert [] + a.ops == a.ops;
  }

  /** A failure at a later entry, after entry `k` succeeded, is a failure there seen from `k`. */
  lemma FailsAtLater(page: u32, script: seq<RegValue>, k: nat, j: nat, respond: nat -> Reply, n: nat, rest: Access)
    requires k < j < |script|
    requires var a := WriteSpec(page, script[k].reg, script[k].val, None, respond, n);
      a.ret == 0 && FailsAt(a.page, script, k + 1, j, respond, n + |a.ops|, rest)
    ensures var a := WriteSpec(page, script[k].reg, script[k].val, None, respond, n);
      FailsAt(page, script, k, j, respond, n, After(a.ops, rest))
  {
    var a := WriteSpec(page, script[k].reg, script[k].val, None, respond, n);
    var m := n + |a.ops|;
    var p := ScriptSpec(a.page, script[..j], k + 1, respond, m);
    var w := WriteSpec(p.page, script[j].reg, script[j].val, None, respond, m + |p.ops|);
    ScriptUnfold(page, script[..j], k, respond, n);
    assert script[..j][k] == script[k];
    assert ScriptSpec(page, script[..j], k, respond, n) == After(a.ops, p);
    assert a.ops + (p.ops + w.ops) == (a.ops + p.ops) + w.ops;
  }

  /** One iteration of the script loop: the whole script's outcome seen from entry `k`. */
  lemma LoadRegsStep(whole: Access, script: seq<RegValue>, k: nat, respond: nat -> Reply, n: nat,
                     done: seq<Op>, page: u32, a: Access)
    requires k < |script|
    requires whole == After(done, ScriptSpec(page, script, k, respond, n))
    requires a == WriteSpec(page, script[k].reg, script[k].val, None, respond, n)
    ensures a.ret != 0 ==> whole == Access(a.ret, a.page, done + a.ops, 0)
    ensures a.ret == 0 ==> whole == After(done + a.ops, ScriptSpec(a.page, script, k + 1, respond, n + |a.ops|))
  {
    ScriptUnfold(page, script, k, respond, n);
    if a.ret == 0 {
      AfterAfter(done, a.ops, ScriptSpec(a.page, script, k + 1, respond, n + |a.ops|));
    }
  }

  /** `ScriptSpec` at an entry that exists: that entry's write, then the rest if it succeeded. */
  lemma ScriptUnfold(page: u32, script: seq<RegValue>, k: nat, respond: nat -> Reply, n: nat)
    requires k < |script|
    ensures var a := WriteSpec(page, script[k].reg, script[k].val, None, respond, n);
      ScriptSpec(page, script, k, respond, n)
        == if a.ret != 0 then Access(a.ret, a.page, a.ops, 0)
           else After(a.ops, ScriptSpec(a.page, script, k + 1, respond, n + |a.ops|))
  {
  }

  // ---------------------------------------------------------------------
  // The register map: the cached page and the bus it drives

  class RegisterMap {
    const bus: Transport.Bus
    /** The page last written to the page-select register (0 until the first paged access). */
    var regPage: u32

    constructor (bus: Transport.Bus)
      ensures this.bus == bus && regPage == 0
    {
      this.bus := bus;
      regPage := 0;
    }

    /** `__ap1302_write`. */
    method DispatchWrite(ref: RegRef, val: u32) returns (ret: int)
      modifies bus
      ensures var a := DispatchWriteSpec(ref, val, bus.respond, |old(bus.log)|);
        ret == a.ret && bus.log == old(bus.log) + a.ops
    {
      var size := ref.size;
      var addr := ref.addr;
      if size == 2 {
        var st, _ := bus.Transfer(Op.Write(W16, addr, val));
        ret := st;
      } else if size == 4 {
        var st, _ := bus.Transfer(Op.Write(W32, addr, val));
        ret := st;
      } else {
        return -EINVAL;
      }
    }

    /** `__ap1302_read`. */
    method DispatchRead(ref: RegRef) returns (ret: int, val: u32)
      modifies bus
      ensures var a := DispatchReadSpec(ref, bus.respond, |old(bus.log)|);
        ret == a.ret && val == a.val && bus.log == old(bus.log) + a.ops
    {
      var size := ref.size;
      var addr := ref.addr;
      if size == 2 {
        var st, data := bus.Transfer(Op.Read(W16, addr));
        ret, val := st, data % 0x1_0000;
      } else if size == 4 {
        var st, data := bus.Transfer(Op.Read(W32, addr));
        ret, val := st, data;
      } else {
        return -EINVAL, 0;
      }
    }

    /** `ap1302_write`; `err` is the accumulator cell's content, None when no cell is passed. */
    method Write(ref: RegRef, val: u32, err: Option<int>) returns (ret: int, err': Option<int>)
      modifies this, bus
      ensures var a := WriteSpec(old(regPage), ref, val, err, bus.respond, |old(bus.log)|);
        ret == a.ret && regPage == a.page && bus.log == old(bus.log) + a.ops
      ensures err' == Accumulate(err, ret)
    {
      WriteUnfold(regPage, ref, val, err, bus.respond, |bus.log|);
      var page := RegPage(ref);
      if err.Some? && err.value != 0 {
        return err.value, err;
      }
      var target := ref;
      if page != 0 {
        if regPage != page {
          ret := DispatchWrite(ADVANCED_BASE, page);
          if ret < 0 {
            err' := Accumulate(err, ret);
            return;
          }
          regPage := page;
        }
        target := Relocate(ref);
      }
      ret := DispatchWrite(target, val);
      err' := Accumulate(err, ret);
    }

    /** `ap1302_read`. */
    method Read(ref: RegRef) returns (ret: int, val: u32)
      modifies this, bus
      ensures var a := ReadSpec(old(regPage), ref, bus.respond, |old(bus.log)|);
        ret == a.ret && val == a.val && regPage == a.page && bus.log == old(bus.log) + a.ops
    {
      var page := RegPage(ref);
      var target := ref;
      if page != 0 {
        if regPage != page {
          ret := DispatchWrite(ADVANCED_BASE, page);
          if ret < 0 {
            return ret, 0;
          }
          regPage := page;
        }
        target := Relocate(ref);
      }
      ret, val := DispatchRead(target);
    }

    /** `ap1302_load_regs`: writes a register script in order, stopping at the first failure. */
    method LoadRegs(script: seq<RegValue>) returns (ret: int)
      modifies this, bus
      ensures var c := ScriptSpec(old(regPage), script, 0, bus.respond, |old(bus.log)|);
        ret == c.ret && regPage == c.page && bus.log == old(bus.log) + c.ops
    {
      ret := 0;
      var i := 0;
      ghost var done: seq<Op> := [];
      ghost var whole := ScriptSpec(regPage, script, 0, bus.respond, |bus.log|);
      while i < |script|
        invariant 0 <= i <= |script|
        invariant ret == 0
        invariant bus.log == old(bus.log) + done
        invariant whole == After(done, ScriptSpec(regPage, script, i, bus.respond, |bus.log|))
      {
        ghost var n := |bus.log|;
        ghost var a := WriteSpec(regPage, script[i].reg, script[i].val, None, bus.respond, n);
        LoadRegsStep(whole, script, i, bus.respond, n, done, regPage, a);
        var cell;
        ret, cell := Write(script[i].reg, script[i].val, None);
        assert ret == a.ret && regPage == a.page && |bus.log| == n + |a.ops|;
        ConcatAssoc(old(bus.log), done, a.ops);
        done := done + a.ops;
        if ret != 0 {
          return;
        }
        // The delay after a write is not modelled.
        i := i + 1;
      }
    }
  }
}
