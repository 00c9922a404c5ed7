/**
 * The control bus the driver talks through, seen from the driver: two
 * register channels (16-bit and 32-bit values, 16-bit addresses) and raw
 * block writes on the 16-bit channel. The device behind it is not
 * modelled; its answer to the n-th transaction is given by an oracle, so
 * any transaction may fail and any read may return any value, while every
 * run stays deterministic. The bus records every transaction it was asked
 * to perform.
 */
module Transport {
  import opened Registers

  datatype Width = W16 | W32

  /** One bus transaction. */
  datatype Op =
    | Write(width: Width, addr: u16, val: u32)
    | Read(width: Width, addr: u16)
    | RawWrite(addr: u16, data: seq<u8>)

  /** A transport return code: 0 or a negative errno. */
  type Status = s: int | -0x8000_0000 <= s <= 0

  /** The device's answer: a return code and, for a read, the register contents. */
  datatype Reply = Reply(status: Status, data: u32)

  class Bus {
    /** Every transaction issued so far, oldest first. */
    var log: seq<Op>
    /** The answer to the n-th transaction ever issued. */
    const respond: nat -> Reply

    constructor (respond: nat -> Reply)
      ensures log == [] && this.respond == respond
    {
      this.respond := respond;
      log := [];
    }

    /** Issues one transaction; its answer is the oracle's for this position in the log. */
    method Transfer(op: Op) returns (st: Status, data: u32)
      modifies this
      ensures log == old(log) + [op]
      ensures Reply(st, data) == respond(|old(log)|)
    {
      var r := respond(|log|);
      st, data := r.status, r.data;
      log := log + [op];
    }
  }
}
