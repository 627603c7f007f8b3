/** The I2C bus under the optoe driver. */
module OptoeBus {
  import opened Bytes
  import opened Eeprom
  import opened OptoeEffects

  /** The bus with the module on it, and what has gone wrong there so far.  Transactions are nondeterministic: each may
      be acknowledged, come back short or fail. */
  class Bus {
    const adapter: Adapter
    /** A write that is never acknowledged leaves the module as it was. */
    const atomic: bool

    /** The module in the cage. */
    var mem: Module

    ghost var wire: Wire

    constructor (module_: Module, adapter: Adapter, atomic: bool)
      ensures mem == module_ && wire == CLEAN && this.adapter == adapter && this.atomic == atomic
    {
      this.mem, this.adapter, this.atomic, this.wire := module_, adapter, atomic, CLEAN;
    }

    /** One read transaction.  Unless it is acknowledged in full, what it leaves in the buffer is arbitrary; over
        plain I2C it may be taken for whole nevertheless. */
    method ReadTransaction(c: Client, buf: array<byte>, at: nat, offset: nat, count: nat) returns (status: int)
      requires HasClient(mem.cls, c)
      requires 1 <= count && offset + count <= 256 && at + count <= buf.Length
      modifies buf, `wire
      ensures wire == old(wire) ==>
                status == count && forall k :: at <= k < at + count ==> buf[k] == mem.Peek(c, offset + k - at)
      ensures wire != old(wire) ==>
                wire == old(wire).(faults := old(wire).faults + 1, halfReads := wire.halfReads, absent := wire.absent)
      ensures wire.absent == old(wire).absent + (if status == ENXIO then 1 else 0)
      ensures wire.halfReads == old(wire).halfReads + (if wire != old(wire) && status == count then 1 else 0)
      ensures wire != old(wire) && status == count ==> adapter.PlainI2c? && count == 1
      ensures forall k :: 0 <= k < at || at + count <= k < buf.Length ==> buf[k] == old(buf[k])
    {
      var whole;
      if adapter.PlainI2c? {
        var executed: int :| executed <= 2;
        status, whole := I2cStatus(executed, count), executed == 2;
        HalfReadIsTaken(executed, count);
      } else {
        status := *;
        whole := status == count;
      }
      for j := at to at + count
        invariant wire == old(wire)
        invariant whole ==> forall k :: at <= k < j ==> buf[k] == mem.Peek(c, offset + k - at)
        invariant forall k :: 0 <= k < at || at + count <= k < buf.Length ==> buf[k] == old(buf[k])
      {
        var noise: nat := *;
        buf[j] := if whole then mem.Peek(c, offset + j - at) else noise % 256;
      }
      if !whole {
        wire := wire.(faults := wire.faults + 1, halfReads := wire.halfReads + if status == count then 1 else 0,
                      absent := wire.absent + if status == ENXIO then 1 else 0);
      }
    }

    /** One write transaction.  Unless it is acknowledged, any prefix may have arrived, or, if writes are
        atomic, nothing. */
    method WriteTransaction(c: Client, buf: array<byte>, at: nat, offset: nat, count: nat)
      returns (ack: bool, ghost arrived: nat)
      requires HasClient(mem.cls, c)
      requires 1 <= count && offset < 256 && offset % PAGE_SIZE + count <= PAGE_SIZE && at + count <= buf.Length
      modifies `mem, `wire
      ensures mem.cls == old(mem.cls)
      ensures wire == if ack then old(wire)
                      else Nacked(old(wire), IsReset(mem.cls, c, offset, buf[at..at + count]))
      ensures arrived <= count && (ack ==> arrived == count) && (!ack && atomic ==> arrived == 0)
      ensures Wrote(old(mem), mem, old(mem.Cell(c, offset)), buf[at..at + arrived], arrived, true)
    {
      ack := *;
      var n: nat :| n <= count && (ack ==> n == count) && (!ack && atomic ==> n == 0);
      ghost var m, data := mem, buf[at..at + n];
      PeekIsLinear(m, c, offset);
      for k := 0 to n
        invariant mem.cls == m.cls && wire == old(wire)
        invariant Wrote(m, mem, m.Cell(c, offset), data[..k], k, true)
      {
        PokeExtends(m, mem, c, offset, data, k);
        mem := mem.Poke(c, offset + k, buf[at + k]);
      }
      arrived := n;
      assert data[..n] == data;
      if !ack {
        wire := Nacked(wire, IsReset(mem.cls, c, offset, buf[at..at + count]));
      }
    }
  }
}
