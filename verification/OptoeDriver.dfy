/** The optoe driver: it presents the paged memory of a transceiver as one linear array. */
module OptoeDriver {
  import opened Bytes
  import opened Eeprom
  import opened OptoeBus
  import opened OptoeEffects
  import opened OptoeRequests

  /** What a request returns that has `retval` bytes through when a chunk comes back with `status`: the bytes counted,
      or, if there are none, the error. */
  function Total(retval: nat, status: int): (r: int)
    ensures Max(r, 0) == retval + Max(status, 0)
    ensures r <= 0 ==> r == status
  {
    var r := if status > 0 then retval + status else retval;
    if r == 0 then status else r
  }

  class Optoe {
    const bus: Bus
    const writeMax: Positive

    /** Transfers and restores of page 0 given up. */
    ghost var lost: nat
    ghost var unrestored: nat

    /** What has gone wrong so far. */
    ghost function Counts(): Tally
      reads this, bus
    {
      Tally(bus.wire, lost, unrestored)
    }

    constructor (bus: Bus, writeMax: Positive)
      ensures this.bus == bus && this.writeMax == writeMax && lost == unrestored == 0
    {
      this.bus, this.writeMax, this.lost, this.unrestored := bus, writeMax, 0, 0;
    }

    /** Linear offset to I2C client, page number (an 8-bit value) and offset on the wire. */
    method TranslateOffset(off: nat) returns (page: nat, phy: nat, client: Client)
      requires off < Size(bus.mem.cls)
      ensures Canonical(bus.mem.cls, Address(client, page, phy))
      ensures LinearOf(bus.mem.cls, Address(client, page, phy)) == off
    {
      client, phy, page := Client0, off, 0;
      if bus.mem.cls.TwoAddr? {
        if phy > 255 {
          client := Client1;
          phy := phy - 256;
        }
      }
      if phy < PAGE_SIZE {
        return;
      }
      page := (phy / 128 - 1) % 256;
      phy := PAGE_SIZE + phy % 128;
    }

    /** Read until a transaction is taken for whole: it then is, unless over plain I2C only one of the two messages
        of a one-byte read was executed. */
    method EepromRead(c: Client, buf: array<byte>, at: nat, offset: nat, count: nat) returns (status: int)
      requires HasClient(bus.mem.cls, c)
      requires 1 <= count && offset + count <= 256 && at + count <= buf.Length
      modifies buf, bus`wire, `lost
      ensures IsBusError(status) || 1 <= status <= count
      ensures Spent(old(Counts()), Counts(), bus.adapter, if status < 0 then 1 else 0)
      ensures Blames(status, old(bus.wire), bus.wire)
      ensures bus.wire.halfReads == old(bus.wire).halfReads ==>
                forall k :: at <= k < at + status ==> buf[k] == bus.mem.Peek(c, offset + k - at)
      ensures bus.wire.halfReads != old(bus.wire).halfReads ==> count == status == 1
      ensures status > 0 ==> status == Min(count, Most(bus.adapter))
      ensures forall k :: 0 <= k < at || at + count <= k < buf.Length ==> buf[k] == old(buf[k])
    {
      var n := match bus.adapter
        case SmbusBlock => if count > SMBUS_BLOCK_MAX then SMBUS_BLOCK_MAX else count
        case SmbusWord => if count == 1 then 1 else 2
        case SmbusByte => 1
        case PlainI2c => count;
      var retries: nat :| retries >= 0;
      while true
        invariant Spent(old(Counts()), Counts(), bus.adapter, 0) && bus.wire.halfReads == old(bus.wire).halfReads
        invariant forall k :: 0 <= k < at || at + count <= k < buf.Length ==> buf[k] == old(buf[k])
        decreases retries
      {
        status := bus.ReadTransaction(c, buf, at, offset, n);
        if status == n {
          return n;
        }
        if status == ENXIO {
          lost := lost + 1;
          return ENXIO;
        }
        if retries == 0 {
          break;
        }
        retries := retries - 1;
      }
      lost := lost + 1;
      return ETIMEDOUT;
    }

    /** One attempt to write the first `n` bytes of a block, after others that were not acknowledged. */
    method WriteAttempt(c: Client, buf: array<byte>, at: nat, offset: nat, n: nat, ghost m: Module,
                        ghost data: seq<byte>) returns (ack: bool)
      requires HasClient(bus.mem.cls, c) && bus.mem.cls == m.cls && offset < 256
      requires 1 <= n <= |data| && offset % PAGE_SIZE + |data| <= PAGE_SIZE && at + |data| <= buf.Length
      requires data == buf[at..at + |data|] && bus.mem.Cell(c, offset) == m.Cell(c, offset)
      requires Wrote(m, bus.mem, m.Cell(c, offset), data, 0, bus.atomic)
      modifies bus
      ensures bus.mem.cls == m.cls && bus.mem.Cell(c, offset) == m.Cell(c, offset)
      ensures bus.wire == if ack then old(bus.wire)
                          else Nacked(old(bus.wire), IsReset(bus.mem.cls, c, offset, buf[at..at + n]))
      ensures Wrote(m, bus.mem, m.Cell(c, offset), data, if ack then n else 0, bus.atomic)
    {
      ghost var before := bus.mem;
      ghost var arrived;
      ack, arrived := bus.WriteTransaction(c, buf, at, offset, n);
      assert data[..arrived] == buf[at..at + arrived];
      RetryExtends(m, before, bus.mem, c, offset, data, arrived, if ack then n else 0, bus.atomic);
    }

    method EepromWrite(c: Client, buf: array<byte>, at: nat, offset: nat, count: nat) returns (status: int)
      requires HasClient(bus.mem.cls, c)
      requires 1 <= count && offset < 256 && offset % PAGE_SIZE + count <= PAGE_SIZE && at + count <= buf.Length
      modifies bus, `lost
      ensures bus.mem.cls == old(bus.mem.cls)
      ensures status == ETIMEDOUT || 1 <= status <= count
      ensures Spent(old(Counts()), Counts(), bus.adapter, if status < 0 then 1 else 0)
      ensures Blames(status, old(bus.wire), bus.wire)
      ensures bus.wire.halfReads == old(bus.wire).halfReads
      ensures status < 0 && IsReset(bus.mem.cls, c, offset, buf[at..at + count]) ==>
                bus.wire.resetFaults > old(bus.wire).resetFaults
      ensures Wrote(old(bus.mem), bus.mem, old(bus.mem.Cell(c, offset)), buf[at..at + count], Max(status, 0),
                    bus.atomic)
    {
      var n := WriteLength(bus.adapter, writeMax, offset, count);
      ghost var m, data := bus.mem, buf[at..at + count];
      CellsAreConsecutive(m, c, offset, count - 1);
      PeekIsLinear(m, c, offset + count - 1);
      var retries: nat :| retries >= 0;
      while true
        invariant bus.mem.cls == m.cls
        invariant Spent(old(Counts()), Counts(), bus.adapter, 0) && bus.wire.halfReads == old(bus.wire).halfReads
        invariant bus.mem.Cell(c, offset) == m.Cell(c, offset)
        invariant Wrote(m, bus.mem, m.Cell(c, offset), data, 0, bus.atomic)
        decreases retries
      {
        var ack := WriteAttempt(c, buf, at, offset, n, m, data);
        if ack {
          return n;
        }
        if retries == 0 {
          break;
        }
        retries := retries - 1;
      }
      lost := lost + 1;
      return ETIMEDOUT;
    }

    /** One step of a transfer, in whichever direction. */
    method Access(client: Client, buf: array<byte>, at: nat, phy: nat, count: nat, op: Opcode) returns (status: int)
      requires HasClient(bus.mem.cls, client)
      requires 1 <= count && phy < 256 && phy % PAGE_SIZE + count <= PAGE_SIZE && at + count <= buf.Length
      modifies buf, bus, `lost
      ensures bus.mem.cls == old(bus.mem.cls)
      ensures IsBusError(status) || 1 <= status <= count
      ensures Spent(old(Counts()), Counts(), bus.adapter, if status < 0 then 1 else 0)
      ensures Blames(status, old(bus.wire), bus.wire)
      ensures bus.wire.halfReads != old(bus.wire).halfReads ==> op.ReadOp? && count == 1
      ensures op.ReadOp? && bus.adapter.PlainI2c? && status > 0 ==> status == count
      ensures Accessed(old(bus.mem), bus.mem, old(buf[..]), buf[..], op, at, old(bus.mem.Cell(client, phy)), count,
                       status, bus.wire.halfReads == old(bus.wire).halfReads, bus.atomic)
    {
      match op {
        case ReadOp =>
          PeeksAreLinear(bus.mem, client, phy, count);
          status := EepromRead(client, buf, at, phy, count);
        case WriteOp =>
          status := EepromWrite(client, buf, at, phy, count);
      }
    }

    /** One round of the transfer loop, `done` bytes in. */
    method TransferStep(client: Client, buf: array<byte>, at: nat, phy: nat, count: nat, done: nat, op: Opcode,
                        ghost m: Module, ghost b: seq<byte>, ghost sound: bool) returns (status: int)
      requires HasClient(bus.mem.cls, client) && m.cls == bus.mem.cls
      requires done < count && phy < 256 && phy % PAGE_SIZE + count <= PAGE_SIZE && at + count <= buf.Length
      requires bus.mem.Cell(client, phy) == m.Cell(client, phy)
      requires Accessed(m, bus.mem, b, buf[..], op, at, m.Cell(client, phy), count, done, sound, bus.atomic)
      modifies buf, bus, `lost
      ensures bus.mem.cls == m.cls && bus.mem.Cell(client, phy) == m.Cell(client, phy)
      ensures IsBusError(status) || 1 <= status <= count - done
      ensures Spent(old(Counts()), Counts(), bus.adapter, if status < 0 then 1 else 0)
      ensures Blames(status, old(bus.wire), bus.wire)
      ensures bus.wire.halfReads != old(bus.wire).halfReads ==> op.ReadOp? && count - done == 1
      ensures op.ReadOp? && bus.adapter.PlainI2c? && status > 0 ==> status == count - done
      ensures Accessed(m, bus.mem, b, buf[..], op, at, m.Cell(client, phy), count, done + Max(status, 0),
                       sound && bus.wire.halfReads == old(bus.wire).halfReads, bus.atomic)
    {
      CellsAreConsecutive(bus.mem, client, phy, done);
      ghost var before, filled, from := bus.mem, buf[..], bus.mem.Cell(client, phy + done);
      assert from == m.Cell(client, phy) + done;
      status := Access(client, buf, at + done, phy + done, count - done, op);
      AccessedExtends(m, before, bus.mem, b, filled, buf[..], op, client, phy, at, count, done, count - done, from,
                      status, sound, bus.wire.halfReads == old(bus.wire).halfReads, bus.atomic);
    }

    /** The transfer loop within one block: steps of whatever length the bus takes, until one fails. */
    method Transfer(client: Client, buf: array<byte>, at: nat, phy: nat, count: nat, op: Opcode) returns (retval: int)
      requires HasClient(bus.mem.cls, client)
      requires 1 <= count && phy < 256 && phy % PAGE_SIZE + count <= PAGE_SIZE && at + count <= buf.Length
      modifies buf, bus, `lost
      ensures bus.mem.cls == old(bus.mem.cls)
      ensures IsBusError(retval) || 1 <= retval <= count
      ensures Spent(old(Counts()), Counts(), bus.adapter, if retval == count then 0 else 1)
      ensures Blames(retval, old(bus.wire), bus.wire)
      ensures bus.wire.halfReads != old(bus.wire).halfReads ==> op.ReadOp? && count == 1
      ensures Accessed(old(bus.mem), bus.mem, old(buf[..]), buf[..], op, at, old(bus.mem.Cell(client, phy)), count,
                       retval, bus.wire.halfReads == old(bus.wire).halfReads, bus.atomic)
    {
      ghost var m, b := bus.mem, buf[..];
      PeeksAreLinear(m, client, phy, count);
      NothingAccessed(m, b, op, at, m.Cell(client, phy), count, bus.atomic);
      retval := 0;
      var left := count;
      while left > 0
        invariant 0 <= retval == count - left <= count && Spent(old(Counts()), Counts(), bus.adapter, 0)
        invariant bus.wire.halfReads != old(bus.wire).halfReads ==> op.ReadOp? && count == 1
        invariant op.ReadOp? && bus.adapter.PlainI2c? ==> retval == 0 || left == 0
        invariant bus.mem.cls == m.cls && bus.mem.Cell(client, phy) == m.Cell(client, phy)
        invariant Accessed(m, bus.mem, b, buf[..], op, at, m.Cell(client, phy), count, retval,
                           bus.wire.halfReads == old(bus.wire).halfReads, bus.atomic)
      {
        var status := TransferStep(client, buf, at, phy, count, retval, op, m, b,
                                   bus.wire.halfReads == old(bus.wire).halfReads);
        if status <= 0 {
          if retval == 0 {
            retval := status;
          }
          return;
        }
        left := left - status;
        retval := retval + status;
      }
    }

    /** A one-byte write to the page-select register. */
    method WritePageRegister(client: Client, page: byte) returns (ret: int)
      requires HasClient(bus.mem.cls, client) && IsPaged(bus.mem.cls, client)
      modifies bus, `lost
      ensures bus.mem.cls == old(bus.mem.cls)
      ensures ret == 1 || ret == ETIMEDOUT
      ensures Spent(old(Counts()), Counts(), bus.adapter, if ret < 0 then 1 else 0)
      ensures Blames(ret, old(bus.wire), bus.wire)
      ensures bus.wire.halfReads == old(bus.wire).halfReads
      ensures ret < 0 && page == 0 ==> bus.wire.resetFaults > old(bus.wire).resetFaults
      ensures SameButSelect(old(bus.mem), bus.mem)
      ensures ret >= 0 ==> bus.mem.Select() == page
      ensures bus.mem.Select() == page || bus.mem.Select() == old(bus.mem.Select())
      ensures ret < 0 && bus.atomic ==> bus.mem.Select() == old(bus.mem.Select())
    {
      var reg := new byte[1];
      reg[0] := page;
      ret := EepromWrite(client, reg, 0, PAGE_SELECT_REG, 1);
      assert reg[0..1] == [page];
      SelectWritten(old(bus.mem), bus.mem, client, page, Max(ret, 0), bus.atomic);
    }

    /** Return the page register to page 0. */
    method RestorePage(client: Client) returns (ret: int)
      requires HasClient(bus.mem.cls, client) && IsPaged(bus.mem.cls, client)
      modifies bus, `lost, `unrestored
      ensures bus.mem.cls == old(bus.mem.cls) && (ret == 1 || ret == ETIMEDOUT)
      ensures Grew(old(Counts()), Counts(), bus.adapter)
      ensures lost == old(lost) && bus.wire.halfReads == old(bus.wire).halfReads
      ensures unrestored == old(unrestored) + (if ret < 0 then 1 else 0)
      ensures SameButSelect(old(bus.mem), bus.mem)
      ensures ret >= 0 ==> bus.mem.Select() == 0
      ensures bus.mem.Select() == 0 || bus.mem.Select() == old(bus.mem.Select())
    {
      ret := WritePageRegister(client, 0);
      if ret < 0 {
        lost, unrestored := lost - 1, unrestored + 1;
      }
    }

    /** Transfer within one 128-byte block, between selecting its page and restoring page 0. */
    method UpdateClient(buf: array<byte>, at: nat, off: nat, count: nat, op: Opcode) returns (retval: int)
      requires 1 <= count && off % PAGE_SIZE + count <= PAGE_SIZE && off + count <= Size(bus.mem.cls)
      requires at + count <= buf.Length
      modifies buf, bus, `lost, `unrestored
      ensures bus.mem.cls == old(bus.mem.cls)
      ensures IsBusError(retval) || 1 <= retval <= count
      ensures Grew(old(Counts()), Counts(), bus.adapter) && (lost == old(lost) <==> retval == count)
      ensures Blames(retval, old(bus.wire), bus.wire)
      ensures bus.wire.halfReads != old(bus.wire).halfReads ==> op.ReadOp? && count == 1
      ensures ChunkEffect(old(bus.mem), bus.mem, old(buf[..]), buf[..], op, at, off, count, retval,
                          unrestored == old(unrestored), bus.wire.halfReads == old(bus.wire).halfReads, bus.atomic)
    {
      var page, phy, client := TranslateOffset(off);
      if page > 0 {
        retval := UpdatePage(client, page, buf, at, off, phy, count, op);
      } else {
        ghost var m, b := bus.mem, buf[..];
        assert m.Cell(client, phy) == m.Reached(off);
        retval := Transfer(client, buf, at, phy, count, op);
        UnpagedChunk(m, bus.mem, b, buf[..], op, at, off, count, retval,
                     bus.wire.halfReads == old(bus.wire).halfReads, bus.atomic);
      }
    }

    /** The same for a block on a page other than 0, at `phy` of the client. */
    method UpdatePage(client: Client, page: byte, buf: array<byte>, at: nat, off: nat, phy: nat, count: nat, op: Opcode)
      returns (retval: int)
      requires 1 <= count && phy % PAGE_SIZE + count <= PAGE_SIZE && at + count <= buf.Length && page > 0
      requires Canonical(bus.mem.cls, Address(client, page, phy)) && off + count <= Size(bus.mem.cls)
      requires LinearOf(bus.mem.cls, Address(client, page, phy)) == off
      modifies buf, bus, `lost, `unrestored
      ensures bus.mem.cls == old(bus.mem.cls)
      ensures IsBusError(retval) || 1 <= retval <= count
      ensures Grew(old(Counts()), Counts(), bus.adapter) && (lost == old(lost) <==> retval == count)
      ensures Blames(retval, old(bus.wire), bus.wire)
      ensures bus.wire.halfReads != old(bus.wire).halfReads ==> op.ReadOp? && count == 1
      ensures ChunkEffect(old(bus.mem), bus.mem, old(buf[..]), buf[..], op, at, off, count, retval,
                          unrestored == old(unrestored), bus.wire.halfReads == old(bus.wire).halfReads, bus.atomic)
    {
      ghost var m, b := bus.mem, buf[..];
      var ret := WritePageRegister(client, page);
      if ret < 0 {
        SelectFailed(m, bus.mem, b, op, at, off, count, ret, bus.atomic);
        return ret;
      }
      ghost var n := bus.mem;
      assert n.Cell(client, phy) == off;
      retval := Transfer(client, buf, at, phy, count, op);
      ghost var n', sound := bus.mem, bus.wire.halfReads == old(bus.wire).halfReads;
      ret := RestorePage(client);
      PagedChunk(m, n, n', bus.mem, b, buf[..], op, at, off, count, retval, ret >= 0, sound, bus.atomic);
      if ret < 0 && retval == 0 {
        retval := ret;
      }
    }

    /** Read a capability byte. */
    method ReadCapability(reg: nat) returns (status: int, regval: byte)
      requires reg < PAGE_SIZE
      modifies bus`wire, `lost
      ensures status < 0 ==> IsBusError(status)
      ensures Spent(old(Counts()), Counts(), bus.adapter, if status < 0 then 1 else 0)
      ensures Blames(status, old(bus.wire), bus.wire)
      ensures bus.wire.halfReads == old(bus.wire).halfReads && status >= 0 ==> regval == bus.mem.At(reg)
    {
      var buf := new byte[1];
      PeekIsLinear(bus.mem, Client0, reg);
      status := EepromRead(Client0, buf, 0, reg, 1);
      regval := buf[0];
    }

    /** How much of the request the module admits; negative if that cannot be found out.  A half read of a capability
        byte may give a wrong answer, which still keeps to the request and to the linear space. */
    method PageLegal(off: int, len: nat) returns (status: int)
      modifies bus`wire, `lost
      ensures off < 0 ==> status == EINVAL && Counts() == old(Counts())
      ensures 0 <= off && status < 0 ==> IsBusError(status) && Spent(old(Counts()), Counts(), bus.adapter, 1)
      ensures 0 <= off && status >= 0 ==>
                && Spent(old(Counts()), Counts(), bus.adapter, 0)
                && status <= len && (status > 0 ==> off + status <= Size(bus.mem.cls))
                && (bus.wire.halfReads == old(bus.wire).halfReads ==> status == Legal(bus.mem, off, len))
      ensures bus.wire.halfReads != old(bus.wire).halfReads ==> NeedsCapability(bus.mem.cls, off, len)
      ensures 0 <= off ==> Blames(status, old(bus.wire), bus.wire)
    {
      if off < 0 {
        return EINVAL;
      }
      var maxlen, regval;
      if bus.mem.cls.TwoAddr? {
        if off + len <= 256 {
          return len;
        }
        if off >= Size(bus.mem.cls) {
          return EOF;
        }
        status, regval := ReadCapability(64);
        if status < 0 {
          return status;
        }
        if Bit(regval, 16) {
          maxlen := Size(bus.mem.cls) - off;
        } else {
          if off >= 512 {
            return EOF;
          }
          status, regval := ReadCapability(92);
          if status < 0 {
            return status;
          }
          if Bit(regval, 64) {
            maxlen := 512 - off;
          } else {
            if off >= 256 {
              return EOF;
            }
            maxlen := 256 - off;
          }
        }
      } else {
        if off + len <= 256 {
          return len;
        }
        if off >= Size(bus.mem.cls) {
          return EOF;
        }
        status, regval := ReadCapability(2);
        if status < 0 {
          return status;
        }
        if Bit(regval, 4) {
          if off >= 256 {
            return EOF;
          }
          maxlen := 256 - off;
        } else {
          maxlen := Size(bus.mem.cls) - off;
        }
      }
      status := if len > maxlen then maxlen else len;
    }

    /** One round of the chunk loop: the block `chunk` of the request `[off, off + len)`. */
    method TransferChunk(buf: array<byte>, at: nat, off: nat, len: nat, chunk: nat, pending: nat, op: Opcode,
                         ghost m: Module, ghost b: seq<byte>, ghost data: seq<byte>, ghost restored: bool,
                         ghost sound: bool)
      returns (status: int, chunkLen: nat, ghost done: nat, ghost restored': bool, ghost sound': bool)
      requires 0 < pending == len - at <= len <= buf.Length == |b| && data == b[..len]
      requires off + len <= Size(bus.mem.cls)
      requires AtChunk(off, len, chunk, pending)
      requires Underway(m, bus.mem, b, buf[..], op, off, data, at, restored, sound)
      modifies buf, bus, `lost, `unrestored
      ensures bus.mem.cls == old(bus.mem.cls)
      ensures chunkLen <= pending && (IsBusError(status) || 1 <= status <= chunkLen)
      ensures Grew(old(Counts()), Counts(), bus.adapter) && (lost == old(lost) <==> status == chunkLen)
      ensures Blames(status, old(bus.wire), bus.wire)
      ensures bus.wire.halfReads != old(bus.wire).halfReads ==> op.ReadOp? && HasByteChunk(off, len)
      ensures AtChunk(off, len, chunk + 1, pending - chunkLen)
      ensures done == at + Max(status, 0)
      ensures restored' == (restored && unrestored == old(unrestored))
      ensures sound' == (sound && bus.wire.halfReads == old(bus.wire).halfReads)
      ensures status == chunkLen ==>
                Underway(m, bus.mem, b, buf[..], op, off, data, done, restored', sound')
      ensures Stopped(m, bus.mem, b, buf[..], op, off, data, done, restored', sound', bus.atomic)
    {
      ChunkIsIntersection(chunk, off, len, pending);
      var (chunkOffset, n) := ChunkOf(chunk, off, pending);
      assert chunkOffset == off + at;
      chunkLen := n;
      ghost var before, filled := bus.mem, buf[..];
      status := UpdateClient(buf, at, chunkOffset, chunkLen, op);
      ghost var restoredNow, soundNow :=
        unrestored == old(unrestored), bus.wire.halfReads == old(bus.wire).halfReads;
      ChunkServed(m, before, bus.mem, b, filled, buf[..], op, off, data, at, chunkOffset, chunkLen, status,
                  restored, restoredNow, sound, soundNow, bus.atomic);
      done, restored', sound' := at + Max(status, 0), restored && restoredNow, sound && soundNow;
    }

    /** The chunk loop of a request that has been trimmed to the legal range. */
    method TransferChunks(buf: array<byte>, off: nat, len: nat, op: Opcode)
      returns (retval: int, ghost done: nat, ghost restored: bool, ghost sound: bool)
      requires 0 < len <= buf.Length && off + len <= Size(bus.mem.cls)
      modifies buf, bus, `lost, `unrestored
      ensures bus.mem.cls == old(bus.mem.cls)
      ensures IsBusError(retval) || 1 <= retval <= len
      ensures Grew(old(Counts()), Counts(), bus.adapter) && (retval == len <==> lost == old(lost))
      ensures Blames(retval, old(bus.wire), bus.wire)
      ensures bus.wire.halfReads != old(bus.wire).halfReads ==> op.ReadOp? && HasByteChunk(off, len)
      ensures Stopped(old(bus.mem), bus.mem, old(buf[..]), buf[..], op, off, old(buf[..len]), done,
                      restored, sound, bus.atomic)
      ensures done == Max(retval, 0)
      ensures restored == (unrestored == old(unrestored))
      ensures sound == (bus.wire.halfReads == old(bus.wire).halfReads)
    {
      ghost var m, b, data := bus.mem, buf[..], buf[..len];
      var pending := len;
      retval := 0;
      var chunk, last := off / PAGE_SIZE, (off + len - 1) / PAGE_SIZE;
      done, restored, sound := 0, true, true;
      NothingServed(m, buf[..], op, off, data, bus.atomic);
      while chunk <= last
        invariant 0 <= retval == len - pending <= len && AtChunk(off, len, chunk, pending)
        invariant bus.mem.cls == m.cls
        invariant Grew(old(Counts()), Counts(), bus.adapter) && lost == old(lost)
        invariant restored == (unrestored == old(unrestored))
        invariant sound == (bus.wire.halfReads == old(bus.wire).halfReads)
        invariant !sound ==> op.ReadOp? && HasByteChunk(off, len)
        invariant Underway(m, bus.mem, b, buf[..], op, off, data, done, restored, sound) && done == retval
        decreases last + 1 - chunk
      {
        var status, chunkLen;
        status, chunkLen, done, restored, sound := TransferChunk(buf, retval, off, len, chunk, pending, op, m, b, data,
                                                           restored, sound);
        if status != chunkLen {
          retval := Total(retval, status);
          return;
        }
        pending := pending - status;
        retval := retval + status;
        chunk := chunk + 1;
      }
    }

    /** A read or write request at a linear offset: the number of bytes transferred, or an error.  `legal` is how
        much of the request the driver took for legal. */
    method ReadWrite(buf: array<byte>, off: int, len: nat, op: Opcode) returns (retval: int, ghost legal: nat)
      requires len <= buf.Length
      modifies buf, bus, `lost, `unrestored
      ensures bus.mem.cls == old(bus.mem.cls) && Grew(old(Counts()), Counts(), bus.adapter)
      ensures Outside(old(buf[..]), buf[..], op, len)
      // Out of range, or nothing asked for: nothing happens.
      ensures len == 0 ==> retval == 0
      ensures off < 0 && len > 0 ==> retval == EINVAL
      ensures off < 0 || len == 0 ==> bus.mem == old(bus.mem) && Counts() == old(Counts())
      // The legal part is what the module supports, unless a read went half done; it does so only over plain I2C, and
      // only if capability bytes or single bytes are read.
      ensures legal <= len && (legal > 0 ==> 0 <= off && off + legal <= Size(bus.mem.cls))
      ensures 0 <= off && bus.wire.halfReads == old(bus.wire).halfReads ==> legal == Legal(old(bus.mem), off, len)
      ensures bus.wire.halfReads != old(bus.wire).halfReads ==>
                bus.adapter.PlainI2c? &&
                (NeedsCapability(bus.mem.cls, off, len) || (op.ReadOp? && 0 <= off && HasByteChunk(off, len)))
      // The legal part is transferred whole exactly when no transfer was given up.
      ensures 0 <= off ==> IsBusError(retval) || 0 <= retval <= legal
      ensures 0 <= off ==> (retval == legal <==> lost == old(lost))
      ensures 0 <= off ==> Blames(retval, old(bus.wire), bus.wire)
      // Whatever failed on the way and whatever page was selected, the bytes counted in the result are those that the
      // register lets the request reach, and no byte outside them has changed.
      ensures legal == 0 ==> bus.mem == old(bus.mem)
      ensures legal > 0 ==>
                var data, done := old(buf[..legal]), Max(retval, 0);
                && Served(old(bus.mem), bus.mem, buf[..], op, off, data, done, Sent(data, done, bus.atomic),
                          bus.wire.halfReads == old(bus.wire).halfReads)
                && Settled(old(bus.mem), bus.mem, op, off, data, done, unrestored == old(unrestored), bus.atomic)
                && Left(old(bus.mem), bus.mem, op, off, data, done, bus.atomic)
      // The register is back at page 0, unless a restore was given up or a torn write reached the register.
      ensures legal > 0 && unrestored == old(unrestored) && (bus.atomic || lost == old(lost)) &&
              Undisturbed(old(bus.mem), op, off, old(buf[..legal]), Max(retval, 0), bus.atomic) ==>
                bus.mem.Select() == 0
      // A flat array would have done the same, exactly when the register was sent nothing but zero.
      ensures op.WriteOp? && retval > 0 && old(bus.mem.Select()) == 0 && bus.atomic &&
              unrestored == old(unrestored) ==>
                (InStep(bus.mem, Splice(old(bus.mem.Linear()), off, buf[..retval])) <==>
                 Harmless(bus.mem.cls, off, buf[..retval]))
    {
      legal := if off < 0 then 0 else Legal(bus.mem, off, len);
      if len == 0 {
        return 0, legal;
      }
      var status := PageLegal(off, len);
      if status == EOF || status < 0 {
        if status == EOF {
          legal := 0;
        }
        if legal > 0 {
          NothingServed(bus.mem, buf[..], op, off, buf[..legal], bus.atomic);
        }
        return status, legal;
      }
      legal := status;
      ghost var m, data := bus.mem, buf[..status];
      ghost var done, restored, sound;
      retval, done, restored, sound := TransferChunks(buf, off, status, op);
      FlatEnd(m, bus.mem, buf[..], op, off, data, Max(retval, 0), unrestored == old(unrestored),
              bus.wire.halfReads == old(bus.wire).halfReads, bus.atomic);
      assert op.WriteOp? && retval > 0 ==> data[..retval] == buf[..retval];
    }
  }
}
