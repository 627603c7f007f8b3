/** What transfers of the optoe driver do to a transceiver's memory, to the caller's buffer and to the count of
    faults, block by block, as relations on values. */
module OptoeEffects {
  import opened Bytes
  import opened Eeprom

  /** How the driver reaches the bus; chosen from the adapter's capabilities. */
  datatype Adapter = PlainI2c | SmbusBlock | SmbusWord | SmbusByte

  datatype Opcode = ReadOp | WriteOp

  const SMBUS_BLOCK_MAX := 32
  const EOF := 0
  const ENXIO := -6
  const EINVAL := -22
  const ETIMEDOUT := -110

  /** What a transfer that was given up returns: no module present, or out of time. */
  predicate IsBusError(status: int) { status == ENXIO || status == ETIMEDOUT }

  // Faults.

  /** What has gone wrong on the bus: transactions failed or half done, the read messages of which only the first was
      executed but which look whole, the failed writes of page 0 to the page register, and the reads answered that no
      module is present. */
  datatype Wire = Wire(faults: nat, halfReads: nat, resetFaults: nat, absent: nat)

  const CLEAN := Wire(0, 0, 0, 0)

  /** With it, the transfers and the restores of page 0 that the driver gave up. */
  datatype Tally = Tally(wire: Wire, lost: nat, unrestored: nat)

  /** Nothing is given up, and no read goes half done, without a fault of its own on the bus; no restore without a
      fault of its own transaction. */
  ghost predicate Grew(t: Tally, t': Tally, adapter: Adapter) {
    var w, w' := t.wire, t'.wire;
    && w.faults <= w'.faults && w.halfReads <= w'.halfReads && w.resetFaults <= w'.resetFaults
    && w.absent <= w'.absent <= w.absent + t'.lost - t.lost
    && t.lost <= t'.lost && t.unrestored <= t'.unrestored
    && (t'.lost - t.lost) + (t'.unrestored - t.unrestored) + (w'.halfReads - w.halfReads) <= w'.faults - w.faults
    && t'.unrestored - t.unrestored <= w'.resetFaults - w.resetFaults
    && (!adapter.PlainI2c? ==> w'.halfReads == w.halfReads)
  }

  /** The same, for a step that gives up `given` transfers and restores nothing. */
  ghost predicate Spent(t: Tally, t': Tally, adapter: Adapter, given: nat) {
    Grew(t, t', adapter) && t'.lost == t.lost + given && t'.unrestored == t.unrestored
  }

  /** Of the two errors, the one that says that no module is present is returned exactly if a read was answered so. */
  ghost predicate Blames(status: int, w: Wire, w': Wire) {
    status < 0 ==> (status == ENXIO <==> w'.absent != w.absent)
  }

  /** A read transaction over plain I2C is two messages, the offset and the data; this is what the driver makes of
      the number of them that were executed (negative for an error). */
  function I2cStatus(executed: int, count: nat): int {
    if executed == 2 then count else executed
  }

  /** The driver takes a transaction for whole, although its data never came, if and only if one byte was asked for
      and one message was executed. */
  lemma HalfReadIsTaken(executed: int, count: nat)
    requires executed <= 2 && count >= 1
    ensures I2cStatus(executed, count) == count && executed != 2 <==> executed == 1 && count == 1
  {
  }

  /** A write of page 0 to the page-select register. */
  predicate IsReset(cls: DevClass, c: Client, offset: nat, data: seq<byte>) {
    IsPaged(cls, c) && offset == PAGE_SELECT_REG && data == [0]
  }

  /** After a write transaction that was not acknowledged. */
  function Nacked(w: Wire, reset: bool): Wire {
    w.(faults := w.faults + 1, resetFaults := w.resetFaults + if reset then 1 else 0)
  }

  // Bytes.

  type Positive = n: nat | n >= 1 witness 1

  function Min(a: int, b: int): int { if a < b then a else b }

  function Max(a: int, b: int): int { if a < b then b else a }

  /** Linear byte `i` after `data` was sent to `[cell, cell + |data|)` and the first `done` bytes were
      acknowledged.  A byte sent but never acknowledged may have arrived, unless writes are atomic. */
  ghost predicate WroteAt(m: Module, n: Module, cell: nat, data: seq<byte>, done: int, atomic: bool, i: nat)
    requires m.cls == n.cls && i < Size(m.cls)
  {
    if i < cell || cell + |data| <= i then n.At(i) == m.At(i)
    else if i < cell + done then n.At(i) == data[i - cell]
    else n.At(i) == m.At(i) || (!atomic && n.At(i) == data[i - cell])
  }

  ghost predicate Wrote(m: Module, n: Module, cell: nat, data: seq<byte>, done: int, atomic: bool) {
    && m.cls == n.cls && cell + |data| <= Size(m.cls)
    && forall i: nat :: i < Size(m.cls) ==> WroteAt(m, n, cell, data, done, atomic, i)
  }

  ghost predicate SameAt(m: Module, n: Module, i: nat)
    requires m.cls == n.cls && i < Size(m.cls)
  {
    n.At(i) == m.At(i)
  }

  /** Nothing has changed, except perhaps the page-select byte. */
  ghost predicate SameButSelect(m: Module, n: Module) {
    && m.cls == n.cls
    && forall i: nat :: i < Size(m.cls) && i != SelectAt(m.cls) ==> SameAt(m, n, i)
  }

  /** As `Wrote`, but silent on the page-select byte. */
  ghost predicate WroteButSelect(m: Module, n: Module, cell: nat, data: seq<byte>, done: int, atomic: bool) {
    && m.cls == n.cls && cell + |data| <= Size(m.cls)
    && forall i: nat :: i < Size(m.cls) && i != SelectAt(m.cls) ==> WroteAt(m, n, cell, data, done, atomic, i)
  }

  /** `buf` holds, from `at` on, `n` linear bytes from `from` on. */
  ghost predicate Filled(buf: seq<byte>, at: nat, n: int, m: Module, from: nat) {
    && from + n <= Size(m.cls) && at + n <= |buf|
    && forall k :: at <= k < at + n ==> buf[k] == m.At(from + k - at)
  }

  /** The most bytes that one transaction can transfer; an I2C message of any length can. */
  function Most(adapter: Adapter): nat {
    match adapter
    case SmbusBlock => 32
    case SmbusWord => 2
    case SmbusByte => 1
    case PlainI2c => 256
  }

  /** The length of one write transaction: as long as asked for, within `writeMax`, one page and what the adapter can
      do. */
  function WriteLength(adapter: Adapter, writeMax: Positive, offset: nat, count: nat): (n: nat)
    requires 1 <= count
    ensures 1 <= n <= count && n <= writeMax && offset % PAGE_SIZE + n <= PAGE_SIZE && n <= Most(adapter)
    ensures n == count || n == writeMax || offset % PAGE_SIZE + n == PAGE_SIZE || n == Most(adapter)
  {
    var limited := if count > writeMax then writeMax else count;
    var nextPage := (offset + PAGE_SIZE) / PAGE_SIZE * PAGE_SIZE;
    var n := if offset + limited > nextPage then nextPage - offset else limited;
    match adapter
    case SmbusBlock => if n > SMBUS_BLOCK_MAX then SMBUS_BLOCK_MAX else n
    case SmbusWord => if n == 1 then 1 else 2
    case SmbusByte => 1
    case PlainI2c => n
  }

  /** How much of a request the module's supported size admits. */
  function Legal(m: Module, off: nat, len: nat): nat
  {
    if off >= m.Supported() then 0 else Min(len, m.Supported() - off)
  }

  /** Exactly the bytes of a request within the supported size are legal. */
  lemma LegalIsSupported(m: Module, off: nat, len: nat, k: nat)
    ensures k < Legal(m, off, len) <==> k < len && off + k < m.Supported()
  {
  }

  /** The part of a request that falls into one 128-byte chunk, as the driver computes it. */
  function ChunkOf(chunk: nat, off: nat, pending: nat): (c: (nat, nat))
  {
    var start := chunk * PAGE_SIZE;
    var end := start + PAGE_SIZE;
    if start < off then
      (off, if off + pending < end then pending else Max(end - off, 0))
    else
      (start, if pending < PAGE_SIZE then pending else PAGE_SIZE)
  }

  /** Before chunk `chunk` of a request, `pending` bytes of it are left: none if the chunk is past its end. */
  predicate AtChunk(off: nat, len: nat, chunk: nat, pending: nat)
    requires len > 0
  {
    off / PAGE_SIZE <= chunk && pending == Max(off + len - Max(off, chunk * PAGE_SIZE), 0)
  }

  /** Cut at block boundaries, the range has a part of a single byte. */
  predicate HasByteChunk(off: nat, len: nat) {
    len == 1 || (len > 0 && (off % PAGE_SIZE == PAGE_SIZE - 1 || (off + len) % PAGE_SIZE == 1))
  }

  /** Whether capability bytes must be read to find out how much of a request is legal. */
  predicate NeedsCapability(cls: DevClass, off: int, len: nat) {
    0 <= off < Size(cls) && off + len > 256
  }

  /** While the pending length ends where the request ends, a chunk is the intersection of the request with
      its 128-byte block: chunks are consecutive, disjoint, non-empty and cross no block boundary. */
  lemma ChunkIsIntersection(chunk: nat, off: nat, len: nat, pending: nat)
    requires len > 0 && AtChunk(off, len, chunk, pending) && pending > 0
    ensures var (at, n) := ChunkOf(chunk, off, pending);
            && at == Max(off, chunk * PAGE_SIZE)
            && at + n == Min(off + len, (chunk + 1) * PAGE_SIZE)
            && n > 0
            && at / PAGE_SIZE == chunk
            && at % PAGE_SIZE + n <= PAGE_SIZE
            && n <= pending && AtChunk(off, len, chunk + 1, pending - n)
            && (n == 1 ==> HasByteChunk(off, len))
  {
  }

  /** Offsets within one half of a client are consecutive linear bytes. */
  lemma CellsAreConsecutive(m: Module, c: Client, phy: nat, j: nat)
    requires HasClient(m.cls, c) && phy % PAGE_SIZE + j < PAGE_SIZE && phy < 256
    ensures phy + j < 256 && (phy + j) % PAGE_SIZE == phy % PAGE_SIZE + j
    ensures m.Cell(c, phy + j) == m.Cell(c, phy) + j
  {
  }

  lemma SelectIsLinear(m: Module)
    ensures SelectAt(m.cls) < Size(m.cls) && m.Select() == m.At(SelectAt(m.cls))
  {
  }

  /** One more byte of a block, seen at one linear byte. */
  lemma WroteAtExtends(m: Module, n: Module, n': Module, cell: nat, data: seq<byte>, k: nat, i: nat)
    requires m.cls == n.cls == n'.cls && i < Size(m.cls) && k < |data|
    requires WroteAt(m, n, cell, data[..k], k, true, i) && n'.At(i) == if i == cell + k then data[k] else n.At(i)
    ensures WroteAt(m, n', cell, data[..k + 1], k + 1, true, i)
  {
  }

  /** While a block is sent, its next byte still goes to the linear byte it was meant for. */
  lemma NextCell(m: Module, n: Module, c: Client, phy: nat, data: seq<byte>, k: nat)
    requires HasClient(m.cls, c) && phy < 256
    requires k < |data| && phy % PAGE_SIZE + |data| <= PAGE_SIZE
    requires Wrote(m, n, m.Cell(c, phy), data[..k], k, true)
    ensures phy + k < 256 && n.Cell(c, phy + k) == m.Cell(c, phy) + k
  {
    CellsAreConsecutive(m, c, phy, k);
    SelectIsLinear(m);
    SelectIsLinear(n);
    assert WroteAt(m, n, m.Cell(c, phy), data[..k], k, true, SelectAt(m.cls));
  }

  /** Sending one more byte of a block, once the first `k` have arrived. */
  lemma PokeExtends(m: Module, n: Module, c: Client, phy: nat, data: seq<byte>, k: nat)
    requires HasClient(m.cls, c) && phy < 256
    requires k < |data| && phy % PAGE_SIZE + |data| <= PAGE_SIZE
    requires Wrote(m, n, m.Cell(c, phy), data[..k], k, true)
    ensures phy + k < 256
    ensures Wrote(m, n.Poke(c, phy + k, data[k]), m.Cell(c, phy), data[..k + 1], k + 1, true)
  {
    var cell, k' := m.Cell(c, phy), k + 1;
    NextCell(m, n, c, phy, data, k);
    PokeIsLinear(n, c, phy + k, data[k]);
    var n': Module, sent := n.Poke(c, phy + k, data[k]), data[..k + 1];
    forall i: nat | i < Size(m.cls)
      ensures WroteAt(m, n', cell, sent, k', true, i)
    {
      assert WroteAt(m, n, cell, data[..k], k, true, i);
      WroteAtExtends(m, n, n', cell, data, k, i);
    }
  }

  /** A failed transaction keeps the block, and the register that addresses it, as it was or as sent. */
  lemma RetryExtends(m: Module, n: Module, n': Module, c: Client, phy: nat, data: seq<byte>, arrived: nat,
                     done: nat, atomic: bool)
    requires m.cls == n.cls && HasClient(m.cls, c) && phy < 256
    requires arrived <= |data| && phy % PAGE_SIZE + |data| <= PAGE_SIZE && |data| > 0
    requires n.Cell(c, phy) == m.Cell(c, phy)
    requires Wrote(m, n, m.Cell(c, phy), data, 0, atomic)
    requires Wrote(n, n', n.Cell(c, phy), data[..arrived], arrived, true)
    requires done <= arrived && (atomic ==> arrived == done)
    ensures Wrote(m, n', m.Cell(c, phy), data, done, atomic)
    ensures n'.Cell(c, phy) == m.Cell(c, phy)
  {
    var cell := m.Cell(c, phy);
    forall i: nat | i < Size(m.cls)
      ensures WroteAt(m, n', cell, data, done, atomic, i)
    {
      assert WroteAt(m, n, cell, data, 0, atomic, i);
      assert WroteAt(n, n', cell, data[..arrived], arrived, true, i);
    }
    SelectIsLinear(n);
    SelectIsLinear(n');
    assert WroteAt(n, n', cell, data[..arrived], arrived, true, SelectAt(m.cls));
  }

  /** What a write does to the page-select register. */
  lemma SelectAfter(m: Module, n: Module, cell: nat, data: seq<byte>, done: nat, atomic: bool)
    requires Wrote(m, n, cell, data, done, atomic) && done <= |data|
    ensures cell <= SelectAt(m.cls) < cell + done ==> n.Select() == data[SelectAt(m.cls) - cell]
    ensures n.Select() == m.Select() ||
            (cell <= SelectAt(m.cls) < cell + |data| && n.Select() == data[SelectAt(m.cls) - cell] &&
             (atomic ==> SelectAt(m.cls) < cell + done))
    ensures WroteButSelect(m, n, cell, data, done, atomic)
  {
    SelectIsLinear(m);
    SelectIsLinear(n);
    assert WroteAt(m, n, cell, data, done, atomic, SelectAt(m.cls));
  }

  /** Blocks written one after the other make up one longer block. */
  lemma WroteExtends(m: Module, n: Module, n': Module, cell: nat, data: seq<byte>, done: nat, more: nat, atomic: bool)
    requires done <= |data|
    requires Wrote(m, n, cell, data, done, atomic)
    requires Wrote(n, n', cell + done, data[done..], more, atomic)
    ensures Wrote(m, n', cell, data, done + more, atomic)
  {
    var rest, cell', done' := data[done..], cell + done, done + more;
    forall i: nat | i < Size(m.cls)
      ensures WroteAt(m, n', cell, data, done', atomic, i)
    {
      assert WroteAt(m, n, cell, data, done, atomic, i);
      assert WroteAt(n, n', cell', rest, more, atomic, i);
    }
  }

  /** A write seen through the register writes before and after it. */
  lemma BracketedWrite(m: Module, n: Module, n': Module, r: Module, cell: nat, data: seq<byte>, done: nat, atomic: bool)
    requires SameButSelect(m, n)
    requires WroteButSelect(n, n', cell, data, done, atomic)
    requires SameButSelect(n', r)
    ensures WroteButSelect(m, r, cell, data, done, atomic)
  {
    forall i: nat | i < Size(m.cls) && i != SelectAt(m.cls)
      ensures WroteAt(m, r, cell, data, done, atomic, i)
    {
      assert SameAt(m, n, i);
      assert WroteAt(n, n', cell, data, done, atomic, i);
      assert SameAt(n', r, i);
    }
  }

  lemma SameInTurn(m: Module, n: Module, n': Module)
    requires SameButSelect(m, n) && SameButSelect(n, n')
    ensures SameButSelect(m, n')
  {
    forall i: nat | i < Size(m.cls) && i != SelectAt(m.cls)
      ensures SameAt(m, n', i)
    {
      assert SameAt(m, n, i) && SameAt(n, n', i);
    }
  }

  /** Reading through a selected page finds the linear bytes as they were before the selection. */
  lemma FilledThroughSelect(buf: seq<byte>, at: nat, n: int, m: Module, m': Module, from: nat)
    requires Filled(buf, at, n, m', from) && SameButSelect(m, m') && SelectAt(m.cls) < from
    ensures Filled(buf, at, n, m, from)
  {
    forall k | at <= k < at + n
      ensures buf[k] == m.At(from + k - at)
    {
      var i: nat := from + k - at;
      assert SameAt(m, m', i);
    }
  }

  lemma NothingSent(m: Module, n: Module, cell: nat, data: seq<byte>, atomic: bool)
    requires SameButSelect(m, n) && cell + |data| <= Size(m.cls)
    ensures WroteButSelect(m, n, cell, data, 0, atomic)
  {
    forall i: nat | i < Size(m.cls) && i != SelectAt(m.cls)
      ensures WroteAt(m, n, cell, data, 0, atomic, i)
    {
      assert SameAt(m, n, i);
    }
  }

  lemma PeeksAreLinear(m: Module, c: Client, phy: nat, count: nat)
    requires HasClient(m.cls, c) && phy < 256 && phy % PAGE_SIZE + count <= PAGE_SIZE
    ensures m.Cell(c, phy) + count <= Size(m.cls)
    ensures forall k: nat :: phy <= k < phy + count ==> m.Peek(c, k) == m.At(m.Cell(c, phy) + k - phy)
  {
  }

  /** What a transfer of up to `count` bytes within one block does to the module and the buffer; `sound` says that no
      read went half done. */
  ghost predicate Accessed(m: Module, n: Module, b: seq<byte>, b': seq<byte>, op: Opcode, at: nat, cell: nat,
                           count: nat, status: int, sound: bool, atomic: bool)
  {
    && at + count <= |b| == |b'|
    && (op.ReadOp? ==> n == m && (sound ==> Filled(b', at, status, m, cell)))
    && (op.WriteOp? ==> b' == b && Wrote(m, n, cell, b[at..at + count], Max(status, 0), atomic))
    && (forall k :: 0 <= k < at || at + count <= k < |b| ==> b'[k] == b[k])
  }

  lemma NothingAccessed(m: Module, b: seq<byte>, op: Opcode, at: nat, cell: nat, count: nat, atomic: bool)
    requires cell + count <= Size(m.cls) && at + count <= |b|
    ensures Accessed(m, m, b, b, op, at, cell, count, 0, true, atomic)
  {
  }

  /** One step of a transfer loop. */
  lemma AccessedExtends(m: Module, n: Module, n': Module, b: seq<byte>, b': seq<byte>, b'': seq<byte>, op: Opcode,
                        c: Client, phy: nat, at: nat, count: nat, done: nat, left: nat, cell: nat, status: int,
                        sound: bool, soundNow: bool, atomic: bool)
    requires HasClient(m.cls, c) && phy < 256 && phy % PAGE_SIZE + count <= PAGE_SIZE
    requires done < count == done + left && status <= left && cell == m.Cell(c, phy) + done
    requires Accessed(m, n, b, b', op, at, m.Cell(c, phy), count, done, sound, atomic)
    requires Accessed(n, n', b', b'', op, at + done, cell, left, status, soundNow, atomic)
    requires n.cls == m.cls && n.Cell(c, phy) == m.Cell(c, phy)
    ensures Accessed(m, n', b, b'', op, at, m.Cell(c, phy), count, done + Max(status, 0), sound && soundNow, atomic)
    ensures n'.cls == m.cls && n'.Cell(c, phy) == m.Cell(c, phy)
  {
    match op {
      case ReadOp =>
        assert forall k :: at <= k < at + done ==> b''[k] == b'[k];
      case WriteOp =>
        var data := b[at..at + count];
        assert data[done..] == b'[at + done..at + done + left];
        WroteExtends(m, n, n', m.Cell(c, phy), data, done, Max(status, 0), atomic);
        SelectAfter(n, n', m.Cell(c, phy) + done, data[done..], Max(status, 0), atomic);
    }
  }

  /** A one-byte write to the page-select register. */
  lemma SelectWritten(m: Module, n: Module, c: Client, page: byte, done: int, atomic: bool)
    requires HasClient(m.cls, c) && IsPaged(m.cls, c) && 0 <= done <= 1
    requires Wrote(m, n, m.Cell(c, PAGE_SELECT_REG), [page], done, atomic)
    ensures SameButSelect(m, n)
    ensures done == 1 ==> n.Select() == page
    ensures n.Select() == page || n.Select() == m.Select()
    ensures done == 0 && atomic ==> n.Select() == m.Select()
  {
    SelectIsLinear(m);
    SelectIsLinear(n);
    assert WroteAt(m, n, m.Cell(c, PAGE_SELECT_REG), [page], done, atomic, SelectAt(m.cls));
    forall i: nat | i < Size(m.cls) && i != SelectAt(m.cls)
      ensures SameAt(m, n, i)
    {
      assert WroteAt(m, n, m.Cell(c, PAGE_SELECT_REG), [page], done, atomic, i);
    }
  }

  /** What the transfer of one block does to the module and the buffer.  `restored` says that the write which
      returns the register to page 0, if there was one, succeeded. */
  ghost predicate ChunkEffect(m: Module, n: Module, b: seq<byte>, b': seq<byte>, op: Opcode, at: nat, off: nat,
                              count: nat, retval: int, restored: bool, sound: bool, atomic: bool)
    requires m.cls == n.cls && at + count <= |b| == |b'|
  {
    && (op.ReadOp? ==>
          (sound ==> Filled(b', at, retval, m, m.Reached(off))) && SameButSelect(m, n))
    && (op.WriteOp? ==>
          b' == b && WroteButSelect(m, n, m.Reached(off), b[at..at + count], Max(retval, 0), atomic))
    && (forall k :: 0 <= k < at || at + count <= k < |b| ==> b'[k] == b[k])
    // Below the paged area the register changes only if the request itself writes it...
    && (off < Base(m.cls) + 2 * PAGE_SIZE ==>
          && restored
          && (n.Select() == m.Select() ||
              (op.WriteOp? && off <= SelectAt(m.cls) < off + count && (atomic ==> SelectAt(m.cls) < off + retval) &&
               n.Select() == b[at + SelectAt(m.cls) - off])))
    && (op.WriteOp? && off <= SelectAt(m.cls) < off + Min(retval, count) ==>
          n.Select() == b[at + SelectAt(m.cls) - off])
    // ...and above it the register comes back to 0, if the page could be selected at all.
    && (Base(m.cls) + 2 * PAGE_SIZE <= off && restored ==>
          n.Select() == 0 || (retval < 0 && (atomic ==> n.Select() == m.Select())))
    // Whatever fails, the register is left at 0 or at the page of the block, or was not reached at all.
    && (Base(m.cls) + 2 * PAGE_SIZE <= off ==>
          n.Select() == 0 || n.Select() == PageOf(m.cls, off) || (retval < 0 && n.Select() == m.Select()))
  }

  /** A block that needs no page selected. */
  lemma UnpagedChunk(m: Module, n: Module, b: seq<byte>, b': seq<byte>, op: Opcode, at: nat, off: nat, count: nat,
                     retval: int, sound: bool, atomic: bool)
    requires m.cls == n.cls && off < Base(m.cls) + 2 * PAGE_SIZE && retval <= count
    requires off % PAGE_SIZE + count <= PAGE_SIZE
    requires Accessed(m, n, b, b', op, at, m.Reached(off), count, retval, sound, atomic)
    ensures ChunkEffect(m, n, b, b', op, at, off, count, retval, true, sound, atomic)
  {
    match op {
      case ReadOp =>
      case WriteOp =>
        SelectAfter(m, n, m.Reached(off), b[at..at + count], Max(retval, 0), atomic);
    }
  }

  /** A block whose page was selected (`n`), transferred (`n'`) and, perhaps, left again (`r`). */
  lemma PagedChunk(m: Module, n: Module, n': Module, r: Module, b: seq<byte>, b': seq<byte>, op: Opcode, at: nat,
                   off: nat, count: nat, retval: int, restored: bool, sound: bool, atomic: bool)
    requires Base(m.cls) + 2 * PAGE_SIZE <= off && retval <= count
    requires SameButSelect(m, n)
    requires Accessed(n, n', b, b', op, at, off, count, retval, sound, atomic)
    requires SameButSelect(n', r)
    requires restored ==> r.Select() == 0
    requires n.Select() == PageOf(m.cls, off) && (r.Select() == 0 || r.Select() == n'.Select())
    ensures r.cls == m.cls
    ensures ChunkEffect(m, r, b, b', op, at, off, count, retval, restored, sound, atomic)
  {
    match op {
      case ReadOp =>
        if sound {
          FilledThroughSelect(b', at, retval, m, n, off);
        }
        SameInTurn(m, n, r);
      case WriteOp =>
        var data := b[at..at + count];
        SelectAfter(n, n', off, data, Max(retval, 0), atomic);
        BracketedWrite(m, n, n', r, off, data, Max(retval, 0), atomic);
    }
  }

  /** A block whose page could not be selected. */
  lemma SelectFailed(m: Module, n: Module, b: seq<byte>, op: Opcode, at: nat, off: nat, count: nat, retval: int,
                     atomic: bool)
    requires Base(m.cls) + 2 * PAGE_SIZE <= off && off + count <= Size(m.cls) && at + count <= |b|
    requires retval < 0 && SameButSelect(m, n) && (atomic ==> n.Select() == m.Select())
    requires n.Select() == PageOf(m.cls, off) || n.Select() == m.Select()
    ensures ChunkEffect(m, n, b, b, op, at, off, count, retval, true, true, atomic)
  {
    NothingSent(m, n, off, b[at..at + count], atomic);
  }
}
