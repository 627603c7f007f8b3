/** What whole requests of the optoe driver do, with whatever page they find selected. */
module OptoeRequests {
  import opened Bytes
  import opened Eeprom
  import opened OptoeEffects

  // The register, and what the window shows.

  /** The range shares no byte with the window. */
  predicate AvoidsWindow(cls: DevClass, off: nat, len: nat) {
    len == 0 || off + len <= Base(cls) + PAGE_SIZE || Base(cls) + 2 * PAGE_SIZE <= off
  }

  /** The addresses reached are the ones asked for if and only if page 0 is selected or the range avoids the window. */
  lemma ThroughIsFlat(cls: DevClass, reg: byte, off: nat, len: nat)
    ensures (forall i :: off <= i < off + len ==> Through(cls, reg, i) == i) <==>
            reg == 0 || AvoidsWindow(cls, off, len)
  {
    if reg != 0 && !AvoidsWindow(cls, off, len) {
      var i := Max(off, Base(cls) + PAGE_SIZE);
      assert off <= i < off + len && Through(cls, reg, i) != i;
    }
  }

  /** Every module of the class that has `reg` in the register shows its linear bytes in this range. */
  ghost predicate ShowsLinear(cls: DevClass, reg: byte, off: nat, len: nat)
    requires off + len <= Size(cls)
  {
    forall m: Module, i: nat :: m.cls == cls && m.Select() == reg && off <= i < off + len ==>
      m.At(m.Reached(i)) == m.At(i)
  }

  /** A module that shows a one in the window where page 0 holds a zero. */
  function WrongPage(cls: DevClass, reg: byte): (m: Module)
    requires reg != 0
    ensures m.cls == cls && m.Select() == reg
    ensures forall i: nat :: InWindow(cls, i) ==> m.At(i) == 0 && m.At(m.Reached(i)) == 1
  {
    Memory(cls, seq(Base(cls), _ => 0), seq(PAGE_SIZE, j => if j == PAGE_SELECT_REG then reg else 0),
           seq(ARCH_PAGES, p => seq(PAGE_SIZE, _ => if p == reg then 1 else 0)))
  }

  /** The exact condition for a read to find the linear bytes, whatever the module holds. */
  lemma ShowsLinearIff(cls: DevClass, reg: byte, off: nat, len: nat)
    requires off + len <= Size(cls)
    ensures ShowsLinear(cls, reg, off, len) <==> reg == 0 || AvoidsWindow(cls, off, len)
  {
    ThroughIsFlat(cls, reg, off, len);
    if reg != 0 && !AvoidsWindow(cls, off, len) {
      var m, i := WrongPage(cls, reg), Max(off, Base(cls) + PAGE_SIZE);
      assert InWindow(cls, i) && m.At(m.Reached(i)) != m.At(i);
    }
  }

  /** Some of the `n` bytes from `off` on are past the window, where the driver selects pages itself. */
  predicate VisitsPages(cls: DevClass, off: nat, n: nat) {
    n > 0 && Base(cls) + 2 * PAGE_SIZE < off + n
  }

  /** The page selected once `done` bytes of a write have arrived that found `reg` in the register. */
  function PageSent(cls: DevClass, reg: byte, off: nat, data: seq<byte>, done: nat): byte
    requires done <= |data|
  {
    if off <= SelectAt(cls) < off + done then data[SelectAt(cls) - off] else reg
  }

  /** The same for a request of either kind, as long as it has visited no pages. */
  function RegisterByte(cls: DevClass, op: Opcode, reg: byte, off: nat, data: seq<byte>, done: nat): byte
    requires done <= |data|
  {
    if op.ReadOp? then reg else PageSent(cls, reg, off, data, done)
  }

  // Where the bytes of a write land.

  /** What linear byte `i`, that held `was`, holds after the first `done` bytes of a write have arrived that found `reg`
      in the register: what was meant for the window is found on the page selected, unless the rest of the write,
      which selects its own pages, has changed it since. */
  function LandedByte(cls: DevClass, reg: byte, off: nat, data: seq<byte>, done: nat, i: nat, was: byte): byte
    requires done <= |data|
  {
    var v := PageSent(cls, reg, off, data, done);
    var j := i - PAGE_SIZE * v;
    if off <= i < off + done && (v == 0 || !InWindow(cls, i)) then data[i - off]
    else if off <= j < off + done && InWindow(cls, j) then data[j - off]
    else was
  }

  /** At linear byte `i`, at least `done` and at most `most` bytes of the write have arrived. */
  ghost predicate LandedAt(m: Module, n: Module, off: nat, data: seq<byte>, done: nat, most: nat, i: nat)
    requires m.cls == n.cls && most <= |data| && i < Size(m.cls)
  {
    exists e :: done <= e <= most && n.At(i) == LandedByte(m.cls, m.Select(), off, data, e, i, m.At(i))
  }

  /** All bytes but the page-select register. */
  ghost predicate Landed(m: Module, n: Module, off: nat, data: seq<byte>, done: nat, most: nat)
    requires m.cls == n.cls && most <= |data|
  {
    forall i: nat :: i < Size(m.cls) && i != SelectAt(m.cls) ==> LandedAt(m, n, off, data, done, most, i)
  }

  /** One more block of a write, seen at one linear byte that holds `now` before the block. */
  lemma LandedByteExtends(cls: DevClass, reg: byte, off: nat, data: seq<byte>, done: nat, count: nat, more: nat,
                          cell: nat, i: nat, was: byte, now: byte)
    requires more <= count && done + count <= |data| && (off + done) % PAGE_SIZE + count <= PAGE_SIZE
    requires now == LandedByte(cls, reg, off, data, done, i, was)
    requires cell == Through(cls, PageSent(cls, reg, off, data, done), off + done)
    ensures LandedByte(cls, reg, off, data, done + more, i, was) ==
            if cell <= i < cell + more then data[done + i - cell] else now
  {
    assert (Base(cls) + PAGE_SIZE) % PAGE_SIZE == 0;
  }

  /** How many bytes of a write request may have reached the module, if `done` were acknowledged. */
  function Sent(data: seq<byte>, done: nat, atomic: bool): (n: nat)
    requires done <= |data|
    ensures done <= n <= |data|
  {
    if atomic then done else |data|
  }

  /** How many bytes may have arrived after one more block, of which `more` bytes were acknowledged. */
  function MostAfter(data: seq<byte>, done: nat, count: nat, more: nat, atomic: bool): (most: nat)
    requires more <= count && done + count <= |data|
    ensures done + more <= most <= |data|
  {
    if more == count then done + more else Sent(data, done + more, atomic)
  }

  lemma LandedAtExtends(m: Module, n: Module, n': Module, off: nat, data: seq<byte>, done: nat, count: nat, more: nat,
                        atomic: bool, i: nat)
    requires m.cls == n.cls == n'.cls && i < Size(m.cls)
    requires more <= count && done + count <= |data| && (off + done) % PAGE_SIZE + count <= PAGE_SIZE
    requires LandedAt(m, n, off, data, done, done, i)
    requires n.Reached(off + done) == Through(m.cls, PageSent(m.cls, m.Select(), off, data, done), off + done)
    requires WroteAt(n, n', n.Reached(off + done), data[done..done + count], more, atomic, i)
    ensures LandedAt(m, n', off, data, done + more, MostAfter(data, done, count, more, atomic), i)
  {
    var cell := n.Reached(off + done);
    var e := if cell + more <= i < cell + count && n'.At(i) != n.At(i) then i - cell + 1 else more;
    LandedByteExtends(m.cls, m.Select(), off, data, done, count, e, cell, i, m.At(i), n.At(i));
    assert n'.At(i) == LandedByte(m.cls, m.Select(), off, data, done + e, i, m.At(i));
  }

  /** One more block of a write, acknowledged or torn, whatever it does to the register. */
  lemma LandedExtends(m: Module, n: Module, n': Module, off: nat, data: seq<byte>, done: nat, count: nat, more: nat,
                      atomic: bool)
    requires m.cls == n.cls && more <= count && done + count <= |data|
    requires (off + done) % PAGE_SIZE + count <= PAGE_SIZE
    requires Landed(m, n, off, data, done, done)
    requires n.Reached(off + done) == Through(m.cls, PageSent(m.cls, m.Select(), off, data, done), off + done)
    requires WroteButSelect(n, n', n.Reached(off + done), data[done..done + count], more, atomic)
    ensures Landed(m, n', off, data, done + more, MostAfter(data, done, count, more, atomic))
  {
    var most, done' := MostAfter(data, done, count, more, atomic), done + more;
    forall i: nat | i < Size(m.cls) && i != SelectAt(m.cls)
      ensures LandedAt(m, n', off, data, done', most, i)
    {
      assert LandedAt(m, n, off, data, done, done, i);
      assert WroteAt(n, n', n.Reached(off + done), data[done..done + count], more, atomic, i);
      LandedAtExtends(m, n, n', off, data, done, count, more, atomic, i);
    }
  }

  // Requests in parts.

  /** The buffer holds the linear bytes that are reached with the register as the request found it. */
  ghost predicate ReadThrough(b: seq<byte>, done: nat, m: Module, off: nat) {
    && off + done <= Size(m.cls) && done <= |b|
    && forall k :: 0 <= k < done ==> b[k] == m.At(m.Reached(off + k))
  }

  /** One more chunk of a read. */
  lemma ReadThroughExtends(m: Module, n: Module, b: seq<byte>, b': seq<byte>, off: nat, done: nat, more: nat)
    requires SameButSelect(m, n)
    requires off + done < Base(m.cls) + 2 * PAGE_SIZE ==> n.Select() == m.Select()
    requires (off + done) % PAGE_SIZE + more <= PAGE_SIZE && off + done + more <= Size(m.cls)
    requires ReadThrough(b, done, m, off) && Filled(b', done, more, n, n.Reached(off + done))
    requires forall k :: 0 <= k < done ==> b'[k] == b[k]
    ensures ReadThrough(b', done + more, m, off)
  {
    SelectIsLinear(m);
    SelectIsLinear(n);
    forall k | 0 <= k < done + more
      ensures b'[k] == m.At(m.Reached(off + k))
    {
      if k < done {
        assert b'[k] == b[k];
      } else {
        var i: nat := m.Reached(off + k);
        assert i == n.Reached(off + done) + k - done;
        assert i == SelectAt(m.cls) || SameAt(m, n, i);
      }
    }
  }

  /** What a request that started in memory `m` has done, with `done` bytes through and at most `most` sent. */
  ghost predicate Served(m: Module, n: Module, b: seq<byte>, op: Opcode, off: nat, data: seq<byte>, done: nat,
                         most: nat, sound: bool)
    requires m.cls == n.cls && done <= most <= |data|
  {
    if op.ReadOp? then SameButSelect(m, n) && (sound ==> ReadThrough(b, done, m, off))
    else Landed(m, n, off, data, done, most)
  }

  /** Between chunks: up to the end of the window the register holds what the request found or sent there; past it, it
      is back at 0, if the restores succeed. */
  ghost predicate Poised(m: Module, n: Module, op: Opcode, off: nat, data: seq<byte>, done: nat, restored: bool)
    requires done <= |data|
  {
    if VisitsPages(m.cls, off, done) then
      n.Select() == 0 || (!restored && n.Select() == PageOf(m.cls, off + done - 1))
    else n.Select() == RegisterByte(m.cls, op, m.Select(), off, data, done)
  }

  /** The register holds what the request found or sent there. */
  ghost predicate Kept(m: Module, n: Module, op: Opcode, off: nat, data: seq<byte>, done: nat, atomic: bool)
    requires done <= |data|
  {
    exists e :: done <= e <= Sent(data, done, atomic) &&
                n.Select() == RegisterByte(m.cls, op, m.Select(), off, data, e)
  }

  /** The page a request of `len` bytes was on when it had `done` bytes through, or was about to select. */
  predicate LeftAt(cls: DevClass, off: nat, len: nat, done: nat, page: byte) {
    || (VisitsPages(cls, off, done) && page == PageOf(cls, off + done - 1))
    || (done < len && Base(cls) + 2 * PAGE_SIZE <= off + done && page == PageOf(cls, off + done))
  }

  /** When the request ends: the register holds what the request found or sent there, or, if the request goes past the
      window and the restores succeed, it is back at 0, unless it fails before that. */
  ghost predicate Settled(m: Module, n: Module, op: Opcode, off: nat, data: seq<byte>, done: nat, restored: bool,
                          atomic: bool)
    requires done <= |data|
  {
    if VisitsPages(m.cls, off, |data|) then
      restored && (atomic || done == |data|) ==>
        || n.Select() == 0
        || (!VisitsPages(m.cls, off, done) && n.Select() == RegisterByte(m.cls, op, m.Select(), off, data, done))
    else
      Kept(m, n, op, off, data, done, atomic)
  }

  /** Whatever fails, the register holds what the request found or sent there, or 0, or the page it was on. */
  ghost predicate Left(m: Module, n: Module, op: Opcode, off: nat, data: seq<byte>, done: nat, atomic: bool)
    requires m.cls == n.cls && done <= |data|
  {
    || (VisitsPages(m.cls, off, |data|) && (n.Select() == 0 || LeftAt(m.cls, off, |data|, done, n.Select())))
    || (!VisitsPages(m.cls, off, done) && Kept(m, n, op, off, data, done, atomic))
  }

  /** A write leaves the caller's buffer alone, a read all of it but the first `len` bytes. */
  ghost predicate Outside(b: seq<byte>, b': seq<byte>, op: Opcode, len: nat) {
    |b'| == |b| && (op.WriteOp? ==> b' == b) && forall k :: len <= k < |b| ==> b'[k] == b[k]
  }

  /** A request with `done` bytes through and more to come. */
  ghost predicate Underway(m: Module, n: Module, b: seq<byte>, b': seq<byte>, op: Opcode, off: nat, data: seq<byte>,
                           done: nat, restored: bool, sound: bool)
  {
    && m.cls == n.cls && done <= |data|
    && Outside(b, b', op, |data|)
    && Served(m, n, b', op, off, data, done, done, sound)
    && Poised(m, n, op, off, data, done, restored)
  }

  /** A request that has ended, in success or failure, with `done` bytes through. */
  ghost predicate Stopped(m: Module, n: Module, b: seq<byte>, b': seq<byte>, op: Opcode, off: nat, data: seq<byte>,
                          done: nat, restored: bool, sound: bool, atomic: bool)
  {
    && m.cls == n.cls && done <= |data|
    && Outside(b, b', op, |data|)
    && Served(m, n, b', op, off, data, done, Sent(data, done, atomic), sound)
    && Settled(m, n, op, off, data, done, restored, atomic) && Left(m, n, op, off, data, done, atomic)
  }

  lemma NothingServed(m: Module, b: seq<byte>, op: Opcode, off: nat, data: seq<byte>, atomic: bool)
    requires off + |data| <= Size(m.cls) && |data| <= |b|
    ensures Underway(m, m, b, b, op, off, data, 0, true, true)
    ensures Stopped(m, m, b, b, op, off, data, 0, true, true, atomic)
  {
    if op.WriteOp? {
      forall i: nat | i < Size(m.cls) && i != SelectAt(m.cls)
        ensures LandedAt(m, m, off, data, 0, 0, i)
      {
        assert m.At(i) == LandedByte(m.cls, m.Select(), off, data, 0, i, m.At(i));
      }
      LandedMore(m, m, off, data, 0, 0, Sent(data, 0, atomic));
    }
    assert m.Select() == RegisterByte(m.cls, op, m.Select(), off, data, 0);
  }

  lemma LandedMore(m: Module, n: Module, off: nat, data: seq<byte>, done: nat, most: nat, most': nat)
    requires m.cls == n.cls && most <= most' <= |data| && Landed(m, n, off, data, done, most)
    ensures Landed(m, n, off, data, done, most')
  {
    forall i: nat | i < Size(m.cls) && i != SelectAt(m.cls)
      ensures LandedAt(m, n, off, data, done, most', i)
    {
      assert LandedAt(m, n, off, data, done, most, i);
    }
  }

  /** One more chunk of a request, on the module's bytes and the buffer. */
  lemma ServedExtends(m: Module, n: Module, n': Module, b: seq<byte>, b': seq<byte>, op: Opcode, off: nat,
                      data: seq<byte>, done: nat, count: nat, retval: int, restored: bool, restoredNow: bool,
                      sound: bool, soundNow: bool, atomic: bool)
    requires n'.cls == n.cls == m.cls && off + |data| <= Size(m.cls)
    requires 0 < count && done + count <= |data| <= |b| == |b'| && retval <= count
    requires (off + done) % PAGE_SIZE + count <= PAGE_SIZE && (op.WriteOp? ==> data == b[..|data|])
    requires Served(m, n, b, op, off, data, done, done, sound) && Poised(m, n, op, off, data, done, restored)
    requires ChunkEffect(n, n', b, b', op, done, off + done, count, retval, restoredNow, soundNow, atomic)
    ensures var done' := done + Max(retval, 0);
            && (retval == count ==> Served(m, n', b', op, off, data, done', done', sound && soundNow))
            && Served(m, n', b', op, off, data, done', Sent(data, done', atomic), sound && soundNow)
  {
    var more := Max(retval, 0);
    match op {
      case ReadOp =>
        SameInTurn(m, n, n');
        if sound && soundNow {
          ReadThroughExtends(m, n, b, b', off, done, more);
        }
      case WriteOp =>
        SliceOfPrefix(b, |data|, done, done + count);
        LandedExtends(m, n, n', off, data, done, count, more, atomic);
        if retval == count {
          LandedMore(m, n', off, data, done + more, done + more, Sent(data, done + more, atomic));
        }
    }
  }

  /** One more chunk of a request that has visited no pages yet, on the register. */
  lemma KeptExtends(m: Module, n: Module, n': Module, b: seq<byte>, b': seq<byte>, op: Opcode, off: nat,
                    data: seq<byte>, done: nat, count: nat, retval: int, restored: bool, restoredNow: bool,
                    soundNow: bool, atomic: bool)
    requires n'.cls == n.cls == m.cls && retval <= count
    requires 0 < count && done + count <= |data| <= |b| == |b'| && (off + done) % PAGE_SIZE + count <= PAGE_SIZE
    requires (op.WriteOp? ==> data == b[..|data|]) && Poised(m, n, op, off, data, done, restored)
    requires ChunkEffect(n, n', b, b', op, done, off + done, count, retval, restoredNow, soundNow, atomic)
    requires off + done < Base(m.cls) + 2 * PAGE_SIZE
    ensures Kept(m, n', op, off, data, done + Max(retval, 0), atomic)
  {
    var done', reg := done + Max(retval, 0), SelectAt(m.cls);
    var e := if op.WriteOp? && off + done' <= reg < off + done + count && n'.Select() != n.Select()
             then reg - off + 1 else done';
    assert n'.Select() == RegisterByte(m.cls, op, m.Select(), off, data, e);
  }

  /** Blocks end at the end of the window. */
  lemma BlockAtWindow(cls: DevClass, at: nat, count: nat)
    requires at % PAGE_SIZE + count <= PAGE_SIZE && at < Base(cls) + 2 * PAGE_SIZE
    ensures at + count <= Base(cls) + 2 * PAGE_SIZE
  {
    assert (Base(cls) + 2 * PAGE_SIZE) % PAGE_SIZE == 0;
  }

  /** One more chunk of a request, on the register. */
  lemma SettledExtends(m: Module, n: Module, n': Module, b: seq<byte>, b': seq<byte>, op: Opcode, off: nat,
                       data: seq<byte>, done: nat, count: nat, retval: int, restored: bool, restoredNow: bool,
                       soundNow: bool, atomic: bool)
    requires n'.cls == n.cls == m.cls && retval <= count
    requires 0 < count && done + count <= |data| <= |b| == |b'| && (off + done) % PAGE_SIZE + count <= PAGE_SIZE
    requires (op.WriteOp? ==> data == b[..|data|]) && Poised(m, n, op, off, data, done, restored)
    requires ChunkEffect(n, n', b, b', op, done, off + done, count, retval, restoredNow, soundNow, atomic)
    ensures var done' := done + Max(retval, 0);
            && (retval == count ==> Poised(m, n', op, off, data, done', restored && restoredNow))
            && Settled(m, n', op, off, data, done', restored && restoredNow, atomic)
  {
    if off + done < Base(m.cls) + 2 * PAGE_SIZE {
      BlockAtWindow(m.cls, off + done, count);
      KeptExtends(m, n, n', b, b', op, off, data, done, count, retval, restored, restoredNow, soundNow, atomic);
    } else {
      SamePage(m.cls, off, done, count, Max(retval, 0));
    }
  }

  /** The bytes of a block past the window are all on its page. */
  lemma SamePage(cls: DevClass, off: nat, done: nat, count: nat, more: nat)
    requires (off + done) % PAGE_SIZE + count <= PAGE_SIZE && more <= count
    requires Base(cls) + 2 * PAGE_SIZE <= off + done
    ensures more > 0 ==> PageOf(cls, off + done + more - 1) == PageOf(cls, off + done)
  {
    assert Base(cls) % PAGE_SIZE == 0;
  }

  lemma LeftExtends(m: Module, n: Module, n': Module, b: seq<byte>, b': seq<byte>, op: Opcode, off: nat,
                    data: seq<byte>, done: nat, count: nat, retval: int, restored: bool, restoredNow: bool,
                    soundNow: bool, atomic: bool)
    requires n'.cls == n.cls == m.cls && retval <= count
    requires 0 < count && done + count <= |data| <= |b| == |b'| && (off + done) % PAGE_SIZE + count <= PAGE_SIZE
    requires (op.WriteOp? ==> data == b[..|data|]) && Poised(m, n, op, off, data, done, restored)
    requires ChunkEffect(n, n', b, b', op, done, off + done, count, retval, restoredNow, soundNow, atomic)
    ensures Left(m, n', op, off, data, done + Max(retval, 0), atomic)
  {
    if off + done < Base(m.cls) + 2 * PAGE_SIZE {
      BlockAtWindow(m.cls, off + done, count);
      KeptExtends(m, n, n', b, b', op, off, data, done, count, retval, restored, restoredNow, soundNow, atomic);
    } else {
      SamePage(m.cls, off, done, count, Max(retval, 0));
      if !VisitsPages(m.cls, off, done + Max(retval, 0)) && n'.Select() == n.Select() {
        assert n'.Select() == RegisterByte(m.cls, op, m.Select(), off, data, done);
      }
    }
  }

  /** One more chunk of a request. */
  lemma ChunkServed(m: Module, n: Module, n': Module, b0: seq<byte>, b: seq<byte>, b': seq<byte>, op: Opcode,
                    off: nat, data: seq<byte>, done: nat, at: nat, count: nat, retval: int, restored: bool,
                    restoredNow: bool, sound: bool, soundNow: bool, atomic: bool)
    requires n'.cls == m.cls && off + |data| <= Size(m.cls)
    requires 0 < count && done + count <= |data| <= |b| == |b'| == |b0| && retval <= count
    requires at == off + done && at % PAGE_SIZE + count <= PAGE_SIZE
    requires data == b0[..|data|] && Underway(m, n, b0, b, op, off, data, done, restored, sound)
    requires ChunkEffect(n, n', b, b', op, done, at, count, retval, restoredNow, soundNow, atomic)
    ensures retval == count ==>
              Underway(m, n', b0, b', op, off, data, done + Max(retval, 0), restored && restoredNow, sound && soundNow)
    ensures Stopped(m, n', b0, b', op, off, data, done + Max(retval, 0), restored && restoredNow, sound && soundNow,
                    atomic)
  {
    ServedExtends(m, n, n', b, b', op, off, data, done, count, retval, restored, restoredNow, sound, soundNow, atomic);
    SettledExtends(m, n, n', b, b', op, off, data, done, count, retval, restored, restoredNow, soundNow, atomic);
    LeftExtends(m, n, n', b, b', op, off, data, done, count, retval, restored, restoredNow, soundNow, atomic);
  }

  lemma SliceOfPrefix(b: seq<byte>, n: nat, i: nat, j: nat)
    requires i <= j <= n <= |b|
    ensures b[..n][i..j] == b[i..j]
  {
  }

  // Requests that leave page 0 selected.

  /** The bytes sent put nothing but zero into the page-select register. */
  ghost predicate Harmless(cls: DevClass, off: nat, data: seq<byte>) {
    off <= SelectAt(cls) < off + |data| ==> data[SelectAt(cls) - off] == 0
  }

  /** The request started from page 0 and, if it is a write, has not disturbed the page register. */
  ghost predicate Undisturbed(m: Module, op: Opcode, off: nat, data: seq<byte>, done: nat, atomic: bool)
    requires done <= |data|
  {
    m.Select() == 0 && (op.WriteOp? ==> Harmless(m.cls, off, data[..Sent(data, done, atomic)]))
  }

  /** Such a read finds the linear bytes. */
  lemma FlatRead(m: Module, b: seq<byte>, off: nat, done: nat)
    requires ReadThrough(b, done, m, off) && (m.Select() == 0 || AvoidsWindow(m.cls, off, done))
    ensures Filled(b, 0, done, m, off)
  {
    ThroughIsFlat(m.cls, m.Select(), off, done);
    forall k | 0 <= k < done
      ensures b[k] == m.At(off + k)
    {
      assert Through(m.cls, m.Select(), off + k) == off + k;
    }
  }

  /** Such a write goes where it was meant to. */
  lemma FlatWrite(m: Module, n: Module, off: nat, data: seq<byte>, done: nat, atomic: bool)
    requires m.cls == n.cls && done <= |data| && off + |data| <= Size(m.cls)
    requires Landed(m, n, off, data, done, Sent(data, done, atomic))
    requires Undisturbed(m, WriteOp, off, data, done, atomic)
    ensures WroteButSelect(m, n, off, data, done, atomic)
  {
    forall i: nat | i < Size(m.cls) && i != SelectAt(m.cls)
      ensures WroteAt(m, n, off, data, done, atomic, i)
    {
      assert LandedAt(m, n, off, data, done, Sent(data, done, atomic), i);
    }
  }

  /** And page 0 is selected again. */
  lemma FlatSettled(m: Module, n: Module, op: Opcode, off: nat, data: seq<byte>, done: nat, atomic: bool)
    requires m.cls == n.cls && done <= |data|
    requires Settled(m, n, op, off, data, done, true, atomic) && (atomic || done == |data|)
    requires Undisturbed(m, op, off, data, done, atomic)
    ensures n.Select() == 0
  {
  }

  /** The module is ready for the next request and its linear image is `flat`. */
  ghost predicate InStep(m: Module, flat: seq<byte>)
  {
    m.Select() == 0 && m.Linear() == flat
  }

  /** With writes atomic and page 0 restored, a write request amounts to a write to a flat array if and only if
      it sends nothing but zero to the page-select register. */
  lemma WriteInStep(m: Module, n: Module, off: nat, data: seq<byte>, done: nat)
    requires m.cls == n.cls && off + |data| <= Size(m.cls) && done <= |data|
    requires m.Select() == 0
    requires Landed(m, n, off, data, done, done) && Settled(m, n, WriteOp, off, data, done, true, true)
    ensures InStep(n, Splice(m.Linear(), off, data[..done])) <==> Harmless(m.cls, off, data[..done])
  {
    var flat := Splice(m.Linear(), off, data[..done]);
    SelectIsLinear(m);
    SelectIsLinear(n);
    if Harmless(m.cls, off, data[..done]) {
      FlatWrite(m, n, off, data, done, true);
      FlatSettled(m, n, WriteOp, off, data, done, true);
      forall i: nat | i < Size(m.cls)
        ensures n.Linear()[i] == flat[i]
      {
        assert i == SelectAt(m.cls) || WroteAt(m, n, off, data, done, true, i);
      }
    } else {
      assert flat[SelectAt(m.cls)] != 0;
    }
  }

  /** When a request ends, page 0 is selected if it was and was not disturbed, and an atomic write amounts to a flat
      one exactly when it sent nothing but zero to the register. */
  lemma FlatEnd(m: Module, n: Module, b: seq<byte>, op: Opcode, off: nat, data: seq<byte>, done: nat, restored: bool,
                sound: bool, atomic: bool)
    requires m.cls == n.cls && off + |data| <= Size(m.cls) && done <= |data|
    requires Served(m, n, b, op, off, data, done, Sent(data, done, atomic), sound)
    requires Settled(m, n, op, off, data, done, restored, atomic)
    ensures restored && (atomic || done == |data|) && Undisturbed(m, op, off, data, done, atomic) ==> n.Select() == 0
    ensures op.WriteOp? && restored && atomic && m.Select() == 0 ==>
              (InStep(n, Splice(m.Linear(), off, data[..done])) <==> Harmless(m.cls, off, data[..done]))
  {
    if restored && (atomic || done == |data|) && Undisturbed(m, op, off, data, done, atomic) {
      FlatSettled(m, n, op, off, data, done, atomic);
    }
    if op.WriteOp? && restored && atomic && m.Select() == 0 {
      WriteInStep(m, n, off, data, done);
    }
  }

  /** An atomic write that finds or sends a non-zero byte in the register leaves page 0 of the window alone: what was
      meant for it is found on the page selected, except where the same request goes on to write to that page. */
  lemma MisdirectedWrite(m: Module, n: Module, off: nat, data: seq<byte>, done: nat)
    requires m.cls == n.cls && done <= |data| && off + done <= Size(m.cls)
    requires Landed(m, n, off, data, done, done) && PageSent(m.cls, m.Select(), off, data, done) != 0
    ensures forall i :: InWindow(m.cls, i) ==> n.At(i) == m.At(i)
    ensures var shift := PAGE_SIZE * PageSent(m.cls, m.Select(), off, data, done);
            forall i :: InWindow(m.cls, i) && off <= i < off + done && off + done <= i + shift ==>
              n.At(i + shift) == data[i - off]
  {
    var v := PageSent(m.cls, m.Select(), off, data, done);
    forall i: int | InWindow(m.cls, i)
      ensures n.At(i) == m.At(i)
      ensures off <= i < off + done && off + done <= i + PAGE_SIZE * v ==> n.At(i + PAGE_SIZE * v) == data[i - off]
    {
      assert LandedAt(m, n, off, data, done, done, i);
      assert LandedAt(m, n, off, data, done, done, i + PAGE_SIZE * v);
    }
  }
}
