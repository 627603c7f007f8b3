/** Whole runs of requests against the optoe driver, on the linear image of the module, register included: what every
    request does with whatever page it finds selected, and when that is what one flat byte array would do. */
module OptoeRuns {
  import opened Bytes
  import opened Eeprom
  import opened OptoeBus
  import opened OptoeDriver
  import opened OptoeEffects
  import opened OptoeRequests

  datatype Request = Read(off: int, len: nat) | Write(off: int, data: seq<byte>)

  datatype Reply = Reply(result: int, data: seq<byte>)

  function Length(req: Request): nat { if req.Read? then req.len else |req.data| }

  type Image = seq<byte>

  /** The page that the register selects. */
  function Page(cls: DevClass, flat: Image): byte
    requires |flat| == Size(cls)
  {
    flat[SelectAt(cls)]
  }

  /** The supported size, read off a flat image. */
  function FlatSupported(cls: DevClass, flat: Image): (n: nat)
    requires |flat| == Size(cls)
    ensures 256 <= n <= |flat|
  {
    if cls.OneAddr? then (if Bit(flat[2], 4) then 256 else |flat|)
    else if Bit(flat[64], 16) then |flat|
    else if Bit(flat[92], 64) then 512
    else 256
  }

  /** What a request returns that meets no fault. */
  function FlatResult(cls: DevClass, flat: Image, off: int, len: nat): int
    requires |flat| == Size(cls)
  {
    if len == 0 then 0
    else if off < 0 then EINVAL
    else if off >= FlatSupported(cls, flat) then EOF
    else Min(len, FlatSupported(cls, flat) - off)
  }

  /** The capability bits of a flat image, as those of a module. */
  lemma FlatSupportedOneAddr(flat: Image, above: nat, bit: nat, below: nat)
    requires |flat| == Size(OneAddr) && Split(flat[2], 4, above, bit, below)
    ensures FlatSupported(OneAddr, flat) == if bit == 1 then 256 else 32896
  {
    BitOfSplit(flat[2], 4, above, bit, below);
  }

  lemma FlatSupportedTwoAddr(flat: Image, above: nat, pages: nat, below: nat, above': nat, second: nat, below': nat)
    requires |flat| == Size(TwoAddr)
    requires Split(flat[64], 16, above, pages, below) && Split(flat[92], 64, above', second, below')
    ensures FlatSupported(TwoAddr, flat) == if pages == 1 then 33152 else if second == 1 then 512 else 256
  {
    BitOfSplit(flat[64], 16, above, pages, below);
    BitOfSplit(flat[92], 64, above', second, below');
  }

  /** A flat array answers a request with as many bytes as are within its supported size. */
  lemma FlatResultIsSupported(cls: DevClass, flat: Image, off: int, len: nat, k: nat)
    requires |flat| == Size(cls)
    ensures k < FlatResult(cls, flat, off, len) <==> k < len && 0 <= off && off + k < FlatSupported(cls, flat)
    ensures FlatResult(cls, flat, off, len) < 0 <==> off < 0 && len > 0
  {
  }

  // One request.

  /** The bytes that a read of `n` bytes from `off` on is shown. */
  function Seen(cls: DevClass, flat: Image, off: nat, n: nat): (s: seq<byte>)
    requires |flat| == Size(cls) && off + n <= |flat|
    ensures |s| == n
  {
    seq(n, k requires 0 <= k < n => flat[Through(cls, Page(cls, flat), off + k)])
  }

  /** The reply keeps to the request and the linear space.  Unless a read went half done, only a fault of this request
      cuts it short, and a read returns what the register shows. */
  ghost predicate Replied(cls: DevClass, flat: Image, req: Request, reply: Reply, t: Tally, t': Tally)
    requires |flat| == Size(cls)
  {
    var full := FlatResult(cls, flat, req.off, Length(req));
    && reply.result <= Length(req) && (reply.result > 0 ==> 0 <= req.off && req.off + reply.result <= |flat|)
    && (t'.wire.halfReads == t.wire.halfReads ==>
          && reply.result <= Max(full, 0)
          && (t'.lost == t.lost ==> reply.result == full)
          && (req.Read? && reply.result > 0 ==> reply.data == Seen(cls, flat, req.off, reply.result)))
  }

  /** The bytes of a request that are through. */
  function Done(req: Request, reply: Reply): nat {
    Max(0, Min(reply.result, Length(req)))
  }

  /** How many bytes of a write may have arrived: all that are through and, of a write that is torn, more. */
  ghost predicate MayArrive(req: Request, reply: Reply, t: Tally, t': Tally, atomic: bool, e: nat) {
    Done(req, reply) <= e <= Length(req) && (atomic || t'.lost == t.lost ==> e == Done(req, reply))
  }

  ghost predicate ByteIs(cls: DevClass, flat: Image, flat': Image, req: Request, reply: Reply, t: Tally, t': Tally,
                         atomic: bool, i: nat)
    requires |flat| == |flat'| == Size(cls) && i < |flat|
  {
    if req.Write? && 0 <= req.off then
      exists e: nat :: MayArrive(req, reply, t, t', atomic, e) &&
                       flat'[i] == LandedByte(cls, Page(cls, flat), req.off, req.data, e, i, flat[i])
    else flat'[i] == flat[i]
  }

  /** The bytes of a write are where the register lets them land; a read changes nothing. */
  ghost predicate Imaged(cls: DevClass, flat: Image, flat': Image, req: Request, reply: Reply, t: Tally, t': Tally,
                         atomic: bool)
    requires |flat| == |flat'| == Size(cls)
  {
    forall i: nat :: i < |flat| && i != SelectAt(cls) ==> ByteIs(cls, flat, flat', req, reply, t, t', atomic, i)
  }

  /** What a request that has visited no pages leaves in the register when `e` of its bytes have arrived. */
  function PageAfter(cls: DevClass, reg: byte, req: Request, e: nat): byte
    requires 0 <= req.off && e <= Length(req)
  {
    if req.Read? then reg else PageSent(cls, reg, req.off, req.data, e)
  }

  ghost predicate PageKept(cls: DevClass, flat: Image, flat': Image, req: Request, reply: Reply, t: Tally, t': Tally,
                           atomic: bool)
    requires |flat| == |flat'| == Size(cls) && 0 <= req.off
  {
    exists e: nat :: MayArrive(req, reply, t, t', atomic, e) &&
                     Page(cls, flat') == PageAfter(cls, Page(cls, flat), req, e)
  }

  /** The register holds what it held or was sent; past the window it is back at page 0, if the restores succeed.  A
      request that goes past the window may also be cut short between the two. */
  ghost predicate Paged(cls: DevClass, flat: Image, flat': Image, req: Request, reply: Reply, t: Tally, t': Tally,
                        atomic: bool)
    requires |flat| == |flat'| == Size(cls)
  {
    if req.off < 0 then Page(cls, flat') == Page(cls, flat)
    else
      var done := Done(req, reply);
      t'.unrestored == t.unrestored && (atomic || t'.lost == t.lost) ==>
        if VisitsPages(cls, req.off, done) then Page(cls, flat') == 0
        else
          || Page(cls, flat') == PageAfter(cls, Page(cls, flat), req, done)
          || (t'.lost != t.lost && VisitsPages(cls, req.off, Length(req)) && Page(cls, flat') == 0)
  }

  /** Whatever fails, the register holds what it held or was sent, or 0, or the page the request was on. */
  ghost predicate PageLeft(cls: DevClass, flat: Image, flat': Image, req: Request, reply: Reply, t: Tally, t': Tally,
                           atomic: bool)
    requires |flat| == |flat'| == Size(cls)
  {
    0 <= req.off ==>
      || (VisitsPages(cls, req.off, Length(req)) &&
          (Page(cls, flat') == 0 || LeftAt(cls, req.off, Length(req), Done(req, reply), Page(cls, flat'))))
      || (!VisitsPages(cls, req.off, Done(req, reply)) && PageKept(cls, flat, flat', req, reply, t, t', atomic))
  }

  /** What one request does to the image, with the faults counted before and after it. */
  ghost predicate Step(cls: DevClass, flat: Image, flat': Image, req: Request, reply: Reply, t: Tally, t': Tally,
                       adapter: Adapter, atomic: bool)
    requires |flat| == |flat'| == Size(cls)
  {
    && Grew(t, t', adapter)
    && Replied(cls, flat, req, reply, t, t')
    && Imaged(cls, flat, flat', req, reply, t, t', atomic)
    && Paged(cls, flat, flat', req, reply, t, t', atomic)
    && PageLeft(cls, flat, flat', req, reply, t, t', atomic)
  }

  lemma LegalIsFlat(m: Module, off: nat, len: nat)
    requires len > 0
    ensures FlatResult(m.cls, m.Linear(), off, len) == Legal(m, off, len)
  {
  }

  lemma PageIsSelect(m: Module)
    ensures Page(m.cls, m.Linear()) == m.Select()
  {
    SelectIsLinear(m);
  }

  /** A request that does nothing at all. */
  lemma NothingImaged(cls: DevClass, flat: Image, req: Request, reply: Reply, t: Tally, t': Tally, atomic: bool)
    requires |flat| == Size(cls) && reply.result <= 0
    ensures Imaged(cls, flat, flat, req, reply, t, t', atomic) && Paged(cls, flat, flat, req, reply, t, t', atomic)
    ensures PageLeft(cls, flat, flat, req, reply, t, t', atomic)
  {
    if req.Write? && 0 <= req.off {
      forall i: nat | i < |flat| && i != SelectAt(cls)
        ensures ByteIs(cls, flat, flat, req, reply, t, t', atomic, i)
      {
        assert MayArrive(req, reply, t, t', atomic, 0);
        assert flat[i] == LandedByte(cls, Page(cls, flat), req.off, req.data, 0, i, flat[i]);
      }
    }
    if 0 <= req.off {
      assert MayArrive(req, reply, t, t', atomic, 0);
      assert Page(cls, flat) == PageAfter(cls, Page(cls, flat), req, 0);
    }
  }

  lemma ReadIsImaged(m: Module, n: Module, req: Request, reply: Reply, t: Tally, t': Tally, atomic: bool)
    requires req.Read? && SameButSelect(m, n)
    ensures Imaged(m.cls, m.Linear(), n.Linear(), req, reply, t, t', atomic)
  {
    forall i: nat | i < Size(m.cls) && i != SelectAt(m.cls)
      ensures ByteIs(m.cls, m.Linear(), n.Linear(), req, reply, t, t', atomic, i)
    {
      assert SameAt(m, n, i);
    }
  }

  /** The driver's account of a write, of which `legal` bytes were legal, in terms of the images. */
  lemma WriteIsImaged(m: Module, n: Module, req: Request, legal: nat, reply: Reply, t: Tally, t': Tally, atomic: bool)
    requires m.cls == n.cls && req.Write? && 0 <= req.off
    requires legal <= |req.data| && reply.result <= legal && (t'.lost == t.lost ==> reply.result == legal)
    requires var data := req.data[..legal]; var done := Max(reply.result, 0);
             Landed(m, n, req.off, data, done, Sent(data, done, atomic))
    ensures Imaged(m.cls, m.Linear(), n.Linear(), req, reply, t, t', atomic)
  {
    var data, done := req.data[..legal], Max(reply.result, 0);
    PageIsSelect(m);
    forall i: nat | i < Size(m.cls) && i != SelectAt(m.cls)
      ensures ByteIs(m.cls, m.Linear(), n.Linear(), req, reply, t, t', atomic, i)
    {
      assert LandedAt(m, n, req.off, data, done, Sent(data, done, atomic), i);
      var e :| done <= e <= Sent(data, done, atomic) &&
               n.At(i) == LandedByte(m.cls, m.Select(), req.off, data, e, i, m.At(i));
      assert MayArrive(req, reply, t, t', atomic, e);
      LandedOfPrefix(m.cls, m.Select(), req.off, req.data, legal, e, i, m.At(i));
    }
  }

  lemma LandedOfPrefix(cls: DevClass, reg: byte, off: nat, data: seq<byte>, legal: nat, e: nat, i: nat, was: byte)
    requires e <= legal <= |data|
    ensures LandedByte(cls, reg, off, data[..legal], e, i, was) == LandedByte(cls, reg, off, data, e, i, was)
  {
  }

  /** The driver's account of the register, in terms of the images. */
  lemma SettledIsPaged(m: Module, n: Module, op: Opcode, data: seq<byte>, req: Request, reply: Reply, t: Tally,
                       t': Tally, atomic: bool)
    requires m.cls == n.cls && 0 <= req.off && |data| <= Length(req)
    requires op == (if req.Read? then ReadOp else WriteOp) && (req.Write? ==> data == req.data[..|data|])
    requires reply.result <= |data| && (t'.lost == t.lost <==> reply.result == |data|)
    requires Settled(m, n, op, req.off, data, Max(reply.result, 0), t'.unrestored == t.unrestored, atomic)
    ensures Paged(m.cls, m.Linear(), n.Linear(), req, reply, t, t', atomic)
  {
    PageIsSelect(m);
    PageIsSelect(n);
  }

  lemma KeptIsPageKept(m: Module, n: Module, op: Opcode, data: seq<byte>, req: Request, reply: Reply, t: Tally,
                       t': Tally, atomic: bool)
    requires m.cls == n.cls && 0 <= req.off && |data| <= Length(req)
    requires op == (if req.Read? then ReadOp else WriteOp) && (req.Write? ==> data == req.data[..|data|])
    requires reply.result <= |data| && (t'.lost == t.lost <==> reply.result == |data|)
    requires Kept(m, n, op, req.off, data, Max(reply.result, 0), atomic)
    ensures PageKept(m.cls, m.Linear(), n.Linear(), req, reply, t, t', atomic)
  {
    PageIsSelect(m);
    PageIsSelect(n);
    var done := Max(reply.result, 0);
    var e :| done <= e <= Sent(data, done, atomic) &&
             n.Select() == RegisterByte(m.cls, op, m.Select(), req.off, data, e);
    assert MayArrive(req, reply, t, t', atomic, e);
    assert Page(m.cls, n.Linear()) == PageAfter(m.cls, Page(m.cls, m.Linear()), req, e);
  }

  /** The legal part of a request goes no further than the request. */
  lemma LeftAtExtends(cls: DevClass, off: nat, legal: nat, len: nat, done: nat, page: byte)
    requires done <= legal <= len
    ensures VisitsPages(cls, off, legal) ==> VisitsPages(cls, off, len)
    ensures LeftAt(cls, off, legal, done, page) ==> LeftAt(cls, off, len, done, page)
  {
  }

  lemma LeftIsPageLeft(m: Module, n: Module, op: Opcode, data: seq<byte>, req: Request, reply: Reply, t: Tally,
                       t': Tally, atomic: bool)
    requires m.cls == n.cls && 0 <= req.off && |data| <= Length(req)
    requires op == (if req.Read? then ReadOp else WriteOp) && (req.Write? ==> data == req.data[..|data|])
    requires reply.result <= |data| && (t'.lost == t.lost <==> reply.result == |data|)
    requires Left(m, n, op, req.off, data, Max(reply.result, 0), atomic)
    ensures PageLeft(m.cls, m.Linear(), n.Linear(), req, reply, t, t', atomic)
  {
    var done := Max(reply.result, 0);
    if !VisitsPages(m.cls, req.off, done) && Kept(m, n, op, req.off, data, done, atomic) {
      KeptIsPageKept(m, n, op, data, req, reply, t, t', atomic);
    } else {
      PageIsSelect(n);
      LeftAtExtends(m.cls, req.off, |data|, Length(req), done, n.Select());
    }
  }

  method ServeRead(dev: Optoe, off: int, len: nat) returns (reply: Reply)
    modifies dev, dev.bus
    ensures dev.bus.mem.cls == old(dev.bus.mem.cls)
    ensures Step(dev.bus.mem.cls, old(dev.bus.mem.Linear()), dev.bus.mem.Linear(), Read(off, len), reply,
                 old(dev.Counts()), dev.Counts(), dev.bus.adapter, dev.bus.atomic)
  {
    ghost var m, t, req := dev.bus.mem, dev.Counts(), Read(off, len);
    if 0 <= off && len > 0 {
      LegalIsFlat(m, off, len);
    }
    var buf := new byte[len];
    ghost var b := buf[..];
    var r, legal := dev.ReadWrite(buf, off, len, ReadOp);
    reply := Reply(r, if r > 0 then buf[..r] else []);
    if legal > 0 {
      PageIsSelect(m);
      ReadIsImaged(m, dev.bus.mem, req, reply, t, dev.Counts(), dev.bus.atomic);
      SettledIsPaged(m, dev.bus.mem, ReadOp, b[..legal], req, reply, t, dev.Counts(), dev.bus.atomic);
      LeftIsPageLeft(m, dev.bus.mem, ReadOp, b[..legal], req, reply, t, dev.Counts(), dev.bus.atomic);
    } else {
      NothingImaged(m.cls, m.Linear(), req, reply, t, dev.Counts(), dev.bus.atomic);
    }
  }

  method ServeWrite(dev: Optoe, off: int, data: seq<byte>) returns (reply: Reply)
    modifies dev, dev.bus
    ensures dev.bus.mem.cls == old(dev.bus.mem.cls)
    ensures Step(dev.bus.mem.cls, old(dev.bus.mem.Linear()), dev.bus.mem.Linear(), Write(off, data), reply,
                 old(dev.Counts()), dev.Counts(), dev.bus.adapter, dev.bus.atomic)
  {
    ghost var m, t, req := dev.bus.mem, dev.Counts(), Write(off, data);
    if 0 <= off && |data| > 0 {
      LegalIsFlat(m, off, |data|);
    }
    var buf := new byte[|data|](i requires 0 <= i < |data| => data[i]);
    assert buf[..] == data;
    var r, legal := dev.ReadWrite(buf, off, |data|, WriteOp);
    reply := Reply(r, []);
    if legal > 0 {
      WriteIsImaged(m, dev.bus.mem, req, legal, reply, t, dev.Counts(), dev.bus.atomic);
      SettledIsPaged(m, dev.bus.mem, WriteOp, data[..legal], req, reply, t, dev.Counts(), dev.bus.atomic);
      LeftIsPageLeft(m, dev.bus.mem, WriteOp, data[..legal], req, reply, t, dev.Counts(), dev.bus.atomic);
    } else {
      NothingImaged(m.cls, m.Linear(), req, reply, t, dev.Counts(), dev.bus.atomic);
    }
  }

  method Serve(dev: Optoe, req: Request) returns (reply: Reply)
    modifies dev, dev.bus
    ensures dev.bus.mem.cls == old(dev.bus.mem.cls)
    ensures Step(dev.bus.mem.cls, old(dev.bus.mem.Linear()), dev.bus.mem.Linear(), req, reply,
                 old(dev.Counts()), dev.Counts(), dev.bus.adapter, dev.bus.atomic)
  {
    match req {
      case Read(off, len) =>
        reply := ServeRead(dev, off, len);
      case Write(off, data) =>
        reply := ServeWrite(dev, off, data);
    }
  }

  // Runs.

  /** Every request of a run is a step from one image to the next. */
  ghost predicate Run(cls: DevClass, images: seq<Image>, reqs: seq<Request>, replies: seq<Reply>, tallies: seq<Tally>,
                      adapter: Adapter, atomic: bool)
  {
    && |images| == |tallies| == |reqs| + 1 == |replies| + 1
    && (forall k :: 0 <= k < |images| ==> |images[k]| == Size(cls))
    && forall k :: 0 <= k < |reqs| ==> StepAt(cls, images, reqs, replies, tallies, adapter, atomic, k)
  }

  ghost predicate StepAt(cls: DevClass, images: seq<Image>, reqs: seq<Request>, replies: seq<Reply>,
                         tallies: seq<Tally>, adapter: Adapter, atomic: bool, k: nat)
    requires k < |reqs| == |replies| && |reqs| < |images| && |reqs| < |tallies|
    requires |images[k]| == |images[k + 1]| == Size(cls)
  {
    Step(cls, images[k], images[k + 1], reqs[k], replies[k], tallies[k], tallies[k + 1], adapter, atomic)
  }

  lemma RunExtends(cls: DevClass, images: seq<Image>, reqs: seq<Request>, replies: seq<Reply>, tallies: seq<Tally>,
                   adapter: Adapter, atomic: bool, image: Image, req: Request, reply: Reply, tally: Tally)
    requires Run(cls, images, reqs, replies, tallies, adapter, atomic) && |image| == Size(cls)
    requires Step(cls, images[|reqs|], image, req, reply, tallies[|reqs|], tally, adapter, atomic)
    ensures Run(cls, images + [image], reqs + [req], replies + [reply], tallies + [tally], adapter, atomic)
  {
    var images', reqs', replies', tallies' := images + [image], reqs + [req], replies + [reply], tallies + [tally];
    forall k | 0 <= k < |reqs'|
      ensures StepAt(cls, images', reqs', replies', tallies', adapter, atomic, k)
    {
      if k < |reqs| {
        assert StepAt(cls, images, reqs, replies, tallies, adapter, atomic, k);
      }
    }
  }

  /** Over any run of requests, each one is answered, and changes the module, as its register says; `images` and
      `tallies` are the linear images and the faults counted before each request and after the last. */
  method ServeAll(dev: Optoe, reqs: seq<Request>)
    returns (replies: seq<Reply>, ghost images: seq<Image>, ghost tallies: seq<Tally>)
    modifies dev, dev.bus
    ensures dev.bus.mem.cls == old(dev.bus.mem.cls)
    ensures Run(dev.bus.mem.cls, images, reqs, replies, tallies, dev.bus.adapter, dev.bus.atomic)
    ensures images[0] == old(dev.bus.mem.Linear()) && images[|reqs|] == dev.bus.mem.Linear()
    ensures tallies[0] == old(dev.Counts()) && tallies[|reqs|] == dev.Counts()
  {
    replies, images, tallies := [], [dev.bus.mem.Linear()], [dev.Counts()];
    for n := 0 to |reqs|
      invariant dev.bus.mem.cls == old(dev.bus.mem.cls)
      invariant Run(dev.bus.mem.cls, images, reqs[..n], replies, tallies, dev.bus.adapter, dev.bus.atomic)
      invariant images[0] == old(dev.bus.mem.Linear()) && images[n] == dev.bus.mem.Linear()
      invariant tallies[0] == old(dev.Counts()) && tallies[n] == dev.Counts()
    {
      var reply := Serve(dev, reqs[n]);
      RunExtends(dev.bus.mem.cls, images, reqs[..n], replies, tallies, dev.bus.adapter, dev.bus.atomic,
                 dev.bus.mem.Linear(), reqs[n], reply, dev.Counts());
      replies, images, tallies := replies + [reply], images + [dev.bus.mem.Linear()], tallies + [dev.Counts()];
      assert reqs[..n + 1] == reqs[..n] + [reqs[n]];
    }
    assert reqs[..|reqs|] == reqs;
  }

  // When a flat array would do the same.

  /** A flat array after a request that returned `reply`. */
  function FlatNext(flat: Image, req: Request, reply: Reply): (next: Image)
    ensures |next| == |flat|
  {
    if req.Write? && 0 <= req.off && 0 < reply.result <= |req.data| && req.off + reply.result <= |flat| then
      Splice(flat, req.off, req.data[..reply.result])
    else flat
  }

  /** Whether a reply is what a flat array would give; a fault may only cut it short. */
  ghost predicate FlatAnswer(cls: DevClass, flat: Image, req: Request, reply: Reply, noFault: bool)
    requires |flat| == Size(cls)
  {
    var full := FlatResult(cls, flat, req.off, Length(req));
    && reply.result <= Max(full, 0)
    && (noFault ==> reply.result == full)
    && (req.Read? && reply.result > 0 ==> reply.data == flat[req.off..req.off + reply.result])
  }

  function FlatState(flat: Image, reqs: seq<Request>, replies: seq<Reply>): (last: Image)
    requires |reqs| == |replies|
    ensures |last| == |flat|
  {
    if reqs == [] then flat
    else
      var n := |reqs| - 1;
      FlatNext(FlatState(flat, reqs[..n], replies[..n]), reqs[n], replies[n])
  }

  /** The write, if it is one, sent nothing but zero to the page-select register. */
  ghost predicate Tame(cls: DevClass, req: Request, reply: Reply) {
    req.Write? && 0 <= req.off && 0 < reply.result <= |req.data| ==>
      Harmless(cls, req.off, req.data[..reply.result])
  }

  /** With page 0 selected, or away from the window whatever is selected, a read whose own transactions were whole
      is answered as by a flat array. */
  lemma StepAnswersFlat(cls: DevClass, flat: Image, flat': Image, req: Request, reply: Reply, t: Tally, t': Tally,
                        adapter: Adapter, atomic: bool)
    requires |flat| == |flat'| == Size(cls) && Step(cls, flat, flat', req, reply, t, t', adapter, atomic)
    requires t'.wire.halfReads == t.wire.halfReads
    requires Page(cls, flat) == 0 || req.off < 0 || AvoidsWindow(cls, req.off, Length(req)) || req.Write?
    ensures FlatAnswer(cls, flat, req, reply, t'.lost == t.lost)
  {
    if req.Read? && reply.result > 0 {
      ThroughIsFlat(cls, Page(cls, flat), req.off, reply.result);
      forall k | 0 <= k < reply.result
        ensures reply.data[k] == flat[req.off..req.off + reply.result][k]
      {
        assert Through(cls, Page(cls, flat), req.off + k) == req.off + k;
      }
    }
  }

  /** Away from the window, whatever page is selected, a write lands as in a flat array, unless it is torn. */
  lemma StepWritesFlat(cls: DevClass, flat: Image, flat': Image, req: Request, reply: Reply, t: Tally, t': Tally,
                       adapter: Adapter, atomic: bool)
    requires |flat| == |flat'| == Size(cls) && Step(cls, flat, flat', req, reply, t, t', adapter, atomic)
    requires req.off < 0 || AvoidsWindow(cls, req.off, Length(req)) || req.Read?
    requires atomic || t'.lost == t.lost
    ensures forall i :: 0 <= i < |flat| && i != SelectAt(cls) ==> flat'[i] == FlatNext(flat, req, reply)[i]
  {
    forall i: nat | i < |flat| && i != SelectAt(cls)
      ensures flat'[i] == FlatNext(flat, req, reply)[i]
    {
      assert ByteIs(cls, flat, flat', req, reply, t, t', atomic, i);
    }
  }

  /** With page 0 selected, and selected again, a request that spares the register changes the image as a flat array,
      unless a write is torn. */
  lemma StepIsFlat(cls: DevClass, flat: Image, flat': Image, req: Request, reply: Reply, t: Tally, t': Tally,
                   adapter: Adapter, atomic: bool)
    requires |flat| == |flat'| == Size(cls) && Step(cls, flat, flat', req, reply, t, t', adapter, atomic)
    requires Page(cls, flat) == 0 && Tame(cls, req, reply)
    requires t'.unrestored == t.unrestored && (atomic || t'.lost == t.lost)
    ensures flat' == FlatNext(flat, req, reply) && Page(cls, flat') == 0
  {
    forall i: nat | i < |flat|
      ensures flat'[i] == FlatNext(flat, req, reply)[i]
    {
      assert i == SelectAt(cls) || ByteIs(cls, flat, flat', req, reply, t, t', atomic, i);
    }
  }

  /** Over the first `n` requests no restore of page 0 was given up, no write disturbed the register and none was
      torn. */
  ghost predicate Calm(cls: DevClass, reqs: seq<Request>, replies: seq<Reply>, tallies: seq<Tally>, atomic: bool,
                       n: nat)
    requires n <= |reqs| == |replies| < |tallies|
  {
    && tallies[n].unrestored == tallies[0].unrestored && (atomic || tallies[n].lost == tallies[0].lost)
    && forall j :: 0 <= j < n ==> Tame(cls, reqs[j], replies[j])
  }

  lemma {:induction false} TalliesGrow(cls: DevClass, images: seq<Image>, reqs: seq<Request>, replies: seq<Reply>,
                                       tallies: seq<Tally>, adapter: Adapter, atomic: bool, i: nat, k: nat)
    requires Run(cls, images, reqs, replies, tallies, adapter, atomic) && i <= k <= |reqs|
    ensures Grew(tallies[i], tallies[k], adapter)
    decreases k
  {
    if i < k {
      TalliesGrow(cls, images, reqs, replies, tallies, adapter, atomic, i, k - 1);
      assert StepAt(cls, images, reqs, replies, tallies, adapter, atomic, k - 1);
    }
  }

  /** A calm run from page 0 leaves the module as a flat array, with page 0 selected. */
  lemma {:induction false} CalmIsFlat(cls: DevClass, images: seq<Image>, reqs: seq<Request>, replies: seq<Reply>,
                                      tallies: seq<Tally>, adapter: Adapter, atomic: bool, n: nat)
    requires Run(cls, images, reqs, replies, tallies, adapter, atomic) && n <= |reqs|
    requires Page(cls, images[0]) == 0 && Calm(cls, reqs, replies, tallies, atomic, n)
    ensures images[n] == FlatState(images[0], reqs[..n], replies[..n]) && Page(cls, images[n]) == 0
    decreases n
  {
    if n > 0 {
      var k := n - 1;
      TalliesGrow(cls, images, reqs, replies, tallies, adapter, atomic, 0, k);
      assert StepAt(cls, images, reqs, replies, tallies, adapter, atomic, k);
      CalmIsFlat(cls, images, reqs, replies, tallies, adapter, atomic, k);
      assert reqs[..n][..k] == reqs[..k] && replies[..n][..k] == replies[..k];
      StepIsFlat(cls, images[k], images[n], reqs[k], replies[k], tallies[k], tallies[n], adapter, atomic);
    }
  }

  /** In a run from page 0, every request that comes after a calm part is answered as by a flat array, in full unless
      something was given up for it, even if its own restore fails or its own write disturbs the register. */
  lemma RunIsFlat(cls: DevClass, images: seq<Image>, reqs: seq<Request>, replies: seq<Reply>, tallies: seq<Tally>,
                  adapter: Adapter, atomic: bool, k: nat)
    requires Run(cls, images, reqs, replies, tallies, adapter, atomic) && k < |reqs|
    requires Page(cls, images[0]) == 0 && Calm(cls, reqs, replies, tallies, atomic, k)
    requires tallies[k].wire.halfReads == tallies[k + 1].wire.halfReads
    ensures FlatAnswer(cls, FlatState(images[0], reqs[..k], replies[..k]), reqs[k], replies[k],
                       tallies[k].lost == tallies[k + 1].lost)
  {
    CalmIsFlat(cls, images, reqs, replies, tallies, adapter, atomic, k);
    assert StepAt(cls, images, reqs, replies, tallies, adapter, atomic, k);
    StepAnswersFlat(cls, images[k], images[k + 1], reqs[k], replies[k], tallies[k], tallies[k + 1], adapter, atomic);
  }

  /** On a bus without faults, every reply of a run whose writes spare the register is that of a flat array, in full. */
  lemma FaultFreeRun(cls: DevClass, images: seq<Image>, reqs: seq<Request>, replies: seq<Reply>, tallies: seq<Tally>,
                     adapter: Adapter, atomic: bool)
    requires Run(cls, images, reqs, replies, tallies, adapter, atomic) && Page(cls, images[0]) == 0
    requires tallies[|reqs|].wire.faults == tallies[0].wire.faults
    requires forall j :: 0 <= j < |reqs| ==> Tame(cls, reqs[j], replies[j])
    ensures images[|reqs|] == FlatState(images[0], reqs, replies) && Page(cls, images[|reqs|]) == 0
    ensures forall k :: 0 <= k < |reqs| ==>
              FlatAnswer(cls, FlatState(images[0], reqs[..k], replies[..k]), reqs[k], replies[k], true)
  {
    TalliesGrow(cls, images, reqs, replies, tallies, adapter, atomic, 0, |reqs|);
    CalmIsFlat(cls, images, reqs, replies, tallies, adapter, atomic, |reqs|);
    assert reqs[..|reqs|] == reqs && replies[..|reqs|] == replies;
    forall k | 0 <= k < |reqs|
      ensures FlatAnswer(cls, FlatState(images[0], reqs[..k], replies[..k]), reqs[k], replies[k], true)
    {
      TalliesGrow(cls, images, reqs, replies, tallies, adapter, atomic, 0, k);
      TalliesGrow(cls, images, reqs, replies, tallies, adapter, atomic, k, k + 1);
      TalliesGrow(cls, images, reqs, replies, tallies, adapter, atomic, k + 1, |reqs|);
      RunIsFlat(cls, images, reqs, replies, tallies, adapter, atomic, k);
    }
  }

  // Reading back.

  /** The register that the write leaves is the one its bytes landed with, or the range is past the window. */
  ghost predicate ReadsBackFrom(cls: DevClass, flat: Image, off: nat, data: seq<byte>)
    requires |flat| == Size(cls)
  {
    || PageSent(cls, Page(cls, flat), off, data, |data|) == 0
    || !VisitsPages(cls, off, |data|)
    || Base(cls) + 2 * PAGE_SIZE <= off
  }

  /** A step in which nothing was given up and no read went half done. */
  ghost predicate Clean(t: Tally, t': Tally) {
    t'.lost == t.lost && t'.unrestored == t.unrestored && t'.wire.halfReads == t.wire.halfReads
  }

  /** A clean write to a range without capability bytes keeps the supported size. */
  lemma WriteKeepsSupported(cls: DevClass, flat: Image, flat': Image, off: nat, data: seq<byte>, w: Reply, t: Tally,
                            t': Tally, adapter: Adapter, atomic: bool)
    requires |flat| == |flat'| == Size(cls) && Clean(t, t')
    requires Step(cls, flat, flat', Write(off, data), w, t, t', adapter, atomic)
    requires forall i :: off <= i < off + |data| ==> !IsCapabilityByte(cls, i)
    ensures FlatSupported(cls, flat') == FlatSupported(cls, flat)
  {
    assert IsCapabilityByte(cls, 2) || (IsCapabilityByte(cls, 64) && IsCapabilityByte(cls, 92));
    assert ByteIs(cls, flat, flat', Write(off, data), w, t, t', atomic, 2);
    assert ByteIs(cls, flat, flat', Write(off, data), w, t, t', atomic, 64);
    assert ByteIs(cls, flat, flat', Write(off, data), w, t, t', atomic, 92);
  }

  /** Byte `k` of a clean write is found where a read will look for it. */
  lemma WrittenIsSeen(cls: DevClass, flat: Image, flat': Image, off: nat, data: seq<byte>, w: Reply, t: Tally,
                      t': Tally, adapter: Adapter, atomic: bool, k: nat)
    requires |flat| == |flat'| == Size(cls) && Clean(t, t')
    requires Step(cls, flat, flat', Write(off, data), w, t, t', adapter, atomic)
    requires ReadsBackFrom(cls, flat, off, data) && k < w.result
    ensures flat'[Through(cls, Page(cls, flat'), off + k)] == data[k]
  {
    var i := Through(cls, Page(cls, flat'), off + k);
    assert i == SelectAt(cls) || ByteIs(cls, flat, flat', Write(off, data), w, t, t', atomic, i);
  }

  /** Written with whatever page selected, data is read back exactly, if it went past the window only with page 0 in
      the register. */
  lemma ReadsBack(cls: DevClass, flat: Image, flat': Image, flat'': Image, off: nat, data: seq<byte>, w: Reply,
                  r: Reply, t: Tally, t': Tally, t'': Tally, adapter: Adapter, atomic: bool)
    requires |flat| == |flat'| == |flat''| == Size(cls) && Clean(t, t') && Clean(t', t'')
    requires Step(cls, flat, flat', Write(off, data), w, t, t', adapter, atomic)
    requires Step(cls, flat', flat'', Read(off, |data|), r, t', t'', adapter, atomic)
    requires ReadsBackFrom(cls, flat, off, data)
    requires forall i :: off <= i < off + |data| ==> !IsCapabilityByte(cls, i)
    ensures w.result == r.result == FlatResult(cls, flat, off, |data|)
    ensures r.result > 0 ==> r.data == data[..w.result]
  {
    WriteKeepsSupported(cls, flat, flat', off, data, w, t, t', adapter, atomic);
    forall k | 0 <= k < w.result
      ensures flat'[Through(cls, Page(cls, flat'), off + k)] == data[k]
    {
      WrittenIsSeen(cls, flat, flat', off, data, w, t, t', adapter, atomic, k);
    }
  }

  /** A write without faults, and then a read. */
  method WriteThenRead(dev: Optoe, off: nat, data: seq<byte>) returns (w: Reply, r: Reply)
    requires ReadsBackFrom(dev.bus.mem.cls, dev.bus.mem.Linear(), off, data)
    requires forall i :: off <= i < off + |data| ==> !IsCapabilityByte(dev.bus.mem.cls, i)
    modifies dev, dev.bus
    ensures dev.bus.mem.cls == old(dev.bus.mem.cls) && Grew(old(dev.Counts()), dev.Counts(), dev.bus.adapter)
    ensures Clean(old(dev.Counts()), dev.Counts()) ==>
              && w.result == r.result == FlatResult(dev.bus.mem.cls, old(dev.bus.mem.Linear()), off, |data|)
              && (r.result > 0 ==> r.data == data[..w.result])
  {
    ghost var flat, t := dev.bus.mem.Linear(), dev.Counts();
    w := Serve(dev, Write(off, data));
    ghost var flat', t' := dev.bus.mem.Linear(), dev.Counts();
    r := Serve(dev, Read(off, |data|));
    if Clean(t, dev.Counts()) {
      ReadsBack(dev.bus.mem.cls, flat, flat', dev.bus.mem.Linear(), off, data, w, r, t, t', dev.Counts(),
                dev.bus.adapter, dev.bus.atomic);
    }
  }
}
