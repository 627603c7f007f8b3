/** The faultd server: a table of service pipes that owns their descriptors, and a reader that takes turns. */
module FaultServer {
  import opened Bytes
  import opened Wrappers
  import opened FaultWire
  import opened FaultPipe

  /** FAULTD_CONFIG_SERVICE_PIPES_MAX and FAULTD_CONFIG_PIPE_NAME_DEFAULT. */
  const SERVICE_PIPES_MAX := 8
  const PIPE_NAME_DEFAULT := "/var/run/faultd.pipe"

  /** A slot of the table; descriptor 0 stands for none. */
  datatype Service = Service(pipename: Option<string>, pipefd: int, writefd: int)

  const FREE := Service(None, 0, 0)

  function Owned(s: Service): set<int> {
    {s.pipefd, s.writefd} - {0}
  }

  /** All descriptors recorded in the table. */
  function Recorded(services: seq<Service>): set<int> {
    set i, fd | 0 <= i < |services| && fd in Owned(services[i]) :: fd
  }

  lemma FreeRecordsNone(services: seq<Service>)
    requires forall i :: 0 <= i < |services| ==> services[i] == FREE
    ensures Recorded(services) == {}
  {
  }

  /** No descriptor is recorded twice, and free slots record none. */
  ghost predicate Tidy(services: seq<Service>) {
    && (forall i, j :: 0 <= i < j < |services| ==> Owned(services[i]) !! Owned(services[j]))
    && (forall i :: 0 <= i < |services| ==>
          (services[i].pipename.None? ==> services[i] == FREE) &&
          (services[i].pipefd != 0 ==> services[i].pipefd != services[i].writefd))
  }

  /** The descriptors of a slot are open on the pipe of its name. */
  ghost predicate Named(services: seq<Service>, files: map<int, string>) {
    forall i, fd :: 0 <= i < |services| && fd in Owned(services[i]) ==>
      services[i].pipename.Some? && fd in files && files[fd] == services[i].pipename.value
  }

  lemma RecordedUpdate(services: seq<Service>, i: nat, s: Service)
    requires i < |services| && Tidy(services)
    ensures Recorded(services[i := s]) == Recorded(services) - Owned(services[i]) + Owned(s)
    ensures Owned(services[i]) <= Recorded(services)
  {
    var now := services[i := s];
    forall fd | fd in Owned(services[i])
      ensures fd in Recorded(services)
    {
    }
    forall fd | fd in Recorded(services) - Owned(services[i]) + Owned(s)
      ensures fd in Recorded(now)
    {
      if fd in Owned(s) {
        assert now[i] == s;
      } else {
        var k :| 0 <= k < |services| && fd in Owned(services[k]);
        assert now[k] == services[k];
      }
    }
    forall fd | fd in Recorded(now)
      ensures fd in Recorded(services) - Owned(services[i]) + Owned(s)
    {
      var k :| 0 <= k < |now| && fd in Owned(now[k]);
      if k != i {
        assert fd in Owned(services[k]);
        assert Owned(services[k]) !! Owned(services[i]);
      }
    }
  }

  lemma OneSlotPerDescriptor(services: seq<Service>, s: nat, t: nat)
    requires Tidy(services) && s < |services| && t < |services|
    requires services[s].pipefd == services[t].pipefd != 0
    ensures s == t
  {
    assert services[s].pipefd in Owned(services[s]) && services[t].pipefd in Owned(services[t]);
  }

  // Service ids.

  type Int32 = x: int | -0x8000_0000 <= x < 0x8000_0000

  /** An int as size_t, to which comparing it with a quotient of sizes converts it (section 6.3.1.8 of C11). */
  function AsSize(x: Int32): nat {
    x % 0x1_0000_0000_0000_0000
  }

  /** The guard of the wait, as written; `unsignedSize` says that the table size is an unsigned quotient of sizes. */
  predicate Refused(sid: Int32, unsignedSize: bool) {
    sid < 0 && (if unsignedSize then AsSize(sid) else sid as int) >= SERVICE_PIPES_MAX && sid != -1
  }

  predicate Admissible(sid: Int32, unsignedSize: bool) {
    sid < SERVICE_PIPES_MAX && (sid < -1 ==> unsignedSize)
  }

  /** The guard refuses exactly the ids below -1 if the size is unsigned, and otherwise none; the code that comes after
      it stays within the table if and only if the id is admissible. */
  lemma SidGuard(sid: Int32, unsignedSize: bool)
    ensures Refused(sid, unsignedSize) <==> sid < -1 && unsignedSize
    ensures (!Refused(sid, unsignedSize) && sid != -1 ==> 0 <= sid < SERVICE_PIPES_MAX) <==>
            Admissible(sid, unsignedSize)
  {
  }

  // Slots, the descriptors on which their messages arrive, and their pipes.

  /** The slots a read looks at: all that have a pipe open, or the one asked for. */
  ghost function Watched(services: seq<Service>, sid: int): set<nat> {
    set s: nat | s < |services| && services[s].pipefd != 0 && (sid == -1 || s == sid)
  }

  ghost function Slots(services: seq<Service>, fds: set<int>): set<nat> {
    set s: nat | s < |services| && services[s].pipefd != 0 && services[s].pipefd in fds
  }

  ghost function Descriptors(services: seq<Service>, slots: set<nat>): set<int> {
    set s | s in slots && s < |services| :: services[s].pipefd
  }

  ghost function Pipe(services: seq<Service>, s: nat): string {
    if s < |services| && services[s].pipename.Some? then services[s].pipename.value else ""
  }

  ghost function Pipes(services: seq<Service>, slots: set<nat>): set<string> {
    set s | s in slots :: Pipe(services, s)
  }

  /** Watched descriptors are each of one watched slot. */
  lemma WatchedSlots(services: seq<Service>, sid: int, fds: set<int>)
    requires Tidy(services) && fds <= Descriptors(services, Watched(services, sid))
    ensures Slots(services, fds) <= Watched(services, sid) && fds == Descriptors(services, Slots(services, fds))
    ensures fds <= Recorded(services) && 0 !in fds
  {
    forall fd | fd in fds
      ensures fd in Recorded(services) && fd in Descriptors(services, Slots(services, fds))
    {
      var s :| s in Watched(services, sid) && services[s].pipefd == fd;
      assert fd in Owned(services[s]);
      assert s in Slots(services, fds);
    }
    forall t | t in Slots(services, fds)
      ensures t in Watched(services, sid)
    {
      var s :| s in Watched(services, sid) && services[s].pipefd == services[t].pipefd;
      OneSlotPerDescriptor(services, s, t);
    }
  }

  // Taking turns.

  /** How many slots after `last` slot `s` comes, in cyclic order. */
  function Distance(last: nat, s: nat): (d: nat)
    ensures d < SERVICE_PIPES_MAX
  {
    (s - last - 1) % SERVICE_PIPES_MAX
  }

  /** `s` is the first ready slot in cyclic order after `last`. */
  ghost predicate IsNext(last: nat, ready: set<nat>, s: nat) {
    && s in ready && s < SERVICE_PIPES_MAX
    && forall t :: t in ready && t < SERVICE_PIPES_MAX ==> Distance(last, s) <= Distance(last, t)
  }

  /** The slot served before read `k` of a run. */
  function LastServed(last: nat, served: seq<nat>, k: nat): nat
    requires k <= |served|
  {
    if k == 0 then last else served[k - 1]
  }

  /** Each read of a run served the next of the slots that were ready for it. */
  ghost predicate Turns(last: nat, ready: seq<set<nat>>, served: seq<nat>) {
    |ready| == |served| && forall k :: 0 <= k < |served| ==> IsNext(LastServed(last, served, k), ready[k], served[k])
  }

  lemma SlotAt(last: nat, count: nat)
    requires last < SERVICE_PIPES_MAX && count < SERVICE_PIPES_MAX
    ensures var s := (last + 1 + count) % SERVICE_PIPES_MAX;
            Distance(last, s) == count &&
            forall t: nat :: t < SERVICE_PIPES_MAX && Distance(last, t) == count ==> t == s
  {
  }

  /** Serving another slot first brings the waiting one closer. */
  lemma CloserTurn(last: nat, served: nat, s: nat)
    requires last < SERVICE_PIPES_MAX && served < SERVICE_PIPES_MAX && s < SERVICE_PIPES_MAX && served != s
    requires Distance(last, served) <= Distance(last, s)
    ensures Distance(served, s) < Distance(last, s)
  {
  }

  /** Bounded waiting: a slot that stays ready from read `a` on is served within its distance from the last one
      served, which is less than the size of the table. */
  lemma {:induction false} ServedInTime(last: nat, ready: seq<set<nat>>, served: seq<nat>, a: nat, s: nat)
    returns (k: nat)
    requires last < SERVICE_PIPES_MAX && s < SERVICE_PIPES_MAX && Turns(last, ready, served) && a < |served|
    requires a + Distance(LastServed(last, served, a), s) < |served|
    requires forall i :: a <= i <= a + Distance(LastServed(last, served, a), s) ==> s in ready[i]
    ensures a <= k <= a + Distance(LastServed(last, served, a), s) && served[k] == s
    decreases Distance(LastServed(last, served, a), s)
  {
    assert IsNext(LastServed(last, served, a), ready[a], served[a]);
    if served[a] == s {
      return a;
    }
    if a > 0 {
      assert IsNext(LastServed(last, served, a - 1), ready[a - 1], served[a - 1]);
    }
    CloserTurn(LastServed(last, served, a), served[a], s);
    k := ServedInTime(last, ready, served, a + 1, s);
  }

  // What a read takes.

  /** Only these pipes have changed. */
  ghost predicate OnlyPipes(fifos: map<string, seq<byte>>, fifos': map<string, seq<byte>>, pipes: set<string>) {
    fifos'.Keys == fifos.Keys && forall p :: p in fifos && p !in pipes ==> fifos'[p] == fifos[p]
  }

  /** The first message of a pipe was taken from it, and nothing else. */
  ghost predicate Taken(fifos: map<string, seq<byte>>, pipe: string, report: Report, fifos': map<string, seq<byte>>) {
    && pipe in fifos && Whole(fifos[pipe])
    && var (first, rest) := Decode(fifos[pipe]);
       report == first.(pipename := Some(pipe)) && fifos' == fifos[pipe := rest]
  }

  method CloseDescriptors(os: Kernel, s: Service)
    requires os.Valid()
    modifies os`files
    ensures os.Valid() && os.files == old(os.files) - Owned(s)
  {
    if s.pipefd != 0 {
      os.Close(s.pipefd);
    }
    if s.writefd != 0 {
      os.Close(s.writefd);
    }
  }

  /** Opening two descriptors, and closing them again. */
  lemma OpenedTwo(files: map<int, string>, fd: int, fd': int, name: string)
    requires fd !in files
    ensures files[fd := name] - {fd} == files
    ensures fd' !in files ==> files[fd := name][fd' := name] - {fd, fd'} == files
  {
  }

  class FaultdServer {
    const os: Kernel
    const services: array<Service>
    /** Whether AIM_ARRAYSIZE, which is not part of this model, yields an unsigned size. */
    const unsignedSize: bool
    /** The last service from which a message was read. */
    var sidLast: nat
    /** Descriptors of the process that are not the server's. */
    ghost const external: set<int>

    /** The open descriptors are exactly the recorded ones and those of others; descriptor 0 is one of those. */
    ghost predicate Valid()
      reads this, os, services
    {
      && os.Valid()
      && services.Length == SERVICE_PIPES_MAX && sidLast < SERVICE_PIPES_MAX
      && Tidy(services[..]) && Named(services[..], os.files)
      && 0 in external && external !! Recorded(services[..])
      && os.files.Keys == external + Recorded(services[..])
    }

    constructor (os: Kernel, unsignedSize: bool)
      requires os.Valid() && 0 in os.files
      ensures Valid() && this.os == os && this.unsignedSize == unsignedSize && external == old(os.files.Keys)
      ensures fresh(services) && sidLast == 0
      ensures services[..] == seq(SERVICE_PIPES_MAX, _ => FREE)
    {
      this.os, this.unsignedSize := os, unsignedSize;
      this.services := new Service[SERVICE_PIPES_MAX](_ => FREE);
      this.sidLast := 0;
      this.external := os.files.Keys;
      new;
      assert services[..] == seq(SERVICE_PIPES_MAX, _ => FREE);
      assert Recorded(services[..]) == {};
    }

    /** faultd_service_destroy__: close what the slot records and clear it. */
    method DestroyService(i: nat)
      requires Valid() && i < services.Length
      modifies os`files, services
      ensures Valid()
      ensures services[..] == old(services[..])[i := FREE]
      ensures os.files == old(os.files) - old(Owned(services[i]))
    {
      RecordedUpdate(services[..], i, FREE);
      CloseDescriptors(os, services[i]);
      services[i] := FREE;
      assert services[..] == old(services[..])[i := FREE];
    }

    method Remove(sid: Int32) returns (r: int)
      requires Valid()
      modifies os`files, services
      ensures Valid()
      ensures sid < 0 || SERVICE_PIPES_MAX <= sid ==>
                r == -1 && services[..] == old(services[..]) && os.files == old(os.files)
      ensures 0 <= sid < SERVICE_PIPES_MAX ==>
                && r == 0 && services[..] == old(services[..])[sid := FREE]
                && os.files == old(os.files) - old(Owned(services[sid]))
    {
      if sid < 0 || sid >= services.Length {
        return -1;
      }
      DestroyService(sid);
      r := 0;
    }

    /** faultd_server_destroy: everything the server opened is closed. */
    method Destroy()
      requires Valid()
      modifies os`files, services
      ensures Valid() && os.files.Keys == external && forall i :: 0 <= i < services.Length ==> services[i] == FREE
    {
      for i := 0 to services.Length
        invariant Valid() && forall k :: 0 <= k < i ==> services[..][k] == FREE
      {
        var _ := Remove(i);
      }
      FreeRecordsNone(services[..]);
    }

    /** faultd_server_add: put the pipe into the first free slot and open its two descriptors, or fail and leave
        everything as it was. */
    method Add(name: Option<string>) returns (sid: int)
      requires Valid()
      modifies os`files, os`fifos, os`failures, services
      ensures Valid()
      ensures sid < 0 ==> services[..] == old(services[..]) && os.files == old(os.files)
      ensures sid < 0 <==>
                os.failures > old(os.failures) || forall i :: 0 <= i < services.Length ==> old(services[i]) != FREE
      ensures sid >= 0 ==>
                && sid < services.Length && old(services[sid]) == FREE
                && (forall i :: 0 <= i < sid ==> old(services[i]) != FREE)
                && services[..] == old(services[..])[sid := services[sid]]
                && services[sid].pipename == Some(if name.Some? then name.value else PIPE_NAME_DEFAULT)
                && services[sid].pipefd != services[sid].writefd
                && Owned(services[sid]) == {services[sid].pipefd, services[sid].writefd}
                && Owned(services[sid]) !! old(os.files.Keys)
                && os.files == old(os.files)[services[sid].pipefd := services[sid].pipename.value]
                                            [services[sid].writefd := services[sid].pipename.value]
    {
      var pipename := if name.Some? then name.value else PIPE_NAME_DEFAULT;
      for i := 0 to services.Length
        invariant forall k :: 0 <= k < i ==> services[k] != FREE
      {
        if services[i].pipename == None {
          var ok := AddAt(i, pipename);
          if ok {
            return i;
          }
          DestroyService(i);
          return -1;
        }
      }
      return -1;
    }

    /** The steps of an addition to slot `i`; on failure the slot is left as far as they got. */
    method AddAt(i: nat, pipename: string) returns (ok: bool)
      requires Valid() && i < services.Length && services[i] == FREE
      modifies os`files, os`fifos, os`failures, services
      ensures Valid()
      ensures services[..] == old(services[..])[i := services[i]] && services[i].pipename == Some(pipename)
      ensures os.failures == old(os.failures) + (if ok then 0 else 1)
      ensures os.files - Owned(services[i]) == old(os.files)
      ensures ok ==>
                && services[i].pipefd != 0 && services[i].writefd != 0 && Owned(services[i]) !! old(os.files.Keys)
                && os.files == old(os.files)[services[i].pipefd := pipename][services[i].writefd := pipename]
    {
      ClaimSlot(i, pipename);
      ok := os.MkFifo(pipename);
      if !ok {
        return;
      }
      ok := OpenPipe(i);
      if !ok {
        return;
      }
      ok := os.Fcntl(services[i].pipefd);
      if !ok {
        return;
      }
      ok := os.Fcntl(services[i].pipefd);
    }

    /** Open both descriptors of a slot, as far as that succeeds. */
    method OpenPipe(i: nat) returns (ok: bool)
      requires Valid() && i < services.Length && services[i].pipename.Some? && services[i].pipename.value in os.fifos
      requires services[i].pipefd == services[i].writefd == 0
      modifies os`files, os`failures, services
      ensures Valid() && os.failures == old(os.failures) + (if ok then 0 else 1)
      ensures services[..] == old(services[..])[i := services[i]] && services[i].pipename == old(services[i].pipename)
      ensures os.files - Owned(services[i]) == old(os.files)
      ensures ok ==>
                && services[i].pipefd != 0 && services[i].writefd != 0 && Owned(services[i]) !! old(os.files.Keys)
                && os.files == old(os.files)[services[i].pipefd := services[i].pipename.value]
                                            [services[i].writefd := services[i].pipename.value]
    {
      ghost var was, files := services[..], os.files;
      ok := OpenReader(i);
      if ok {
        ghost var s := services[i];
        ok := OpenWriter(i);
        assert services[..] == was[i := services[i]];
        assert Owned(services[i]) == if ok then {s.pipefd, services[i].writefd} else {s.pipefd};
        OpenedTwo(files, s.pipefd, services[i].writefd, s.pipename.value);
      }
    }

    method ClaimSlot(i: nat, pipename: string)
      requires Valid() && i < services.Length && services[i] == FREE
      modifies services
      ensures Valid() && services[..] == old(services[..])[i := Service(Some(pipename), 0, 0)]
    {
      RecordedUpdate(services[..], i, Service(Some(pipename), 0, 0));
      services[i] := Service(Some(pipename), 0, 0);
      assert services[..] == old(services[..])[i := services[i]];
    }

    /** Open the descriptor from which messages are read. */
    method OpenReader(i: nat) returns (ok: bool)
      requires Valid() && i < services.Length && services[i].pipename.Some? && services[i].pipename.value in os.fifos
      requires services[i].pipefd == services[i].writefd == 0
      modifies os`files, os`failures, services
      ensures Valid() && os.failures == old(os.failures) + (if ok then 0 else 1)
      ensures !ok ==> services[..] == old(services[..]) && os.files == old(os.files)
      ensures ok ==>
                var fd := services[i].pipefd;
                && fd != 0 && fd !in old(os.files)
                && services[..] == old(services[..])[i := old(services[i]).(pipefd := fd)]
                && os.files == old(os.files)[fd := services[i].pipename.value]
    {
      var rv := os.Open(services[i].pipename.value);
      if rv < 0 {
        return false;
      }
      RecordedUpdate(services[..], i, services[i].(pipefd := rv));
      services[i] := services[i].(pipefd := rv);
      assert services[..] == old(services[..])[i := services[i]];
      ok := true;
    }

    /** Open the descriptor that keeps the pipe from ever being without a writer. */
    method OpenWriter(i: nat) returns (ok: bool)
      requires Valid() && i < services.Length && services[i].pipename.Some? && services[i].pipename.value in os.fifos
      requires services[i].pipefd != 0 == services[i].writefd
      modifies os`files, os`failures, services
      ensures Valid() && os.failures == old(os.failures) + (if ok then 0 else 1)
      ensures !ok ==> services[..] == old(services[..]) && os.files == old(os.files)
      ensures ok ==>
                var fd := services[i].writefd;
                && fd != 0 && fd !in old(os.files)
                && services[..] == old(services[..])[i := old(services[i]).(writefd := fd)]
                && os.files == old(os.files)[fd := services[i].pipename.value]
    {
      var rv := os.Open(services[i].pipename.value);
      if rv < 0 {
        return false;
      }
      assert services[i].pipefd in Owned(services[i]);
      RecordedUpdate(services[..], i, services[i].(writefd := rv));
      services[i] := services[i].(writefd := rv);
      assert services[..] == old(services[..])[i := services[i]];
      ok := true;
    }

    lemma SlotIsOpen(s: nat)
      requires Valid() && s < services.Length && services[s].pipefd != 0
      ensures services[s].pipename == Some(Pipe(services[..], s))
      ensures services[s].pipefd in os.files && os.files[services[s].pipefd] == Pipe(services[..], s)
      ensures Pipe(services[..], s) in os.fifos
    {
      assert services[s].pipefd in Owned(services[..][s]);
    }

    /** faultd_wait_services__: wait until select reports some of the watched pipes ready. */
    method WaitServices(sid: Int32) returns (rv: int, rfds: set<int>)
      requires Valid() && Admissible(sid, unsignedSize)
      modifies os`interruptions, os`failures, os`answers
      ensures Valid()
      ensures os.failures ==
              old(os.failures) + (if rv < 0 && (sid == -1 || Watched(services[..], sid) != {}) then 1 else 0)
      ensures rv < 0 ==> os.answers == old(os.answers)
      ensures rv >= 0 ==>
                && os.answers == old(os.answers) + [Answer(Descriptors(services[..], Watched(services[..], sid)), rfds)]
                && rfds <= Descriptors(services[..], Watched(services[..], sid)) && rfds != {}
                && forall fd :: fd in rfds ==> fd in os.files && os.Stream(fd) != []
    {
      rfds := {};
      if Refused(sid, unsignedSize) {
        return -1, rfds;
      }
      var fds: set<int>;
      if sid == -1 {
        fds := set i | 0 <= i < services.Length && services[i].pipefd != 0 :: services[i].pipefd;
      } else {
        if services[sid].pipefd == 0 {
          return -1, rfds;
        }
        fds := {services[sid].pipefd};
        assert sid in Watched(services[..], sid);
      }
      assert fds == Descriptors(services[..], Watched(services[..], sid));
      WatchedSlots(services[..], sid, fds);
      rv := -1;
      var eintr := true;
      while rv < 0 && eintr
        invariant Valid()
        invariant os.failures == old(os.failures) + (if rv < 0 && !eintr then 1 else 0)
        invariant rv < 0 ==> os.answers == old(os.answers)
        invariant rv >= 0 ==>
                    && rfds != {} && rfds <= fds && (forall fd :: fd in rfds ==> os.Stream(fd) != [])
                    && os.answers == old(os.answers) + [Answer(fds, rfds)]
        decreases os.interruptions, rv < 0 && eintr
      {
        rv, eintr, rfds := os.Select(fds);
      }
    }

    /** faultd_server_read: one message, from the first service after the last one served that select reports
        ready; -1 if no slot is watched, or after a hard error. */
    method Read(sid: Int32) returns (r: int, report: Report, ghost given: seq<Answer>)
      requires Valid() && Admissible(sid, unsignedSize)
      modifies `sidLast, os`fifos, os`interruptions, os`failures, os`answers
      ensures Valid() && old(os.failures) <= os.failures
      ensures if r < 0 then r == -1 && sidLast == old(sidLast) else sidLast == r
      ensures os.answers == old(os.answers) + given && |given| <= 1
      ensures given == [] ==>
                && r == -1 && os.fifos == old(os.fifos)
                && (os.failures == old(os.failures) <==> sid != -1 && Watched(services[..], sid) == {})
      ensures given != [] ==>
                && given[0].watched == Descriptors(services[..], Watched(services[..], sid))
                && given[0].ready <= given[0].watched
                && var ready := Slots(services[..], given[0].ready);
                   && ready != {} && ready <= Watched(services[..], sid)
                   && OnlyPipes(old(os.fifos), os.fifos, Pipes(services[..], ready))
                   && (r >= 0 ==> r in ready)
                   && (os.failures == old(os.failures) ==>
                         && r >= 0 && IsNext(old(sidLast), ready, r)
                         && Taken(old(os.fifos), Pipe(services[..], r), report, os.fifos))
    {
      var rv, rfds := WaitServices(sid);
      report, given := Report(None, [], None), [];
      if rv < 0 {
        return -1, report, given;
      }
      given := [Answer(Descriptors(services[..], Watched(services[..], sid)), rfds)];
      WatchedSlots(services[..], sid, rfds);
      r, report := ReadFirst(rfds);
    }

    /** The scan for the first ready service after the last one served; one that cannot be read is passed over. */
    method ReadFirst(fds: set<int>) returns (r: int, report: Report)
      requires Valid() && 0 !in fds && Slots(services[..], fds) != {}
      modifies `sidLast, os`fifos, os`interruptions, os`failures
      ensures Valid() && old(os.failures) <= os.failures
      ensures if r < 0 then r == -1 && sidLast == old(sidLast) else r in Slots(services[..], fds) && sidLast == r
      ensures OnlyPipes(old(os.fifos), os.fifos, Pipes(services[..], Slots(services[..], fds)))
      ensures os.failures == old(os.failures) ==>
                && r >= 0 && IsNext(old(sidLast), Slots(services[..], fds), r)
                && Taken(old(os.fifos), Pipe(services[..], r), report, os.fifos)
    {
      ghost var ready := Slots(services[..], fds);
      ghost var some :| some in ready;
      report := Report(None, [], None);
      var i, count := sidLast + 1, 0;
      while count < SERVICE_PIPES_MAX
        invariant Valid() && old(os.failures) <= os.failures && sidLast == old(sidLast)
        invariant i == sidLast + 1 + count && count <= SERVICE_PIPES_MAX
        invariant OnlyPipes(old(os.fifos), os.fifos, Pipes(services[..], ready))
        invariant os.failures == old(os.failures) ==>
                    && os.fifos == old(os.fifos)
                    && forall s :: s in ready ==> count <= Distance(sidLast, s)
      {
        var s := i % SERVICE_PIPES_MAX;
        SlotAt(sidLast, count);
        i, count := i + 1, count + 1;
        if services[s].pipefd in fds {
          assert s in ready;
          var rv;
          rv, report := ReadService(s);
          if rv < 0 {
            continue;
          }
          sidLast := s;
          return s, report;
        }
      }
      assert Distance(sidLast, some) < SERVICE_PIPES_MAX;
      return -1, report;
    }

    /** One message from the pipe of a slot. */
    method ReadService(s: nat) returns (r: int, report: Report)
      requires Valid() && s < services.Length && services[s].pipefd != 0
      modifies os`fifos, os`interruptions, os`failures
      ensures Valid() && old(os.failures) <= os.failures
      ensures OnlyPipes(old(os.fifos), os.fifos, {Pipe(services[..], s)})
      ensures r < 0 ==> os.failures > old(os.failures)
      ensures os.failures == old(os.failures) ==> Taken(old(os.fifos), Pipe(services[..], s), report, os.fifos)
    {
      SlotIsOpen(s);
      r, report := ReadMessage(os, services[s].pipefd);
      report := report.(pipename := services[s].pipename);
    }
  }
}
