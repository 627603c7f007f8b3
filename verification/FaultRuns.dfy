/** Runs of the faultd server: messages relayed through a pipe, and rounds over all services. */
module FaultRuns {
  import opened Bytes
  import opened Wrappers
  import opened FaultWire
  import opened FaultPipe
  import opened FaultServer

  lemma {:induction false} EncodeAllAppend(ms: seq<Message>, m: Message)
    requires m.Valid() && forall x :: x in ms ==> x.Valid()
    ensures forall x :: x in ms + [m] ==> x.Valid()
    ensures EncodeAll(ms + [m]) == EncodeAll(ms) + Encode(m)
    decreases |ms|
  {
    if ms == [] {
      assert ms + [m] == [m];
      assert [m][1..] == [];
    } else {
      assert (ms + [m])[1..] == ms[1..] + [m];
      EncodeAllAppend(ms[1..], m);
    }
  }

  /** A client sends a run of messages. */
  method SendAll(os: Kernel, fd: int, ms: seq<Message>)
    requires os.Valid() && fd in os.files && forall m :: m in ms ==> m.Valid()
    modifies os`fifos, os`interruptions, os`failures
    ensures os.Valid() && old(os.failures) <= os.failures
    ensures os.failures == old(os.failures) ==>
              os.fifos == old(os.fifos)[os.files[fd] := old(os.Stream(fd)) + EncodeAll(ms)]
  {
    ghost var stream := os.Stream(fd);
    assert ms[..0] == [] && stream + EncodeAll([]) == stream;
    for n := 0 to |ms|
      invariant os.Valid() && old(os.failures) <= os.failures
      invariant os.failures == old(os.failures) ==>
                  os.fifos == old(os.fifos)[os.files[fd] := stream + EncodeAll(ms[..n])]
    {
      var _ := ClientWrite(os, fd, ms[n]);
      EncodeAllAppend(ms[..n], ms[n]);
      assert ms[..n + 1] == ms[..n] + [ms[n]];
      assert stream + EncodeAll(ms[..n]) + Encode(ms[n]) == stream + (EncodeAll(ms[..n]) + Encode(ms[n]));
    }
    assert ms[..|ms|] == ms;
  }

  /** What the server reports when such messages come through a pipe. */
  function ReceivedAll(ms: seq<Message>, pipe: string): seq<Report>
    requires forall m :: m in ms ==> m.Valid()
  {
    seq(|ms|, i requires 0 <= i < |ms| => Received(ms[i]).(pipename := Some(pipe)))
  }

  /** The server reads one message from one service. */
  method ReceiveOne(server: FaultdServer, sid: nat) returns (report: Report)
    requires server.Valid() && sid < SERVICE_PIPES_MAX && server.services[sid].pipefd != 0
    modifies server`sidLast, server.os`fifos, server.os`interruptions, server.os`failures, server.os`answers
    ensures server.Valid() && old(server.os.failures) <= server.os.failures
    ensures server.os.failures == old(server.os.failures) ==>
              Taken(old(server.os.fifos), Pipe(server.services[..], sid), report, server.os.fifos)
  {
    assert sid in Watched(server.services[..], sid);
    var r;
    ghost var given;
    r, report, given := server.Read(sid);
  }

  /** What is taken from a pipe that holds the messages from number `k` on. */
  lemma TakenIsReceived(fifos: map<string, seq<byte>>, pipe: string, report: Report, fifos': map<string, seq<byte>>,
                        ms: seq<Message>, k: nat)
    requires k < |ms| && forall m :: m in ms ==> m.Valid()
    requires Taken(fifos, pipe, report, fifos') && fifos[pipe] == EncodeAll(ms[k..])
    ensures report == ReceivedAll(ms, pipe)[k] && fifos' == fifos[pipe := EncodeAll(ms[k + 1..])]
  {
    assert ms[k..][1..] == ms[k + 1..];
    DecodeEncode(ms[k], EncodeAll(ms[k + 1..]));
  }

  /** The server reads as many messages from one service. */
  method ReceiveAll(server: FaultdServer, sid: nat, ghost ms: seq<Message>, n: nat) returns (reports: seq<Report>)
    requires server.Valid() && sid < SERVICE_PIPES_MAX && server.services[sid].pipefd != 0
    requires Pipe(server.services[..], sid) in server.os.fifos
    requires |ms| == n && forall m :: m in ms ==> m.Valid()
    modifies server`sidLast, server.os`fifos, server.os`interruptions, server.os`failures, server.os`answers
    ensures server.Valid() && old(server.os.failures) <= server.os.failures
    ensures server.os.failures == old(server.os.failures) &&
            old(server.os.fifos[Pipe(server.services[..], sid)]) == EncodeAll(ms) ==>
              && reports == ReceivedAll(ms, Pipe(server.services[..], sid))
              && server.os.fifos == old(server.os.fifos)[Pipe(server.services[..], sid) := []]
  {
    reports := [];
    ghost var pipe := Pipe(server.services[..], sid);
    ghost var asSent := server.os.fifos[pipe] == EncodeAll(ms);
    for k := 0 to n
      invariant server.Valid() && old(server.os.failures) <= server.os.failures
      invariant server.os.failures == old(server.os.failures) && asSent ==>
                  && reports == ReceivedAll(ms, pipe)[..k]
                  && server.os.fifos == old(server.os.fifos)[pipe := EncodeAll(ms[k..])]
    {
      ghost var fifos := server.os.fifos;
      var report := ReceiveOne(server, sid);
      if server.os.failures == old(server.os.failures) && asSent {
        TakenIsReceived(fifos, pipe, report, server.os.fifos, ms, k);
      }
      reports := reports + [report];
    }
  }

  /** Whatever the partial and interrupted transfers on the way, a client's messages arrive as sent, in order, and
      leave the pipe empty and all others untouched. */
  method Relay(server: FaultdServer, fd: int, sid: nat, ms: seq<Message>) returns (reports: seq<Report>)
    requires server.Valid() && sid < SERVICE_PIPES_MAX && server.services[sid].pipefd != 0
    requires fd in server.os.files && server.os.files[fd] == Pipe(server.services[..], sid)
    requires server.os.Stream(fd) == [] && forall m :: m in ms ==> m.Valid()
    modifies server`sidLast, server.os`fifos, server.os`interruptions, server.os`failures, server.os`answers
    ensures server.Valid()
    ensures server.os.failures == old(server.os.failures) ==>
              reports == ReceivedAll(ms, Pipe(server.services[..], sid)) && server.os.fifos == old(server.os.fifos)
  {
    SendAll(server.os, fd, ms);
    assert [] + EncodeAll(ms) == EncodeAll(ms);
    reports := ReceiveAll(server, sid, ms, |ms|);
  }

  predicate ValidSlots(slots: seq<nat>) {
    forall k :: 0 <= k < |slots| ==> slots[k] < SERVICE_PIPES_MAX
  }

  /** The first messages of the pipes of these slots, taken one after the other, and what is left in the pipes. */
  ghost function Deliver(services: seq<Service>, fifos: map<string, seq<byte>>, served: seq<nat>)
    : Option<(seq<Report>, map<string, seq<byte>>)>
    requires ValidSlots(served)
  {
    if served == [] then Some(([], fifos)) else
      match Deliver(services, fifos, served[..|served| - 1])
      case None => None
      case Some((reports, rest)) =>
        var pipe := Pipe(services, served[|served| - 1]);
        if pipe in rest && Whole(rest[pipe]) then
          var (first, left) := Decode(rest[pipe]);
          Some((reports + [first.(pipename := Some(pipe))], rest[pipe := left]))
        else None
  }

  /** One more message from the pipe of slot `s`. */
  lemma DeliverOne(services: seq<Service>, fifos: map<string, seq<byte>>, served: seq<nat>, reports: seq<Report>,
                   rest: map<string, seq<byte>>, s: nat, report: Report, rest': map<string, seq<byte>>)
    requires s < SERVICE_PIPES_MAX && ValidSlots(served)
    requires Deliver(services, fifos, served) == Some((reports, rest)) && Taken(rest, Pipe(services, s), report, rest')
    ensures Deliver(services, fifos, served + [s]) == Some((reports + [report], rest'))
  {
    assert (served + [s])[..|served|] == served;
  }

  /** Select found slot `s` ready every time, over as many answers from number `a` on as there are slots. */
  ghost predicate ReadyDuring(services: seq<Service>, answers: seq<Answer>, a: nat, s: nat) {
    forall k :: a <= k < a + SERVICE_PIPES_MAX && k < |answers| ==> s in Slots(services, answers[k].ready)
  }

  /** Slot `s` is served by one of as many reads, from number `a` on. */
  ghost predicate ServedDuring(served: seq<nat>, a: nat, s: nat) {
    exists k :: a <= k < a + SERVICE_PIPES_MAX && k < |served| && served[k] == s
  }

  /** A read asked select about all services, and served the next of those that it found ready. */
  ghost predicate IsTurn(services: seq<Service>, last: nat, answer: Answer, s: nat) {
    answer.watched == Descriptors(services, Watched(services, -1)) && IsNext(last, Slots(services, answer.ready), s)
  }

  ghost predicate InTurn(services: seq<Service>, answers: seq<Answer>, last: nat, served: seq<nat>) {
    && |answers| == |served|
    && forall k :: 0 <= k < |served| ==> IsTurn(services, LastServed(last, served, k), answers[k], served[k])
  }

  /** One that is ready for as many reads as there are services is served by one of them. */
  ghost predicate NobodyStarves(services: seq<Service>, answers: seq<Answer>, served: seq<nat>) {
    forall a: nat, s: nat ::
      a + SERVICE_PIPES_MAX <= |served| && s < SERVICE_PIPES_MAX && ReadyDuring(services, answers, a, s) ==>
        ServedDuring(served, a, s)
  }

  lemma InTurnNobodyStarves(services: seq<Service>, answers: seq<Answer>, last: nat, served: seq<nat>)
    requires InTurn(services, answers, last, served) && last < SERVICE_PIPES_MAX
    ensures NobodyStarves(services, answers, served)
  {
    var ready := seq(|answers|, k requires 0 <= k < |answers| => Slots(services, answers[k].ready));
    forall a: nat, s: nat |
      a + SERVICE_PIPES_MAX <= |served| && s < SERVICE_PIPES_MAX && ReadyDuring(services, answers, a, s)
      ensures ServedDuring(served, a, s)
    {
      var k := ServedInTime(last, ready, served, a, s);
    }
  }

  /** A run of reads so far: all in turn, and the reports are the messages taken from the pipes. */
  ghost predicate Polled(services: seq<Service>, last: nat, fifos: map<string, seq<byte>>, served: seq<nat>,
                         reports: seq<Report>, answers: seq<Answer>, sidLast: nat, rest: map<string, seq<byte>>) {
    && ValidSlots(served) && InTurn(services, answers, last, served)
    && sidLast == LastServed(last, served, |served|)
    && Deliver(services, fifos, served) == Some((reports, rest))
  }

  lemma InTurnOneMore(services: seq<Service>, answers: seq<Answer>, last: nat, served: seq<nat>, answer: Answer, s: nat)
    requires InTurn(services, answers, last, served)
    requires IsTurn(services, LastServed(last, served, |served|), answer, s)
    ensures InTurn(services, answers + [answer], last, served + [s])
  {
    var answers', served' := answers + [answer], served + [s];
    forall k | 0 <= k < |served'|
      ensures IsTurn(services, LastServed(last, served', k), answers'[k], served'[k])
    {
      assert LastServed(last, served', k) == LastServed(last, served, k);
      if k < |served| {
        assert IsTurn(services, LastServed(last, served, k), answers[k], served[k]);
      }
    }
  }

  lemma PolledOneMore(services: seq<Service>, last: nat, fifos: map<string, seq<byte>>, served: seq<nat>,
                      reports: seq<Report>, answers: seq<Answer>, sidLast: nat, rest: map<string, seq<byte>>,
                      s: nat, report: Report, given: seq<Answer>, rest': map<string, seq<byte>>)
    requires Polled(services, last, fifos, served, reports, answers, sidLast, rest) && s < SERVICE_PIPES_MAX
    requires |given| == 1 && IsTurn(services, sidLast, given[0], s) && Taken(rest, Pipe(services, s), report, rest')
    ensures Polled(services, last, fifos, served + [s], reports + [report], answers + given, s, rest')
  {
    assert given == [given[0]];
    InTurnOneMore(services, answers, last, served, given[0], s);
    DeliverOne(services, fifos, served, reports, rest, s, report, rest');
  }

  /** One more read over all services. */
  method PollOnce(server: FaultdServer, ghost services: seq<Service>, ghost last: nat,
                  ghost fifos: map<string, seq<byte>>, ghost log: seq<Answer>, served: seq<nat>, reports: seq<Report>,
                  ghost answers: seq<Answer>)
    returns (served': seq<nat>, reports': seq<Report>, ghost answers': seq<Answer>)
    requires server.Valid() && services == server.services[..] && server.os.answers == log + answers
    modifies server`sidLast, server.os`fifos, server.os`interruptions, server.os`failures, server.os`answers
    ensures server.Valid() && old(server.os.failures) <= server.os.failures
    ensures server.os.answers == log + answers'
    ensures server.os.failures == old(server.os.failures) &&
            Polled(services, last, fifos, served, reports, answers, old(server.sidLast), old(server.os.fifos)) ==>
              && |served'| == |served| + 1
              && Polled(services, last, fifos, served', reports', answers', server.sidLast, server.os.fifos)
  {
    ghost var sidLast, rest := server.sidLast, server.os.fifos;
    var r, report, given := server.Read(-1);
    served', reports', answers' := served, reports, answers + given;
    if r >= 0 {
      served', reports' := served + [r], reports + [report];
    }
    Associative(log, answers, given);
    if server.os.failures == old(server.os.failures) &&
       Polled(services, last, fifos, served, reports, answers, sidLast, rest) {
      PolledOneMore(services, last, fifos, served, reports, answers, sidLast, rest, r, report, given, server.os.fifos);
    }
  }

  lemma Associative<T>(a: seq<T>, b: seq<T>, c: seq<T>)
    ensures a + b + c == a + (b + c)
  {
  }

  /** Any number of reads over all services.  Each serves the first message of the next service that select found
      ready, and over as many reads as there are services, one that is ready all along is served. */
  method Poll(server: FaultdServer, n: nat) returns (served: seq<nat>, reports: seq<Report>, ghost answers: seq<Answer>)
    requires server.Valid()
    modifies server`sidLast, server.os`fifos, server.os`interruptions, server.os`failures, server.os`answers
    ensures server.Valid() && old(server.os.failures) <= server.os.failures
    ensures server.os.answers == old(server.os.answers) + answers
    ensures server.os.failures == old(server.os.failures) ==>
              && |served| == n
              && Polled(server.services[..], old(server.sidLast), old(server.os.fifos), served, reports, answers,
                        server.sidLast, server.os.fifos)
              && NobodyStarves(server.services[..], answers, served)
  {
    served, reports, answers := [], [], [];
    ghost var services, last, fifos := server.services[..], server.sidLast, server.os.fifos;
    ghost var log := server.os.answers;
    for k := 0 to n
      invariant server.Valid() && server.services[..] == services && old(server.os.failures) <= server.os.failures
      invariant server.os.answers == log + answers
      invariant server.os.failures == old(server.os.failures) ==>
                  && |served| == k
                  && Polled(services, last, fifos, served, reports, answers, server.sidLast, server.os.fifos)
    {
      served, reports, answers := PollOnce(server, services, last, fifos, log, served, reports, answers);
    }
    if server.os.failures == old(server.os.failures) {
      InTurnNobodyStarves(services, answers, last, served);
    }
  }

  datatype Op = AddOp(name: Option<string>) | RemoveOp(sid: Int32) | ReadOp(sid: Int32)

  /** Over the whole life of a server, whatever is added, removed and read and whichever steps fail, no descriptor is
      lost: the open ones are in the end those that were open at the start. */
  method Lifetime(os: Kernel, unsignedSize: bool, ops: seq<Op>)
    requires os.Valid() && 0 in os.files
    requires forall op :: op in ops && op.ReadOp? ==> Admissible(op.sid, unsignedSize)
    modifies os
    ensures os.Valid() && os.files.Keys == old(os.files.Keys)
  {
    var server := new FaultdServer(os, unsignedSize);
    for n := 0 to |ops|
      invariant server.Valid() && server.os == os && server.unsignedSize == unsignedSize
      invariant fresh(server.services) && server.external == old(os.files.Keys)
    {
      match ops[n] {
        case AddOp(name) =>
          var _ := server.Add(name);
        case RemoveOp(sid) =>
          var _ := server.Remove(sid);
        case ReadOp(sid) =>
          var _, _, _ := server.Read(sid);
      }
    }
    server.Destroy();
  }
}
