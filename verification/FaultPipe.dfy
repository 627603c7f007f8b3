/** Named pipes as the kernel offers them, and the transfers of faultd over partial and interrupted reads and
    writes. */
module FaultPipe {
  import opened Bytes
  import opened Wrappers
  import opened FaultWire

  /** A return of select: the descriptors it was given, and those of them it found ready. */
  datatype Answer = Answer(watched: set<int>, ready: set<int>)

  /** Named pipes and the descriptors open on them.  The bytes of a pipe are those in flight and still to be
      written by its clients: a blocking read waits for them. */
  class Kernel {
    /** Open descriptors and the pipe each one is open on. */
    var files: map<int, string>
    var fifos: map<string, seq<byte>>

    /** How many more transfers will be interrupted by signals. */
    var interruptions: nat
    /** Hard errors so far; a read that would block for good counts as one. */
    ghost var failures: nat
    /** What select has answered so far. */
    ghost var answers: seq<Answer>

    ghost predicate Valid()
      reads this
    {
      forall fd :: fd in files ==> files[fd] in fifos
    }

    /** The bytes to be read from a descriptor. */
    ghost function Stream(fd: int): seq<byte>
      requires Valid() && fd in files
      reads this
    {
      fifos[files[fd]]
    }

    constructor ()
      ensures Valid() && files == map[] && failures == 0
    {
      files, fifos, interruptions, failures, answers := map[], map[], 0, 0, [];
    }

    /** mkfifo: creates the pipe, finds that it exists already, or fails. */
    method MkFifo(name: string) returns (ok: bool)
      requires Valid()
      modifies `fifos, `failures
      ensures Valid()
      ensures fifos == if name in old(fifos) || !ok then old(fifos) else old(fifos)[name := []]
      ensures failures == old(failures) + (if ok then 0 else 1)
      ensures ok ==> name in fifos
    {
      ok := *;
      if !ok {
        failures := failures + 1;
      } else if name !in fifos {
        fifos := fifos[name := []];
      }
    }

    /** open: any descriptor that is not in use, or -1. */
    method Open(name: string) returns (fd: int)
      requires Valid() && name in fifos
      modifies `files, `failures
      ensures Valid()
      ensures fd >= 0 ==> fd !in old(files) && files == old(files)[fd := name] && failures == old(failures)
      ensures fd < 0 ==> files == old(files) && failures == old(failures) + 1
    {
      fd := *;
      if fd >= 0 && fd !in files {
        files := files[fd := name];
      } else {
        fd := -1;
        failures := failures + 1;
      }
    }

    /** fcntl, reading or setting the descriptor's flags. */
    method Fcntl(fd: int) returns (ok: bool)
      modifies `failures
      ensures failures == old(failures) + (if ok then 0 else 1)
    {
      ok := *;
      if !ok {
        failures := failures + 1;
      }
    }

    method Close(fd: int)
      requires Valid()
      modifies `files
      ensures Valid() && files == old(files) - {fd}
    {
      files := files - {fd};
    }

    /** read: up to `n` bytes in order, or an interruption (`rv` < 0 and `eintr`), or a hard error. */
    method Read(fd: int, buf: array<byte>, at: nat, n: nat) returns (rv: int, eintr: bool)
      requires Valid() && fd in files && n > 0 && at + n <= buf.Length
      modifies buf, `fifos, `interruptions, `failures
      ensures Valid()
      ensures rv < 0 || 1 <= rv <= n
      ensures rv < 0 ==> fifos == old(fifos) && buf[..] == old(buf[..])
      ensures rv < 0 && eintr ==> interruptions < old(interruptions)
      ensures interruptions <= old(interruptions)
      ensures failures == old(failures) + (if rv < 0 && !eintr then 1 else 0)
      ensures rv > 0 ==>
                && rv <= |old(Stream(fd))|
                && fifos == old(fifos)[files[fd] := old(Stream(fd))[rv..]]
                && buf[..] == old(buf[..at]) + old(Stream(fd))[..rv] + old(buf[at + rv..])
    {
      var stream := fifos[files[fd]];
      var k: nat :| k <= n && k <= |stream|;
      eintr := *;
      if k == 0 && eintr && interruptions > 0 {
        interruptions := interruptions - 1;
        return -1, true;
      }
      if k == 0 {
        failures := failures + 1;
        return -1, false;
      }
      for j := 0 to k
        invariant forall i :: at <= i < at + j ==> buf[i] == stream[i - at]
        invariant forall i :: 0 <= i < at || at + j <= i < buf.Length ==> buf[i] == old(buf[i])
        modifies buf
      {
        buf[at + j] := stream[j];
      }
      assert buf[..] == old(buf[..at]) + stream[..k] + old(buf[at + k..]);
      fifos := fifos[files[fd] := stream[k..]];
      return k, false;
    }

    /** write: up to `n` bytes in order, or an interruption, or a hard error. */
    method Write(fd: int, src: array<byte>, at: nat, n: nat) returns (rv: int, eintr: bool)
      requires Valid() && fd in files && n > 0 && at + n <= src.Length
      modifies `fifos, `interruptions, `failures
      ensures Valid()
      ensures rv < 0 || 1 <= rv <= n
      ensures rv < 0 ==> fifos == old(fifos)
      ensures rv < 0 && eintr ==> interruptions < old(interruptions)
      ensures interruptions <= old(interruptions)
      ensures failures == old(failures) + (if rv < 0 && !eintr then 1 else 0)
      ensures rv > 0 ==> fifos == old(fifos)[files[fd] := old(Stream(fd)) + src[at..at + rv]]
    {
      var k: nat :| k <= n;
      eintr := *;
      if k == 0 && eintr && interruptions > 0 {
        interruptions := interruptions - 1;
        return -1, true;
      }
      if k == 0 {
        failures := failures + 1;
        return -1, false;
      }
      fifos := fifos[files[fd] := fifos[files[fd]] + src[at..at + k]];
      return k, false;
    }

    /** select: at least one of the given descriptors that have bytes to read, or an interruption, or a hard
        error, such as waiting for good. */
    method Select(watched: set<int>) returns (rv: int, eintr: bool, ready: set<int>)
      requires Valid() && watched <= files.Keys
      modifies `interruptions, `failures, `answers
      ensures rv < 0 ==> answers == old(answers)
      ensures rv < 0 && eintr ==> interruptions < old(interruptions)
      ensures interruptions <= old(interruptions)
      ensures failures == old(failures) + (if rv < 0 && !eintr then 1 else 0)
      ensures rv >= 0 ==>
                && ready != {} && ready <= watched && (forall fd :: fd in ready ==> Stream(fd) != [])
                && answers == old(answers) + [Answer(watched, ready)]
    {
      var live := set fd | fd in watched && fifos[files[fd]] != [];
      ready :| ready <= live;
      eintr := *;
      if ready == {} && eintr && interruptions > 0 {
        interruptions := interruptions - 1;
        return -1, true, ready;
      }
      if ready == {} {
        failures := failures + 1;
        return -1, false, ready;
      }
      answers := answers + [Answer(watched, ready)];
      return |ready|, false, ready;
    }
  }

  /** read_size__: exactly `size` bytes, or -1. */
  method ReadSize(os: Kernel, fd: int, dst: array<byte>, size: nat) returns (r: int)
    requires os.Valid() && fd in os.files && 0 < size <= dst.Length
    modifies dst, os`fifos, os`interruptions, os`failures
    ensures os.Valid()
    ensures r == size || r == -1
    ensures os.failures == old(os.failures) + (if r < 0 then 1 else 0)
    ensures r == size ==>
              && size <= |old(os.Stream(fd))|
              && dst[..size] == old(os.Stream(fd))[..size]
              && os.fifos == old(os.fifos)[os.files[fd] := old(os.Stream(fd))[size..]]
    ensures os.fifos == old(os.fifos)[os.files[fd] := os.Stream(fd)]
  {
    ghost var stream := os.Stream(fd);
    var remaining, p := size, 0;
    while true
      invariant os.Valid() && os.failures == old(os.failures) && p + remaining == size && remaining > 0
      invariant p <= |stream| && dst[..p] == stream[..p]
      invariant os.fifos == old(os.fifos)[os.files[fd] := stream[p..]]
      decreases remaining, os.interruptions
    {
      var rv, eintr := os.Read(fd, dst, p, remaining);
      if rv < 0 {
        if eintr {
          continue;
        }
        return -1;
      }
      p := p + rv;
      remaining := remaining - rv;
      if remaining == 0 {
        break;
      }
    }
    return size;
  }

  /** write_size__: all `size` bytes, or -1 after some prefix of them. */
  method WriteSize(os: Kernel, fd: int, src: array<byte>, size: nat) returns (r: int)
    requires os.Valid() && fd in os.files && 0 < size <= src.Length
    modifies os`fifos, os`interruptions, os`failures
    ensures os.Valid()
    ensures r == size || r == -1
    ensures os.failures == old(os.failures) + (if r < 0 then 1 else 0)
    ensures r == size ==> os.fifos == old(os.fifos)[os.files[fd] := old(os.Stream(fd)) + src[..size]]
    ensures r < 0 ==> old(os.Stream(fd)) <= os.Stream(fd) && os.fifos == old(os.fifos)[os.files[fd] := os.Stream(fd)]
  {
    ghost var stream := os.Stream(fd);
    var remaining, p := size, 0;
    assert stream + src[..0] == stream;
    while true
      invariant os.Valid() && os.failures == old(os.failures) && p + remaining == size && remaining > 0
      invariant os.fifos == old(os.fifos)[os.files[fd] := stream + src[..p]]
      decreases remaining, os.interruptions
    {
      var rv, eintr := os.Write(fd, src, p, remaining);
      if rv < 0 {
        if eintr {
          continue;
        }
        return -1;
      }
      assert stream + src[..p] + src[p..p + rv] == stream + src[..p + rv];
      p := p + rv;
      remaining := remaining - rv;
      if remaining == 0 {
        break;
      }
    }
    return size;
  }

  /** read_until__: bytes up to a terminator, of which as many are kept as fit; -1 on error. */
  method ReadUntil(os: Kernel, fd: int, terminator: byte, dst: array<byte>, size: nat) returns (r: int)
    requires os.Valid() && fd in os.files && size <= dst.Length
    modifies dst, os`fifos, os`interruptions, os`failures
    ensures os.Valid()
    ensures os.failures == old(os.failures) + (if r < 0 then 1 else 0)
    ensures os.fifos == old(os.fifos)[os.files[fd] := os.Stream(fd)]
    ensures r >= 0 ==>
              var text := Before(old(os.Stream(fd)), terminator);
              && text.Some? && r == |text.value|
              && os.fifos == old(os.fifos)[os.files[fd] := old(os.Stream(fd))[r + 1..]]
              && forall i :: 0 <= i < size ==> dst[i] == if i <= r then old(os.Stream(fd))[i] else old(dst[i])
  {
    ghost var stream := os.Stream(fd);
    var count := 0;
    var c := new byte[1];
    while true
      invariant os.Valid() && os.failures == old(os.failures) && count <= |stream|
      invariant forall i :: 0 <= i < count ==> stream[i] != terminator
      invariant os.fifos == old(os.fifos)[os.files[fd] := stream[count..]]
      invariant forall i :: 0 <= i < size ==> dst[i] == if i < count then stream[i] else old(dst[i])
      decreases |stream| - count, os.interruptions
    {
      var rv, eintr := os.Read(fd, c, 0, 1);
      if rv < 0 {
        if eintr {
          continue;
        }
        return rv;
      }
      assert c[0] == stream[count];
      if count < size {
        dst[count] := c[0];
      }
      if c[0] == terminator {
        assert stream == stream[..count] + [terminator] + stream[count + 1..];
        BeforeOf(stream[..count], terminator, stream[count + 1..]);
        return count;
      }
      count := count + 1;
    }
  }

  /** The foreign backtrace_symbols_fd: the text appears on the pipe. */
  method EmitSymbols(os: Kernel, fd: int, text: seq<byte>)
    requires os.Valid() && fd in os.files
    modifies os`fifos
    ensures os.Valid() && os.fifos == old(os.fifos)[os.files[fd] := old(os.Stream(fd)) + text]
  {
    os.fifos := os.fifos[os.files[fd] := os.fifos[os.files[fd]] + text];
  }

  /** faultd_client_write: without a hard error, exactly the message's encoding goes onto the pipe. */
  method ClientWrite(os: Kernel, fd: int, m: Message) returns (r: int)
    requires os.Valid() && fd in os.files && m.Valid()
    modifies os`fifos, os`interruptions, os`failures
    ensures os.Valid() && old(os.failures) <= os.failures
    ensures os.failures == old(os.failures) ==>
              r == 0 && os.fifos == old(os.fifos)[os.files[fd] := old(os.Stream(fd)) + Encode(m)]
  {
    var info := new byte[INFO_SIZE](i requires 0 <= i < INFO_SIZE => m.info[i]);
    assert info[..INFO_SIZE] == m.info;
    r := WriteSize(os, fd, info, INFO_SIZE);
    if r < 0 {
      return;
    }
    if HasSymbols(m.info) {
      var c := new byte[1];
      c[0] := 0;
      EmitSymbols(os, fd, m.symbols);
      assert c[..1] == [0];
      var _ := WriteSize(os, fd, c, 1);
      assert old(os.Stream(fd)) + m.info + m.symbols + [0] == old(os.Stream(fd)) + Encode(m);
    } else {
      assert m.info == Encode(m);
    }
    r := 0;
  }

  /** The part of faultd_server_read that reads one message from a ready pipe. */
  method ReadMessage(os: Kernel, fd: int) returns (r: int, report: Report)
    requires os.Valid() && fd in os.files
    modifies os`fifos, os`interruptions, os`failures
    ensures os.Valid() && os.fifos == old(os.fifos)[os.files[fd] := os.Stream(fd)] && old(os.failures) <= os.failures
    ensures r < 0 ==> os.failures > old(os.failures)
    ensures os.failures == old(os.failures) ==>
              Whole(old(os.Stream(fd))) && (report, os.Stream(fd)) == Decode(old(os.Stream(fd)))
  {
    var info := new byte[INFO_SIZE];
    r := ReadSize(os, fd, info, INFO_SIZE);
    report := Report(None, Body(info[..]), None);
    if r < 0 {
      return;
    }
    ghost var stream := old(os.Stream(fd));
    assert info[..] == stream[..INFO_SIZE];
    if HasSymbols(info[..]) {
      var symbols := new byte[SYMBOLS_SIZE](_ => 0);
      var n := ReadUntil(os, fd, 0, symbols, SYMBOLS_SIZE);
      if n >= 0 {
        assert symbols[..] == Stored(stream[INFO_SIZE..][..n]);
        assert stream[INFO_SIZE..][n + 1..] == stream[INFO_SIZE + n + 1..];
      }
      report := Report(None, Body(info[..]), Some(symbols[..]));
    }
  }
}
