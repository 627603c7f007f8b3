/** The messages of the faultd pipe: a fixed-size record, then, if its symbols pointer is set, the text of the
    backtrace symbols up to a NUL.  Sizes are those of a 64-bit machine. */
module FaultWire {
  import opened Bytes
  import opened Wrappers

  /** sizeof(faultd_info_t); its first member is the pipe name pointer, its last the symbols pointer. */
  const INFO_SIZE := 560
  const BODY_AT := 8
  const SYMBOLS_AT := 552

  /** FAULTD_CONFIG_BACKTRACE_SYMBOLS_SIZE. */
  const SYMBOLS_SIZE := 4096

  /** The terminator does not occur. */
  predicate Free(text: seq<byte>, terminator: byte) {
    forall k :: 0 <= k < |text| ==> text[k] != terminator
  }

  /** A client's record and the symbol text that goes with it. */
  datatype Message = Message(info: seq<byte>, symbols: seq<byte>) {
    predicate Valid() { |info| == INFO_SIZE && Free(symbols, 0) }
  }

  /** What the server makes of a message: the record between its two pointers, and what it sets these to.  The
      symbols are the whole buffer they are stored in. */
  datatype Report = Report(pipename: Option<string>, body: seq<byte>, symbols: Option<seq<byte>>)

  function Body(info: seq<byte>): (body: seq<byte>)
    requires |info| == INFO_SIZE
  {
    info[BODY_AT..SYMBOLS_AT]
  }

  /** The record's symbols pointer is not NULL. */
  predicate HasSymbols(info: seq<byte>)
    requires |info| == INFO_SIZE
  {
    exists k :: SYMBOLS_AT <= k < INFO_SIZE && info[k] != 0
  }

  function Encode(m: Message): seq<byte>
    requires m.Valid()
  {
    m.info + if HasSymbols(m.info) then m.symbols + [0] else []
  }

  /** A zeroed buffer with as much of the text as fits. */
  function Stored(text: seq<byte>): (buf: seq<byte>)
    ensures |buf| == SYMBOLS_SIZE
  {
    seq(SYMBOLS_SIZE, i requires 0 <= i => if i < |text| then text[i] else 0)
  }

  function Received(m: Message): Report
    requires m.Valid()
  {
    Report(None, Body(m.info), if HasSymbols(m.info) then Some(Stored(m.symbols)) else None)
  }

  /** The text before the first terminator, if there is one. */
  function Before(buf: seq<byte>, terminator: byte): (r: Option<seq<byte>>)
    ensures r.Some? ==>
              && |r.value| < |buf| && r.value == buf[..|r.value|]
              && Free(r.value, terminator) && buf[|r.value|] == terminator
    ensures r.None? ==> Free(buf, terminator)
  {
    if buf == [] then None
    else if buf[0] == terminator then Some([])
    else
      var rest := Before(buf[1..], terminator);
      if rest.None? then None else Some([buf[0]] + rest.value)
  }

  lemma {:induction false} BeforeOf(text: seq<byte>, terminator: byte, rest: seq<byte>)
    requires Free(text, terminator)
    ensures Before(text + [terminator] + rest, terminator) == Some(text)
  {
    var s := text + [terminator] + rest;
    if text != [] {
      assert s[1..] == text[1..] + [terminator] + rest && [text[0]] + text[1..] == text;
      BeforeOf(text[1..], terminator, rest);
    }
  }

  /** A C string ends before the first NUL. */
  function CString(buf: seq<byte>): (r: Option<seq<byte>>)
    ensures r.Some? ==> |r.value| < |buf|
  {
    Before(buf, 0)
  }

  /** The stored symbols read as a C string give the text back if and only if it leaves room for the NUL. */
  lemma StoredIsText(text: seq<byte>)
    requires Free(text, 0)
    ensures CString(Stored(text)) == Some(text) <==> |text| < SYMBOLS_SIZE
    ensures |text| >= SYMBOLS_SIZE ==> Stored(text) == text[..SYMBOLS_SIZE] && CString(Stored(text)) == None
  {
    var buf := Stored(text);
    if |text| < SYMBOLS_SIZE {
      assert buf == text + [0] + buf[|text| + 1..];
      BeforeOf(text, 0, buf[|text| + 1..]);
    } else {
      assert buf == text[..SYMBOLS_SIZE];
      assert Free(buf, 0);
    }
  }

  /** Some byte of a record's symbols pointer, its last eight, is set. */
  predicate PointerSet(info: seq<byte>) {
    exists k :: 552 <= k < 560 && k < |info| && info[k] != 0
  }

  /** Two messages agree in all that the server can tell: the record between its two pointers, whether the symbols
      pointer is set, and, if it is, the symbols, as far as they fit. */
  ghost predicate Alike(m: Message, m': Message)
    requires m.Valid() && m'.Valid()
  {
    && (forall k :: 8 <= k < 552 ==> m.info[k] == m'.info[k])
    && (PointerSet(m.info) <==> PointerSet(m'.info))
    && (PointerSet(m.info) ==> Fitting(m.symbols) == Fitting(m'.symbols))
  }

  /** What fits of a text. */
  function Fitting(text: seq<byte>): seq<byte> {
    if |text| < 4096 then text else text[..4096]
  }

  lemma SamePointer(info: seq<byte>)
    requires |info| == INFO_SIZE
    ensures HasSymbols(info) <==> PointerSet(info)
  {
    if k :| SYMBOLS_AT <= k < INFO_SIZE && info[k] != 0 {
      assert info[k] != 0 && 552 <= k < 560;
    }
  }

  /** Every byte of the record is where it was, and the symbols are reported if and only if the record has any. */
  lemma ReportShowsRecord(m: Message, k: nat)
    requires m.Valid() && 8 <= k < 552
    ensures |m.info| == 560 && |Received(m).body| == 544 && Received(m).body[k - 8] == m.info[k]
    ensures Received(m).symbols.Some? <==> PointerSet(m.info)
    ensures PointerSet(m.info) ==>
              |Received(m).symbols.value| == 4096 && Fitting(m.symbols) <= Received(m).symbols.value
  {
    SamePointer(m.info);
  }

  lemma StoredApart(text: seq<byte>, text': seq<byte>)
    requires Free(text, 0) && Free(text', 0)
    ensures Stored(text) == Stored(text') <==> Fitting(text) == Fitting(text')
  {
    if Stored(text) == Stored(text') {
      StoredIsText(text);
      StoredIsText(text');
    }
    if Fitting(text) == Fitting(text') {
      forall i | 0 <= i < SYMBOLS_SIZE
        ensures Stored(text)[i] == Stored(text')[i]
      {
        assert i < |text| ==> text[i] == Fitting(text)[i];
        assert i < |text'| ==> text'[i] == Fitting(text')[i];
      }
    }
  }

  /** Reports are equal if and only if the messages are alike: nothing the client sends gets lost but the two pointers
      and what does not fit. */
  lemma ReportsDetermine(m: Message, m': Message)
    requires m.Valid() && m'.Valid()
    ensures Received(m) == Received(m') <==> Alike(m, m')
  {
    SamePointer(m.info);
    SamePointer(m'.info);
    StoredApart(m.symbols, m'.symbols);
    if Received(m) == Received(m') {
      forall k | 8 <= k < 552
        ensures m.info[k] == m'.info[k]
      {
        ReportShowsRecord(m, k);
        ReportShowsRecord(m', k);
      }
    }
  }

  /** A complete message is at the front of the stream. */
  predicate Whole(stream: seq<byte>) {
    |stream| >= INFO_SIZE && (HasSymbols(stream[..INFO_SIZE]) ==> CString(stream[INFO_SIZE..]).Some?)
  }

  /** The report of the first message, its pipe not yet named, and the stream after it. */
  function Decode(stream: seq<byte>): (Report, seq<byte>)
    requires Whole(stream)
  {
    var info := stream[..INFO_SIZE];
    if HasSymbols(info) then
      var text := CString(stream[INFO_SIZE..]).value;
      (Report(None, Body(info), Some(Stored(text))), stream[INFO_SIZE + |text| + 1..])
    else
      (Report(None, Body(info), None), stream[INFO_SIZE..])
  }

  /** Framing: a message in front of anything is recovered, and the stream stops at its end, however long the
      symbol text is. */
  lemma DecodeEncode(m: Message, rest: seq<byte>)
    requires m.Valid()
    ensures Whole(Encode(m) + rest) && Decode(Encode(m) + rest) == (Received(m), rest) && m.info <= Encode(m)
  {
    var stream := Encode(m) + rest;
    assert stream[..INFO_SIZE] == m.info;
    if HasSymbols(m.info) {
      assert stream[INFO_SIZE..] == m.symbols + [0] + rest;
      BeforeOf(m.symbols, 0, rest);
      assert stream[INFO_SIZE + |m.symbols| + 1..] == rest;
    } else {
      assert stream[INFO_SIZE..] == rest;
    }
  }

  function EncodeAll(ms: seq<Message>): seq<byte>
    requires forall m :: m in ms ==> m.Valid()
  {
    if ms == [] then [] else Encode(ms[0]) + EncodeAll(ms[1..])
  }

  /** Decoding `n` messages one after the other. */
  ghost predicate DecodesTo(stream: seq<byte>, reports: seq<Report>, rest: seq<byte>)
    decreases |reports|
  {
    if reports == [] then stream == rest
    else Whole(stream) && Decode(stream).0 == reports[0] && DecodesTo(Decode(stream).1, reports[1..], rest)
  }

  /** Any run of messages is recovered record by record, in order. */
  lemma {:induction false} DecodeEncodeAll(ms: seq<Message>, rest: seq<byte>)
    requires forall m :: m in ms ==> m.Valid()
    ensures DecodesTo(EncodeAll(ms) + rest, seq(|ms|, i requires 0 <= i < |ms| => Received(ms[i])), rest)
    decreases |ms|
  {
    var reports := seq(|ms|, i requires 0 <= i < |ms| => Received(ms[i]));
    if ms == [] {
      assert EncodeAll(ms) + rest == rest;
    } else {
      DecodeEncode(ms[0], EncodeAll(ms[1..]) + rest);
      assert EncodeAll(ms) + rest == Encode(ms[0]) + (EncodeAll(ms[1..]) + rest);
      DecodeEncodeAll(ms[1..], rest);
      assert reports[1..] == seq(|ms| - 1, i requires 0 <= i < |ms| - 1 => Received(ms[1..][i]));
    }
  }
}
