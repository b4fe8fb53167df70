/** The writer of the chunked transfer coding, with the identity compressor. */
module ChunkedWriter {
  import opened Sequences
  import opened Strings
  import opened Stream
  import opened Chunked

  /** The sending side of a connection: a write takes any non-empty part of what it is given,
      or breaks the connection. */
  class OutStream {
    var written: string
    var broken: bool

    constructor ()
      ensures written == [] && !broken
    {
      written := [];
      broken := false;
    }

    method Write(d: string) returns (n: int)
      requires d != []
      modifies this
      ensures n < 0 ==> broken && written == old(written)
      ensures n >= 0 ==> 0 < n <= |d| && written == old(written) + d[..n] && broken == old(broken)
    {
      if * {
        broken := true;
        return -1;
      }
      n :| 0 < n <= |d|;
      written := written + d[..n];
    }

    method IsWritable() returns (yes: bool)
      modifies `broken
      ensures !yes ==> broken
      ensures yes ==> broken == old(broken)
    {
      yes := *;
      if !yes { broken := true; }
    }
  }

  /** `write_data`: everything, in as many writes as it takes. */
  method WriteData(strm: OutStream, d: string) returns (ok: bool)
    modifies strm
    ensures old(strm.broken) ==> strm.broken
    ensures ok ==> strm.written == old(strm.written) + d && strm.broken == old(strm.broken)
    ensures !ok ==> strm.broken
  {
    ghost var before := strm.written;
    var offset := 0;
    while offset < |d|
      invariant offset <= |d|
      invariant strm.written == before + d[..offset] && strm.broken == old(strm.broken)
    {
      var length := strm.Write(d[offset..]);
      if length < 0 { return false; }
      assert d[..offset] + d[offset..][..length] == d[..offset + length];
      Regroup(before, d[..offset], d[offset..][..length]);
      offset := offset + length;
    }
    assert d[..|d|] == d;
    return true;
  }

  function HexDigitChar(d: int): char
    requires 0 <= d < 16
  {
    "0123456789abcdef"[d]
  }

  /** `from_i_to_hex` */
  function Hex(n: nat): string
  {
    if n < 16 then [HexDigitChar(n)] else Hex(n / 16) + [HexDigitChar(n % 16)]
  }

  method FromIToHex(n: nat) returns (ret: string)
    ensures ret == Hex(n)
  {
    ret := [HexDigitChar(n % 16)];
    var m := n / 16;
    while m > 0
      invariant Hex(n) == if m > 0 then Hex(m) + ret else ret
    {
      var digit := HexDigitChar(m % 16);
      if m >= 16 {
        Regroup(Hex(m / 16), [digit], ret);
      }
      ret := [digit] + ret;
      m := m / 16;
    }
  }

  /** A call the content provider makes on its sink. */
  datatype Call = Write(data: string) | Done(trailer: Fields)

  /** One run of the content provider: its calls, and whether it wants to go on. */
  datatype Turn = Turn(calls: seq<Call>, ok: bool)

  datatype Error = Success | WriteError | Canceled

  function Chunk(data: string): string
  {
    Hex(|data|) + CRLF + data + CRLF
  }

  function FieldLine(field: (string, string)): string
  {
    field.0 + ": " + field.1 + CRLF
  }

  function FieldLines(trailer: Fields): string
  {
    if trailer == [] then [] else FieldLine(trailer[0]) + FieldLines(trailer[1..])
  }

  function CallText(call: Call): string
  {
    match call
    case Write(data) => if data == [] then [] else Chunk(data)
    case Done(trailer) => "0" + CRLF + FieldLines(trailer) + CRLF
  }

  function CallsText(calls: seq<Call>): string
  {
    if calls == [] then [] else CallText(calls[0]) + CallsText(calls[1..])
  }

  /** `data_available` after a series of calls: the last one decides. */
  function AvailableAfter(calls: seq<Call>, available: bool): bool
  {
    if calls == [] then available
    else var last := calls[|calls| - 1];
      last.Write? && last.data != []
  }

  /** What the writer sends, its answer and its error, on a connection that does not break.
      `k` counts the provider's runs; a provider with no run left gives up. */
  datatype Sending = Sending(text: string, ok: bool, error: Error)

  function Send(turns: seq<Turn>, available: bool, k: nat, isShuttingDown: nat -> bool): Sending
    decreases |turns|
  {
    if !available || isShuttingDown(k) then Sending([], true, Success)
    else if turns == [] then Sending([], false, Canceled)
    else
      var turn := turns[0];
      var text := CallsText(turn.calls);
      if !turn.ok then Sending(text, false, Canceled)
      else
        var later := Send(turns[1..], AvailableAfter(turn.calls, available), k + 1, isShuttingDown);
        later.(text := text + later.text)
  }

  class ChunkedSink {
    const strm: OutStream
    var offset: nat
    var dataAvailable: bool
    var ok: bool

    constructor (strm: OutStream)
      ensures this.strm == strm && offset == 0 && dataAvailable && ok
    {
      this.strm := strm;
      offset, dataAvailable, ok := 0, true, true;
    }

    /** Either the connection broke, or `text` was sent after `before`. */
    twostate predicate Sent(text: string)
      reads this, strm
    {
      && (old(strm.broken) ==> strm.broken)
      && (old(!ok) ==> !ok)
      && (!ok ==> strm.broken || old(!ok))
      && (!strm.broken && old(ok) ==> ok && strm.written == old(strm.written) + text)
    }

    /** `data_sink.write` */
    method WriteChunk(d: string) returns (r: bool)
      modifies this, strm
      ensures Sent(CallText(Write(d))) && r == ok
      ensures old(ok) ==> dataAvailable == (d != []) && offset == old(offset) + |d|
      ensures old(!ok) ==> unchanged(this) && unchanged(strm)
    {
      if ok {
        dataAvailable := |d| > 0;
        offset := offset + |d|;
        if d != [] {
          var size := FromIToHex(|d|);
          var chunk := size + CRLF + d + CRLF;
          var writable := strm.IsWritable();
          var wrote := false;
          if writable {
            wrote := WriteData(strm, chunk);
          }
          if !wrote { ok := false; }
        }
      }
      return ok;
    }

    /** `data_sink.done` and `data_sink.done_with_trailer` */
    method DoneWithTrailer(trailer: Fields)
      modifies this, strm
      ensures Sent(CallText(Done(trailer)))
      ensures old(ok) ==> !dataAvailable && offset == old(offset)
      ensures old(!ok) ==> unchanged(this) && unchanged(strm)
    {
      if !ok { return; }
      dataAvailable := false;
      ghost var before := strm.written;
      ghost var marker := "0" + CRLF;
      var wrote := WriteData(strm, "0" + CRLF);
      if !wrote { ok := false; }
      for i := 0 to |trailer|
        invariant !dataAvailable && offset == old(offset)
        invariant !ok ==> strm.broken
        invariant old(strm.broken) ==> strm.broken
        invariant !strm.broken ==> strm.written == before + (marker + FieldLines(trailer[..i]))
      {
        ghost var sent := FieldLines(trailer[..i]);
        FieldLinesGrow(trailer[..i], trailer[i]);
        assert trailer[..i] + [trailer[i]] == trailer[..i + 1];
        Regroup(before, marker + sent, FieldLine(trailer[i]));
        Regroup(marker, sent, FieldLine(trailer[i]));
        wrote := WriteData(strm, trailer[i].0 + ": " + trailer[i].1 + CRLF);
        if !wrote { ok := false; }
      }
      assert trailer[..|trailer|] == trailer;
      Regroup(before, marker + FieldLines(trailer), CRLF);
      wrote := WriteData(strm, CRLF);
      if !wrote { ok := false; }
    }

    /** One run of the content provider. */
    method Run(turn: Turn) returns (r: bool)
      requires ok
      modifies this, strm
      ensures Sent(CallsText(turn.calls)) && r == turn.ok
      ensures !strm.broken ==> dataAvailable == AvailableAfter(turn.calls, old(dataAvailable))
    {
      ghost var before := strm.written;
      for i := 0 to |turn.calls|
        invariant (old(strm.broken) ==> strm.broken) && (!ok ==> strm.broken)
        invariant !strm.broken ==> strm.written == before + CallsText(turn.calls[..i])
        invariant !strm.broken ==> dataAvailable == AvailableAfter(turn.calls[..i], old(dataAvailable))
      {
        CallsTextGrow(turn.calls[..i], turn.calls[i]);
        assert turn.calls[..i] + [turn.calls[i]] == turn.calls[..i + 1];
        Regroup(before, CallsText(turn.calls[..i]), CallText(turn.calls[i]));
        match turn.calls[i]
        case Write(data) =>
          var accepted := WriteChunk(data);
        case Done(trailer) =>
          DoneWithTrailer(trailer);
      }
      assert turn.calls[..|turn.calls|] == turn.calls;
      return turn.ok;
    }
  }

  lemma {:induction false} FieldLinesGrow(fields: Fields, field: (string, string))
    ensures FieldLines(fields + [field]) == FieldLines(fields) + FieldLine(field)
  {
    if fields != [] {
      FieldLinesGrow(fields[1..], field);
      assert (fields + [field])[1..] == fields[1..] + [field];
      Regroup(FieldLine(fields[0]), FieldLines(fields[1..]), FieldLine(field));
    } else {
      assert (fields + [field])[1..] == [];
    }
  }

  lemma {:induction false} CallsTextGrow(calls: seq<Call>, call: Call)
    ensures CallsText(calls + [call]) == CallsText(calls) + CallText(call)
  {
    if calls != [] {
      CallsTextGrow(calls[1..], call);
      assert (calls + [call])[1..] == calls[1..] + [call];
      Regroup(CallText(calls[0]), CallsText(calls[1..]), CallText(call));
    } else {
      assert (calls + [call])[1..] == [];
    }
  }

  /** `write_content_chunked`: run the provider until it is done. */
  method WriteContentChunked(strm: OutStream, turns: seq<Turn>, isShuttingDown: nat -> bool)
    returns (ok: bool, error: Error)
    modifies strm
    ensures var s := Send(turns, true, 0, isShuttingDown);
            !strm.broken ==> strm.written == old(strm.written) + s.text && ok == s.ok && error == s.error
    ensures ok <==> error == Success
  {
    var sink := new ChunkedSink(strm);
    ghost var want := Send(turns, true, 0, isShuttingDown);
    ghost var before, sent := strm.written, [];
    var k := 0;
    while sink.dataAvailable && !isShuttingDown(k)
      invariant k <= |turns| && sink.ok && sink.strm == strm && fresh(sink)
      invariant old(strm.broken) ==> strm.broken
      invariant !strm.broken ==> strm.written == before + sent
      invariant !strm.broken ==>
        var s := Send(turns[k..], sink.dataAvailable, k, isShuttingDown); want == s.(text := sent + s.text)
      decreases |turns| - k
    {
      var writable := strm.IsWritable();
      if !writable { return false, WriteError; }
      if k == |turns| { return false, Canceled; }
      ghost var text, later := CallsText(turns[k].calls), Send(turns[k..], sink.dataAvailable, k, isShuttingDown);
      assert turns[k..][1..] == turns[k + 1..];
      var go := sink.Run(turns[k]);
      Regroup(before, sent, text);
      if !go { return false, Canceled; }
      if !sink.ok { return false, WriteError; }
      ghost var rest := Send(turns[k + 1..], AvailableAfter(turns[k].calls, true), k + 1, isShuttingDown);
      Regroup(sent, text, rest.text);
      sent := sent + text;
      k := k + 1;
    }
    return true, Success;
  }
}
