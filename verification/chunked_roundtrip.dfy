/** What the chunked writer sends is what the chunked reader delivers. */
module ChunkedRoundTrip {
  import opened Sequences
  import opened Strings
  import opened UrlCoding
  import opened Stream
  import opened Chunked
  import opened ChunkedWriter

  // ----- size lines

  lemma {:induction false} HexDigitCharValue(d: int)
    requires 0 <= d < 16
    ensures HexDigit(HexDigitChar(d)) == d && HexDigitChar(d) != 'x' && HexDigitChar(d) != 'X'
    ensures !IsSpace(HexDigitChar(d)) && HexDigitChar(d) != '-' && HexDigitChar(d) != '+'
    ensures HexDigitChar(d) != '\n' && HexDigitChar(d) != '\0'
  {
  }

  predicate IsDigits(s: string)
  {
    forall i :: 0 <= i < |s| ==> HexDigit(s[i]) >= 0
  }

  lemma {:induction false} HexIsDigits(n: nat)
    ensures Hex(n) != [] && IsDigits(Hex(n)) && DigitsValue(Hex(n)) == n
  {
    HexDigitCharValue(n % 16);
    if n >= 16 {
      HexIsDigits(n / 16);
      var h := Hex(n);
      assert h[..|h| - 1] == Hex(n / 16);
    } else {
      assert Hex(n)[..0] == [];
    }
  }

  lemma {:induction false} DigitShape(c: char)
    requires HexDigit(c) >= 0
    ensures !IsSpace(c) && c != '-' && c != '+' && c != 'x' && c != 'X' && c != '\n' && c != '\0' && c != '\r'
  {
  }

  lemma {:induction false} DigitRunIs(h: string, rest: string)
    requires IsDigits(h) && (rest == [] || HexDigit(rest[0]) < 0)
    ensures DigitRun(h + rest) == |h|
  {
    if h != [] {
      assert (h + rest)[1..] == h[1..] + rest;
      DigitRunIs(h[1..], rest);
    } else {
      assert h + rest == rest;
    }
  }

  /** `strtoul` reads back the size that `from_i_to_hex` wrote, and saturates. */
  lemma {:induction false} ReadSize(n: nat)
    ensures StrToUl(Hex(n) + CRLF) == (true, if n > ULONG_MAX then ULONG_MAX else n)
  {
    var h := Hex(n);
    HexIsDigits(n);
    NoSign(h);
    NoPrefix(h);
    DigitRunIs(h, CRLF);
    assert (h + CRLF)[..|h|] == h;
  }

  lemma {:induction false} NoSign(h: string)
    requires h != [] && IsDigits(h)
    ensures SkipSpace(h + CRLF) == h + CRLF && (h + CRLF)[0] != '-' && (h + CRLF)[0] != '+'
  {
    DigitShape(h[0]);
    assert (h + CRLF)[0] == h[0];
  }

  lemma {:induction false} NoPrefix(h: string)
    requires h != [] && IsDigits(h)
    ensures !HasHexPrefix(h + CRLF)
  {
    if |h| > 1 {
      DigitShape(h[1]);
    } else {
      assert (h + CRLF)[1] == '\r';
    }
  }

  // ----- lines

  /** A line without newline and zero byte is read as such, whatever follows. */
  lemma {:induction false} LineIs(line: string, rest: string)
    requires '\n' !in line && '\0' !in line
    ensures var s := line + CRLF + rest;
            && (forall fails :: HasLine(s, fails))
            && LineOf(s) == line + CRLF && BehindLine(s) == rest && CString(LineOf(s)) == line + CRLF
  {
    var s := line + CRLF + rest;
    assert s == (line + "\r") + ['\n'] + rest;
    NewlineAt(line + "\r", rest);
    assert s[|line| + 1] == '\n';
    assert LineOf(s) == line + CRLF;
    FirstIndexAt(line + CRLF, '\0', |line| + 2);
  }

  // ----- chunks

  function Chunks(datas: seq<string>): string
  {
    if datas == [] then [] else Chunk(datas[0]) + Chunks(datas[1..])
  }

  /** Sizes that the reader does not take for an overflow. */
  predicate ReadableSizes(datas: seq<string>)
  {
    forall i :: 0 <= i < |datas| ==> |datas[i]| < ULONG_MAX
  }

  lemma {:induction false} ReadChunk(data: string, rest: string, fails: bool, content: string)
    requires data != []
    ensures |data| < ULONG_MAX ==>
      ReadChunks(Chunk(data) + rest, fails, content) == ReadChunks(rest, fails, content + data)
    ensures |data| >= ULONG_MAX ==> !ReadChunks(Chunk(data) + rest, fails, content).ok
  {
    var h, tail := Hex(|data|), data + (CRLF + rest);
    HexIsDigits(|data|);
    assert '\n' !in h && '\0' !in h by {
      forall i | 0 <= i < |h| { DigitShape(h[i]); }
    }
    assert Chunk(data) + rest == h + CRLF + tail;
    LineIs(h, tail);
    ReadSize(|data|);
    assert tail[..|data|] == data && tail[|data|..] == CRLF + rest;
    assert CRLF + rest == [] + CRLF + rest;
    LineIs([], rest);
    assert [] + CRLF == CRLF;
  }

  lemma {:induction false} ReadableSplit(datas: seq<string>)
    requires datas != []
    ensures ReadableSizes(datas) <==> |datas[0]| < ULONG_MAX && ReadableSizes(datas[1..])
  {
    assert forall i :: 0 < i < |datas| ==> datas[i] == datas[1..][i - 1];
  }

  lemma {:induction false} ReadAllChunks(datas: seq<string>, rest: string, fails: bool, content: string)
    requires forall i :: 0 <= i < |datas| ==> datas[i] != []
    ensures ReadableSizes(datas) ==>
      ReadChunks(Chunks(datas) + rest, fails, content) == ReadChunks(rest, fails, content + Concat(datas))
    ensures !ReadableSizes(datas) ==> !ReadChunks(Chunks(datas) + rest, fails, content).ok
    decreases |datas|
  {
    if datas != [] {
      var data, more, after := datas[0], Chunks(datas[1..]), Concat(datas[1..]);
      ReadableSplit(datas);
      Regroup(Chunk(data), more, rest);
      ReadChunk(data, more + rest, fails, content);
      ReadAllChunks(datas[1..], rest, fails, content + data);
      Regroup(content, data, after);
    } else {
      assert [] + rest == rest && content + [] == content;
    }
  }

  // ----- trailer

  /** A field that a line can carry. */
  predicate GoodField(field: (string, string))
  {
    var (key, val) := field;
    && ':' !in key && '\n' !in key && '\0' !in key && '\n' !in val && '\0' !in val
    && val != [] && Trimmed(val) && |key| + |val| + 4 <= 8192
  }

  /** What the reader makes of a value: it undoes percent coding, except in a `Location`, whatever
      the case of its letters. */
  function Delivered(field: (string, string)): (string, string)
  {
    if |field.0| == 8 && StartsWithNoCase(field.0, "location") then field else (field.0, Decoded(field.1, false))
  }

  function AllDelivered(trailer: Fields): Fields
  {
    if trailer == [] then [] else [Delivered(trailer[0])] + AllDelivered(trailer[1..])
  }

  /** A field arrives as it was before its value was percent-coded, or unchanged when there is no
      percent sign in it or when it is a `Location`. */
  lemma {:induction false} FieldArrives(key: string, val: string)
    ensures !EqualNoCase(key, "Location") && IsByteString(val) ==> Delivered((key, Encoded(val))) == (key, val)
    ensures EqualNoCase(key, "Location") || '%' !in val ==> Delivered((key, val)) == (key, val)
  {
    if IsByteString(val) {
      DecodeUndoesEncode(val, false);
    }
    if '%' !in val {
      PlainDecoded(val);
    }
    AnyCase(key);
  }

  lemma {:induction false} AnyCase(key: string)
    ensures EqualNoCase(key, "Location") <==> |key| == 8 && StartsWithNoCase(key, "location")
  {
    assert forall i :: 0 <= i < 8 ==> ToLower("Location"[i]) == ToLower("location"[i]);
  }

  lemma {:induction false} PlainDecoded(s: string)
    requires '%' !in s
    ensures Decoded(s, false) == s
  {
    if s != [] {
      PlainDecoded(s[1..]);
      assert DecodeStep(s, 0, false) == ([s[0]], 1);
      assert s == [s[0]] + s[1..];
    }
  }

  lemma {:induction false} HeaderFieldIs(key: string, val: string)
    requires GoodField((key, val))
    ensures HeaderField(key + ": " + val) == [Delivered((key, val))]
  {
    var s := key + ": " + val;
    assert s[|s| - 1] == val[|val| - 1];
    assert TrimRight(s) == s;
    assert s == key + [':'] + (" " + val);
    FirstIndexIs(key, ':', " " + val);
    assert s[..|key|] == key && s[|key| + 1..] == [' '] + val;
    assert ([' '] + val)[1..] == val;
    assert TrimLeft([' '] + val) == val;
    AnyCase(key);
  }

  lemma {:induction false} ReadField(key: string, val: string, rest: string, fails: bool, content: string, fields: Fields)
    requires GoodField((key, val))
    ensures ReadTrailer(FieldLine((key, val)) + rest, fails, content, fields)
         == ReadTrailer(rest, fails, content, fields + [Delivered((key, val))])
  {
    var line := key + ": " + val;
    assert FieldLine((key, val)) == line + CRLF;
    LineIs(line, rest);
    assert |line + CRLF| > 2;
    assert Stripped(line + CRLF) == line;
    HeaderFieldIs(key, val);
  }

  lemma {:induction false} FieldMoves(fields: Fields, trailer: Fields)
    requires trailer != []
    ensures fields + [Delivered(trailer[0])] + AllDelivered(trailer[1..]) == fields + AllDelivered(trailer)
  {
  }

  lemma {:induction false} ReadFields(trailer: Fields, rest: string, fails: bool, content: string, fields: Fields)
    requires forall i :: 0 <= i < |trailer| ==> GoodField(trailer[i])
    ensures ReadTrailer(FieldLines(trailer) + (CRLF + rest), fails, content, fields)
         == Reading(true, content, fields + AllDelivered(trailer), rest)
    decreases |trailer|
  {
    if trailer == [] {
      assert [] + (CRLF + rest) == [] + CRLF + rest;
      LineIs([], rest);
      assert [] + CRLF == CRLF && fields + [] == fields;
    } else {
      Regroup(FieldLine(trailer[0]), FieldLines(trailer[1..]), CRLF + rest);
      ReadField(trailer[0].0, trailer[0].1, FieldLines(trailer[1..]) + (CRLF + rest), fails, content, fields);
      assert trailer[0] == (trailer[0].0, trailer[0].1);
      ReadFields(trailer[1..], rest, fails, content, fields + [Delivered(trailer[0])]);
      FieldMoves(fields, trailer);
    }
  }

  lemma {:induction false} ReadLastChunk(trailer: Fields, rest: string, fails: bool, content: string)
    requires forall i :: 0 <= i < |trailer| ==> GoodField(trailer[i])
    ensures ReadChunks(CallText(Done(trailer)) + rest, fails, content) == Reading(true, content, AllDelivered(trailer), rest)
  {
    var tail := FieldLines(trailer) + (CRLF + rest);
    assert CallText(Done(trailer)) + rest == "0" + CRLF + tail;
    LineIs("0", tail);
    assert Hex(0) == "0";
    ReadSize(0);
    ReadFields(trailer, rest, fails, content, []);
    assert [] + AllDelivered(trailer) == AllDelivered(trailer);
  }

  // ----- the provider's script

  const NEVER: nat -> bool := _ => false

  predicate AllWrites(calls: seq<Call>)
  {
    forall i :: 0 <= i < |calls| ==> calls[i].Write?
  }

  /** A provider that only writes, and in its last run ends with `done`. */
  predicate Script(turns: seq<Turn>, trailer: Fields)
  {
    && turns != [] && turns[0].ok
    && if |turns| == 1 then EndsWithDone(turns[0].calls, trailer)
       else AllWrites(turns[0].calls) && Script(turns[1..], trailer)
  }

  predicate EndsWithDone(calls: seq<Call>, trailer: Fields)
  {
    calls != [] && calls[|calls| - 1] == Done(trailer) && AllWrites(calls[..|calls| - 1])
  }

  /** Some run before the last one leaves off with an empty write. */
  predicate LeavesOffEmpty(turns: seq<Turn>)
  {
    |turns| > 1 && (EndsEmpty(turns[0].calls) || LeavesOffEmpty(turns[1..]))
  }

  predicate EndsEmpty(calls: seq<Call>)
  {
    calls != [] && calls[|calls| - 1] == Write([])
  }

  /** The non-empty data of the writes among some calls. */
  function Datas(calls: seq<Call>): seq<string>
  {
    if calls == [] then []
    else (if calls[0].Write? && calls[0].data != [] then [calls[0].data] else []) + Datas(calls[1..])
  }

  function AllDatas(turns: seq<Turn>): seq<string>
  {
    if turns == [] then [] else Datas(turns[0].calls) + AllDatas(turns[1..])
  }

  lemma {:induction false} ChunksAppend(xs: seq<string>, ys: seq<string>)
    ensures Chunks(xs + ys) == Chunks(xs) + Chunks(ys)
  {
    if xs != [] {
      ChunksAppend(xs[1..], ys);
      assert (xs + ys)[1..] == xs[1..] + ys && (xs + ys)[0] == xs[0];
      Regroup(Chunk(xs[0]), Chunks(xs[1..]), Chunks(ys));
    } else {
      assert xs + ys == ys;
    }
  }

  lemma {:induction false} WritesText(calls: seq<Call>)
    requires AllWrites(calls)
    ensures CallsText(calls) == Chunks(Datas(calls))
  {
    if calls != [] {
      WritesText(calls[1..]);
      if calls[0].data != [] {
        assert Datas(calls)[1..] == Datas(calls[1..]);
      } else {
        assert Datas(calls) == Datas(calls[1..]);
      }
    }
  }

  lemma {:induction false} DatasNonEmpty(calls: seq<Call>)
    ensures forall i :: 0 <= i < |Datas(calls)| ==> Datas(calls)[i] != []
  {
    if calls != [] {
      DatasNonEmpty(calls[1..]);
    }
  }

  lemma {:induction false} AllDatasNonEmpty(turns: seq<Turn>)
    ensures forall i :: 0 <= i < |AllDatas(turns)| ==> AllDatas(turns)[i] != []
  {
    if turns != [] {
      DatasNonEmpty(turns[0].calls);
      AllDatasNonEmpty(turns[1..]);
    }
  }

  lemma {:induction false} DoneText(calls: seq<Call>, trailer: Fields)
    requires EndsWithDone(calls, trailer)
    ensures CallsText(calls) == Chunks(Datas(calls)) + CallText(Done(trailer))
  {
    var writes := calls[..|calls| - 1];
    assert calls == writes + [Done(trailer)];
    CallsTextGrow(writes, Done(trailer));
    WritesText(writes);
    DatasOfLast(writes, Done(trailer));
  }

  lemma {:induction false} DatasOfLast(calls: seq<Call>, call: Call)
    requires call.Done?
    ensures Datas(calls + [call]) == Datas(calls)
  {
    if calls != [] {
      DatasOfLast(calls[1..], call);
      assert (calls + [call])[1..] == calls[1..] + [call];
    } else {
      assert (calls + [call])[1..] == [];
    }
  }

  /** The text of a script: all its chunks and the last chunk, or, when some run leaves off
      with an empty write, a shorter series of chunks and nothing more. */
  lemma {:induction false} ScriptText(turns: seq<Turn>, trailer: Fields, k: nat) returns (sent: seq<string>)
    requires Script(turns, trailer)
    ensures sent <= AllDatas(turns)
    ensures var s := Send(turns, true, k, NEVER);
            && s.ok
            && if LeavesOffEmpty(turns) then s.text == Chunks(sent)
               else sent == AllDatas(turns) && s.text == Chunks(sent) + CallText(Done(trailer))
    decreases |turns|
  {
    var calls, rest := turns[0].calls, turns[1..];
    var available := AvailableAfter(calls, true);
    if |turns| == 1 {
      DoneText(calls, trailer);
      assert rest == [];
      assert Send(rest, false, k + 1, NEVER).text == [];
      sent := Datas(calls);
      assert AllDatas(turns) == sent + [];
    } else if !available {
      WritesText(calls);
      assert Send(rest, false, k + 1, NEVER).text == [];
      sent := Datas(calls);
    } else {
      WritesText(calls);
      var more := ScriptText(rest, trailer, k + 1);
      sent := Datas(calls) + more;
      ChunksAppend(Datas(calls), more);
      Regroup(Chunks(Datas(calls)), Chunks(more), CallText(Done(trailer)));
    }
  }

  /** Main result: what the writer sends for a script is read back as exactly the data written,
      with the trailer fields as they arrive, up to the last byte and no further, just when no run of the
      provider but the last leaves off with an empty write, and no chunk is so long that its
      size reads as an overflow. */
  lemma {:induction false} RoundTrip(turns: seq<Turn>, trailer: Fields, rest: string, fails: bool)
    requires Script(turns, trailer) && forall i :: 0 <= i < |trailer| ==> GoodField(trailer[i])
    ensures var s := Send(turns, true, 0, NEVER);
            var complete := !LeavesOffEmpty(turns) && ReadableSizes(AllDatas(turns));
            && s.ok
            && (complete ==>
                  ReadChunks(s.text + rest, fails, []) == Reading(true, Concat(AllDatas(turns)), AllDelivered(trailer), rest))
            && (ReadChunks(s.text, fails, []).ok <==> complete)
  {
    var sent := ScriptText(turns, trailer, 0);
    AllDatasNonEmpty(turns);
    assert forall i :: 0 <= i < |sent| ==> sent[i] == AllDatas(turns)[i];
    if LeavesOffEmpty(turns) {
      ReadUnfinished(sent, fails);
    } else {
      ReadWhole(sent, trailer, rest, fails);
      ReadWhole(sent, trailer, [], fails);
      var text := Chunks(sent) + CallText(Done(trailer));
      assert text + [] == text;
    }
  }

  /** All chunks and the last chunk. */
  lemma {:induction false} ReadWhole(sent: seq<string>, trailer: Fields, rest: string, fails: bool)
    requires forall i :: 0 <= i < |sent| ==> sent[i] != []
    requires forall i :: 0 <= i < |trailer| ==> GoodField(trailer[i])
    ensures var r := ReadChunks(Chunks(sent) + CallText(Done(trailer)) + rest, fails, []);
            if ReadableSizes(sent) then r == Reading(true, Concat(sent), AllDelivered(trailer), rest) else !r.ok
  {
    var last := CallText(Done(trailer));
    Regroup(Chunks(sent), last, rest);
    ReadAllChunks(sent, last + rest, fails, []);
    ReadLastChunk(trailer, rest, fails, Concat(sent));
    assert [] + Concat(sent) == Concat(sent);
  }

  /** Chunks, and no last chunk behind them. */
  lemma {:induction false} ReadUnfinished(sent: seq<string>, fails: bool)
    requires forall i :: 0 <= i < |sent| ==> sent[i] != []
    ensures !ReadChunks(Chunks(sent), fails, []).ok
  {
    ReadAllChunks(sent, [], fails, []);
    assert Chunks(sent) + [] == Chunks(sent);
  }
}
