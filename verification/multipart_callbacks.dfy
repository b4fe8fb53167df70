/** What stops a run of the parser: a callback's answer, a long header line, or bytes that do
    not belong behind a delimiter. */
module MultipartCallbacks {
  import opened Sequences
  import opened Strings
  import opened Params
  import opened MultipartParser
  import opened MultipartWriter
  import opened MultipartExtended

  /** Every call so far was answered with true. */
  ghost predicate Heard(cb: Callbacks, events: seq<Event>)
  {
    forall k :: 0 < k <= |events| ==> cb(events[..k])
  }

  /** A call of `parse` that returns true heard only true. One that returns false may have heard
      false, to its last call, and then the body is not valid. */
  ghost predicate Told(cb: Callbacks, ok: bool, c: Config)
  {
    || Heard(cb, c.events)
    || (!ok && Refused(cb, c.events) && !c.valid)
  }

  ghost predicate Refused(cb: Callbacks, events: seq<Event>)
  {
    events != [] && !cb(events) && Heard(cb, events[..|events| - 1])
  }

  lemma {:induction false} OneMoreCall(cb: Callbacks, events: seq<Event>, e: Event)
    requires Heard(cb, events)
    ensures cb(events + [e]) ==> Heard(cb, events + [e])
    ensures !cb(events + [e]) ==> Refused(cb, events + [e])
  {
    var more := events + [e];
    assert more[..|events|] == events && more[..|events| + 1] == more;
    forall k | 0 < k <= |events|
      ensures cb(more[..k])
    {
      assert more[..k] == events[..k];
    }
  }

  ghost predicate TurnTold(cb: Callbacks, t: Turn)
  {
    match t
    case GoOn(c) => Heard(cb, c.events)
    case Return(ok, c) => Told(cb, ok, c)
  }

  lemma {:induction false} LinesTold(cb: Callbacks, c: Config)
    requires Heard(cb, c.events)
    ensures TurnTold(cb, HeaderLines(cb, c))
    decreases |c.buf|
  {
    var pos := Find(c.buf, CRLF);
    if pos == 0 && pos < |c.buf| {
      OneMoreCall(cb, c.events, Header(c.file));
    } else if pos < |c.buf| {
      var (ok, file) := HeaderLine(c.file, c.buf[..pos]);
      if ok {
        LinesTold(cb, c.(file := file, buf := c.buf[pos + 2..]));
      }
    }
  }

  lemma {:induction false} BodyTold(b: string, cb: Callbacks, c: Config)
    requires Heard(cb, c.events)
    ensures TurnTold(cb, BodyTurn(b, cb, c))
  {
    var delimiter := CrlfDashBoundary(b);
    if |delimiter| <= |c.buf| {
      OneMoreCall(cb, c.events, Content(c.buf[..Find(c.buf, delimiter)]));
      OneMoreCall(cb, c.events, Content(c.buf[..|c.buf| - |delimiter|]));
    }
  }

  lemma {:induction false} TurnIsTold(b: string, cb: Callbacks, c: Config)
    requires c.buf != [] && Heard(cb, c.events)
    ensures TurnTold(cb, OneTurn(b, cb, c))
  {
    match c.phase
    case InitialBoundary =>
    case NewEntry =>
    case Headers => LinesTold(cb, c);
    case Body => BodyTold(b, cb, c);
    case Boundary =>
  }

  lemma {:induction false} DrainTold(b: string, cb: Callbacks, c: Config)
    requires Heard(cb, c.events)
    ensures var (ok, c') := Drain(b, cb, c); Told(cb, ok, c') && (ok ==> Heard(cb, c'.events))
    decreases |c.buf|, if c.phase == NewEntry then 1 else 0
  {
    if c.buf != [] {
      TurnIsTold(b, cb, c);
      match OneTurn(b, cb, c)
      case GoOn(c') => DrainTold(b, cb, c');
      case Return(ok, c') =>
    }
  }

  /** In a whole series of calls, a callback that answers false hears nothing more, and the parser
      is left with a body that is not valid; calls that return true were answered with true. */
  lemma {:induction false} RefusalIsFinal(b: string, cb: Callbacks, c: Config, chunks: seq<string>)
    requires Heard(cb, c.events)
    ensures var (ok, c') := FeedAll(b, cb, c, chunks); Told(cb, ok, c') && (ok ==> Heard(cb, c'.events))
    decreases |chunks|
  {
    if chunks != [] {
      DrainTold(b, cb, c.(buf := c.buf + chunks[0]));
      var (ok, c') := Feed(b, cb, c, chunks[0]);
      if ok {
        RefusalIsFinal(b, cb, c', chunks[1..]);
      }
    }
  }

  /** Bytes behind a delimiter that are neither a line end nor two dashes: all later bytes are kept
      and nothing happens any more. */
  lemma {:induction false} JunkIsKept(b: string, cb: Callbacks, c: Config, chunks: seq<string>)
    requires c.phase == Boundary && |c.buf| >= 2 && c.buf[..2] != "\r\n" && c.buf[..2] != "--"
    ensures FeedAll(b, cb, c, chunks) == (true, c.(buf := c.buf + Concat(chunks)))
    decreases |chunks|
  {
    if chunks == [] {
      assert c.buf + [] == c.buf;
    } else {
      var c' := c.(buf := c.buf + chunks[0]);
      assert c'.buf[0..2] == c.buf[..2] == c'.buf[..2];
      assert Drain(b, cb, c') == (true, c');
      JunkIsKept(b, cb, c', chunks[1..]);
      Regroup(c.buf, chunks[0], Concat(chunks[1..]));
    }
  }

  /** A header line that has not ended within 8192 bytes makes the call fail, whatever it holds. */
  lemma {:induction false} LongLineFails(b: string, cb: Callbacks, c: Config, data: string)
    requires c.phase == Headers && |c.buf + data| > 8192
    requires forall j: nat :: j <= 8192 ==> !StartsAt(c.buf + data, j, "\r\n")
    ensures Feed(b, cb, c, data) == (false, c.(buf := c.buf + data))
  {
    var pos := Find(c.buf + data, CRLF);
    assert pos > 8192;
  }

  /** One that ends earlier is read. */
  lemma {:induction false} ShortLineIsRead(b: string, cb: Callbacks, c: Config)
    requires c.phase == Headers && c.buf != [] && Find(c.buf, "\r\n") <= 8192
    ensures OneTurn(b, cb, c) == HeaderLines(cb, c)
  {
  }

  /** A disposition without a name is refused. */
  lemma {:induction false} NamelessIsRefused(filename: string)
    requires PlainValue(filename)
    ensures HeaderLine(NO_FILE, "Content-Disposition: form-data; " + FilenameField(filename)) == (false, NO_FILE)
  {
    var kv := FilenameField(filename);
    NameFieldOneLine(filename);
    assert kv[0] == 'f';
    DispositionPrefix(kv);
    FilenameAlone(filename);
    NotFound([("filename", filename)], "name");
  }

  lemma {:induction false} FilenameAlone(filename: string)
    requires PlainValue(filename)
    ensures Parsed(FilenameField(filename), ';', Unquoted) == [("filename", filename)]
  {
    var kv := FilenameField(filename);
    QuotedField("filename", filename);
    FilenameFieldText(filename);
    assert Unquoted("filename") == "filename";
    PiecesNone(kv, ';');
    assert [kv][1..] == [];
    assert Collected([], {}, [kv], Unquoted) == Collected(Entered([], kv, Unquoted), {} + {kv}, [], Unquoted);
  }

  // ----- when the body is valid

  /** The text holds a delimiter with two dashes behind it. */
  ghost predicate IsClosed(b: string, text: string)
  {
    exists i: nat :: ClosesAt(b, text, i)
  }

  predicate ClosesAt(b: string, text: string, i: nat)
  {
    StartsAt(text, i, "\r\n--" + b) && StartsAt(text, i + |b| + 4, "--")
  }

  /** The buffer is the end of what was received; a delimiter stands in front of it in the last
      state; and a valid body was closed. */
  ghost predicate SeesClose(b: string, text: string, c: Config)
  {
    && |c.buf| <= |text| && text[|text| - |c.buf|..] == c.buf
    && (c.valid ==> IsClosed(b, text))
    && (c.phase == Boundary ==> c.valid || EndsWithDelimiter(b, text, |text| - |c.buf|))
  }

  predicate EndsWithDelimiter(b: string, text: string, k: int)
  {
    |b| + 4 <= k <= |text| && StartsAt(text, k - |b| - 4, "\r\n--" + b)
  }

  lemma {:induction false} ClosedOn(b: string, text: string, more: string)
    requires IsClosed(b, text)
    ensures IsClosed(b, text + more)
  {
    var i: nat :| ClosesAt(b, text, i);
    StandsOn(text, more, i, "\r\n--" + b);
    StandsOn(text, more, i + |b| + 4, "--");
    assert ClosesAt(b, text + more, i);
  }

  lemma {:induction false} StandsOn(text: string, more: string, i: nat, t: string)
    requires StartsAt(text, i, t)
    ensures StartsAt(text + more, i, t)
  {
    assert (text + more)[i..i + |t|] == text[i..i + |t|];
  }

  /** More bytes arrive. */
  lemma {:induction false} SeesMore(b: string, text: string, c: Config, data: string)
    requires SeesClose(b, text, c)
    ensures SeesClose(b, text + data, c.(buf := c.buf + data))
  {
    var k := |text| - |c.buf|;
    assert (text + data)[k..] == c.buf + data;
    if c.valid { ClosedOn(b, text, data); }
    if c.phase == Boundary && !c.valid {
      StandsOn(text, data, k - |b| - 4, "\r\n--" + b);
    }
  }

  /** Bytes are used up, and no delimiter was the last of them. */
  lemma {:induction false} SeesLess(b: string, text: string, c: Config, c': Config, n: nat)
    requires SeesClose(b, text, c) && n <= |c.buf| && c'.buf == c.buf[n..]
    requires (c'.valid ==> c.valid) && c'.phase != Boundary
    ensures SeesClose(b, text, c')
  {
    assert text[|text| - |c'.buf|..] == c.buf[n..];
  }

  ghost predicate TurnSees(b: string, text: string, t: Turn)
  {
    SeesClose(b, text, t.c)
  }

  lemma {:induction false} LinesSee(b: string, cb: Callbacks, text: string, c: Config)
    requires SeesClose(b, text, c) && c.phase == Headers
    ensures TurnSees(b, text, HeaderLines(cb, c))
    decreases |c.buf|
  {
    var pos := Find(c.buf, CRLF);
    if pos == 0 && pos < |c.buf| {
      SeesLess(b, text, c, HeaderLines(cb, c).c, |c.buf| - |HeaderLines(cb, c).c.buf|);
    } else if pos < |c.buf| {
      var (ok, file) := HeaderLine(c.file, c.buf[..pos]);
      if ok {
        var c' := c.(file := file, buf := c.buf[pos + 2..]);
        SeesLess(b, text, c, c', pos + 2);
        LinesSee(b, cb, text, c');
      }
    }
  }

  lemma {:induction false} BodySees(b: string, cb: Callbacks, text: string, c: Config)
    requires SeesClose(b, text, c) && c.phase == Body
    ensures TurnSees(b, text, BodyTurn(b, cb, c))
  {
    var delimiter := CrlfDashBoundary(b);
    var t := BodyTurn(b, cb, c);
    if |delimiter| <= |c.buf| {
      var pos := Find(c.buf, delimiter);
      if t.GoOn? {
        DelimiterSeen(b, text, c.buf, pos, t.c.buf, delimiter);
      } else if t.c.buf != c.buf {
        SeesLess(b, text, c, t.c, |c.buf| - |delimiter|);
      }
    }
  }

  lemma {:induction false} DelimiterSeen(b: string, text: string, buf: string, pos: nat, rest: string, delimiter: string)
    requires delimiter == "\r\n--" + b && |buf| <= |text| && text[|text| - |buf|..] == buf
    requires StartsAt(buf, pos, delimiter) && rest == buf[pos + |delimiter|..]
    ensures text[|text| - |rest|..] == rest && EndsWithDelimiter(b, text, |text| - |rest|)
  {
    var k := |text| - |buf|;
    assert text[k + pos..k + pos + |delimiter|] == buf[pos..pos + |delimiter|];
  }

  lemma {:induction false} BoundarySees(b: string, text: string, c: Config)
    requires SeesClose(b, text, c) && c.phase == Boundary
    ensures TurnSees(b, text, BoundaryTurn(c))
  {
    var t, k := BoundaryTurn(c), |text| - |c.buf|;
    if t.GoOn? && t.c.phase == NewEntry {
      SeesLess(b, text, c, t.c, 2);
    } else if t.GoOn? && !c.valid {
      assert text[k..k + 2] == c.buf[0..2];
      assert ClosesAt(b, text, k - |b| - 4);
    }
  }

  lemma {:induction false} TurnSeesClose(b: string, cb: Callbacks, text: string, c: Config)
    requires c.buf != [] && SeesClose(b, text, c)
    ensures TurnSees(b, text, OneTurn(b, cb, c))
  {
    match c.phase
    case InitialBoundary => InitialSees(b, cb, text, c);
    case NewEntry =>
    case Headers => LinesSee(b, cb, text, c);
    case Body => BodySees(b, cb, text, c);
    case Boundary => BoundarySees(b, text, c);
  }

  lemma {:induction false} InitialSees(b: string, cb: Callbacks, text: string, c: Config)
    requires SeesClose(b, text, c) && c.phase == InitialBoundary
    ensures TurnSees(b, text, InitialTurn(b, c))
  {
    var n, c' := Find(c.buf, DashBoundaryCrlf(b)), InitialTurn(b, c).c;
    SeesLess(b, text, c, c.(buf := c.buf[n..]), n);
    if InitialTurn(b, c).GoOn? {
      SeesLess(b, text, c.(buf := c.buf[n..]), c', |DashBoundaryCrlf(b)|);
    }
  }

  lemma {:induction false} DrainSees(b: string, cb: Callbacks, text: string, c: Config)
    requires SeesClose(b, text, c)
    ensures SeesClose(b, text, Drain(b, cb, c).1)
    decreases |c.buf|, if c.phase == NewEntry then 1 else 0
  {
    if c.buf != [] {
      TurnSeesClose(b, cb, text, c);
      match OneTurn(b, cb, c)
      case GoOn(c') => DrainSees(b, cb, text, c');
      case Return(ok, c') =>
    }
  }

  lemma {:induction false} FeedSees(b: string, cb: Callbacks, text: string, c: Config, chunks: seq<string>)
    requires SeesClose(b, text, c)
    ensures FeedAll(b, cb, c, chunks).1.valid ==> IsClosed(b, text + Concat(chunks))
    decreases |chunks|
  {
    if chunks == [] {
      assert text + [] == text;
    } else {
      var c' := Feed(b, cb, c, chunks[0]).1;
      SeesMore(b, text, c, chunks[0]);
      DrainSees(b, cb, text + chunks[0], c.(buf := c.buf + chunks[0]));
      Regroup(text, chunks[0], Concat(chunks[1..]));
      if Feed(b, cb, c, chunks[0]).0 {
        FeedSees(b, cb, text + chunks[0], c', chunks[1..]);
      } else if c'.valid {
        ClosedOn(b, text + chunks[0], Concat(chunks[1..]));
      }
    }
  }

  /** Main result on validity, for any bytes in any cutting and any callbacks: the body is valid only
      if a delimiter with two dashes behind it was received, so a truncated body never is. */
  lemma {:induction false} ValidIsClosed(b: string, cb: Callbacks, chunks: seq<string>)
    ensures FeedAll(b, cb, START, chunks).1.valid ==> IsClosed(b, Concat(chunks))
  {
    StartSees(b);
    FeedSees(b, cb, "", START, chunks);
    NothingBefore(Concat(chunks));
  }

  lemma {:induction false} StartSees(b: string)
    ensures SeesClose(b, "", START)
  {
  }

  lemma {:induction false} NothingBefore(s: string)
    ensures "" + s == s
  {
  }
}
