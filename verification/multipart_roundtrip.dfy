/** Parsing a written multipart body gives back its items, however the bytes are cut into calls. */
module MultipartRoundTrip {
  import opened Sequences
  import opened Strings
  import opened MultipartParser
  import opened MultipartWriter

  const ACCEPT: Callbacks := _ => true

  /** Where the parser stands in the written body: `done` items were delivered completely,
      `todo[0]` is the one at hand. */
  datatype Where =
    | AtEntry(done: seq<Item>, todo: seq<Item>)
    | InHeaders(done: seq<Item>, todo: seq<Item>, lines: seq<string>)
    | InBody(done: seq<Item>, todo: seq<Item>, k: nat)
    | AtBoundary(done: seq<Item>, todo: seq<Item>)
    | Finished

  /** The invariant of a run over a written body: the unread buffer followed by the bytes not
      yet fed is exactly the rest of the body from the parser's place on, and the callbacks
      were told exactly what stands in front of it. */
  ghost predicate Inv(b: string, all: seq<Item>, c: Config, unfed: string, w: Where)
  {
    var r := c.buf + unfed;
    match w
    case AtEntry(done, todo) =>
      && c.phase == NewEntry && todo != [] && all == done + todo && Assembled(c.events) == done
      && r == EntryText(b, todo)
    case InHeaders(done, todo, lines) =>
      && c.phase == Headers && todo != [] && all == done + todo && Assembled(c.events) == done
      && GoodLines(lines) && ReadLines(c.file, lines) == (true, FileOf(todo[0]))
      && r == Joined(lines) + (CRLF + BodyText(b, todo[0].content, todo[1..]))
    case InBody(done, todo, k) =>
      && c.phase == Body && todo != [] && all == done + todo && k <= |todo[0].content|
      && Assembled(c.events) == done + [todo[0].(content := todo[0].content[..k])]
      && r == BodyText(b, todo[0].content[k..], todo[1..])
    case AtBoundary(done, todo) =>
      && c.phase == Boundary && all == done + todo && Assembled(c.events) == done
      && r == After(b, todo)
    case Finished =>
      && c.valid && Assembled(c.events) == all
      && ((c.phase == Boundary && r in {CRLF, "\n", []}) || (c.phase == NewEntry && r == []))
  }

  /** What a turn must achieve; a turn that returns with nothing left to feed is at the end. */
  ghost predicate Keeps(b: string, all: seq<Item>, t: Turn, unfed: string, w: Where)
  {
    && Inv(b, all, t.c, unfed, w)
    && (t.Return? ==> t.ok && (unfed == [] ==> w.Finished?))
  }

  /** Taking `x` off the front of a buffer that holds it. */
  lemma {:induction false} Consume(buf: string, unfed: string, x: string, y: string)
    requires buf + unfed == x + y && |x| <= |buf|
    ensures buf[..|x|] == x && buf[|x|..] + unfed == y
  {
    assert (buf + unfed)[..|x|] == buf[..|x|];
    assert (buf + unfed)[|x|..] == buf[|x|..] + unfed;
    assert (x + y)[|x|..] == y;
  }

  lemma {:induction false} DelimiterNeverOverlaps(b: string)
    requires '\r' !in b
    ensures NeverOverlaps(CrlfDashBoundary(b)) && NeverOverlaps(CRLF)
  {
    assert CrlfDashBoundary(b)[1..] == "\n--" + b;
  }

  // ----- state 2

  /** Finding the end of a good line in a buffer that holds only the beginning of the body. */
  lemma {:induction false} FindLineEnd(buf: string, unfed: string, line: string, rest: string)
    requires buf + unfed == line + (CRLF + rest) && !Contains(line, CRLF)
    ensures Find(buf, CRLF) == if |line| + 2 <= |buf| then |line| else |buf|
  {
    Regroup(line, CRLF, rest);
    FindAtSplice(line, CRLF, rest);
    FindInPrefix(buf, unfed, CRLF);
  }

  lemma {:induction false} NoLineEnd(t: string)
    requires |t| > 0
    ensures !Contains([], t)
  {
  }

  /** The empty line ends the header and hands it out. */
  lemma {:induction false} HeadersEnd(b: string, all: seq<Item>, c: Config, unfed: string, w: Where)
    requires Inv(b, all, c, unfed, w) && w.InHeaders? && w.lines == [] && 2 <= |c.buf|
    ensures Keeps(b, all, HeaderLines(ACCEPT, c), unfed, InBody(w.done, w.todo, 0))
  {
    var body := BodyText(b, w.todo[0].content, w.todo[1..]);
    NoLineEnd(CRLF);
    FindLineEnd(c.buf, unfed, [], body);
    Consume(c.buf, unfed, CRLF, body);
    AssembledMore(c.events, Header(c.file));
    BodyStart(w.todo[0]);
  }

  /** The next line's end is found just when it is in the buffer. */
  lemma {:induction false} NextLine(b: string, all: seq<Item>, c: Config, unfed: string, w: Where)
    requires Inv(b, all, c, unfed, w) && w.InHeaders? && w.lines != []
    ensures var line := w.lines[0];
            && line != [] && HeaderLine(c.file, line).0
            && Find(c.buf, CRLF) == if |line| + 2 <= |c.buf| then |line| else |c.buf|
    ensures var line := w.lines[0];
            |line| + 2 <= |c.buf| ==>
              var next := c.(file := HeaderLine(c.file, line).1, buf := c.buf[|line| + 2..]);
              c.buf[..|line|] == line && Inv(b, all, next, unfed, InHeaders(w.done, w.todo, w.lines[1..]))
  {
    var body := BodyText(b, w.todo[0].content, w.todo[1..]);
    var line, rest := w.lines[0], Joined(w.lines[1..]) + (CRLF + body);
    assert GoodLine(line);
    Regroup(line + CRLF, Joined(w.lines[1..]), CRLF + body);
    Regroup(line, CRLF, rest);
    FindLineEnd(c.buf, unfed, line, rest);
    if |line| + 2 <= |c.buf| {
      TakeLine(c.buf, unfed, line, rest);
      assert forall i :: 0 <= i < |w.lines[1..]| ==> w.lines[1..][i] == w.lines[i + 1];
    }
  }

  lemma {:induction false} TakeLine(buf: string, unfed: string, line: string, rest: string)
    requires buf + unfed == line + CRLF + rest && |line| + 2 <= |buf|
    ensures buf[..|line|] == line && buf[|line| + 2..] + unfed == rest
  {
    Consume(buf, unfed, line + CRLF, rest);
    assert buf[..|line| + 2][..|line|] == buf[..|line|];
  }

  lemma {:induction false} HeaderLinesKeep(b: string, all: seq<Item>, c: Config, unfed: string, w: Where)
    returns (w': Where)
    requires Inv(b, all, c, unfed, w) && w.InHeaders?
    ensures Keeps(b, all, HeaderLines(ACCEPT, c), unfed, w')
    decreases |w.lines|
  {
    w' := w;
    if w.lines == [] {
      if 2 <= |c.buf| {
        w' := InBody(w.done, w.todo, 0);
        HeadersEnd(b, all, c, unfed, w);
      } else {
        NoLineEnd(CRLF);
        FindLineEnd(c.buf, unfed, [], BodyText(b, w.todo[0].content, w.todo[1..]));
      }
    } else {
      NextLine(b, all, c, unfed, w);
      var line := w.lines[0];
      if |line| + 2 <= |c.buf| {
        var next := c.(file := HeaderLine(c.file, line).1, buf := c.buf[|line| + 2..]);
        w' := HeaderLinesKeep(b, all, next, unfed, InHeaders(w.done, w.todo, w.lines[1..]));
        assert HeaderLines(ACCEPT, c) == HeaderLines(ACCEPT, next);
      }
    }
  }

  lemma {:induction false} BodyStart(item: Item)
    ensures Item(item.name, [], item.filename, item.contentType) == item.(content := item.content[..0])
    ensures item.content[0..] == item.content
  {
  }

  /** The length limit is not hit: a good line's end, or the end of a buffer inside it, comes in time. */
  lemma {:induction false} LineInTime(b: string, all: seq<Item>, c: Config, unfed: string, w: Where)
    requires Inv(b, all, c, unfed, w) && w.InHeaders?
    ensures Find(c.buf, CRLF) <= HEADER_MAX_LENGTH
  {
    var body := BodyText(b, w.todo[0].content, w.todo[1..]);
    if w.lines == [] {
      NoLineEnd(CRLF);
      FindLineEnd(c.buf, unfed, [], body);
    } else {
      var line, rest := w.lines[0], Joined(w.lines[1..]) + (CRLF + body);
      assert GoodLine(line);
      Regroup(line + CRLF, Joined(w.lines[1..]), CRLF + body);
      Regroup(line, CRLF, rest);
      FindLineEnd(c.buf, unfed, line, rest);
    }
  }

  // ----- state 3

  /** The search for the delimiter succeeds just when the whole of it is in the buffer. */
  lemma {:induction false} FindDelimiter(b: string, c: Config, unfed: string, content: string, rest: seq<Item>)
    requires '\r' !in b && !Contains(content, CrlfDashBoundary(b))
    requires c.buf + unfed == BodyText(b, content, rest)
    ensures var d := CrlfDashBoundary(b);
            Find(c.buf, d) == if |content| + |d| <= |c.buf| then |content| else |c.buf|
  {
    DelimiterNeverOverlaps(b);
    FindAtSplice(content, CrlfDashBoundary(b), After(b, rest));
    FindInPrefix(c.buf, unfed, CrlfDashBoundary(b));
  }

  /** Content is handed out piece by piece, and only bytes that belong to the content. */
  lemma {:induction false} ContentGrows(events: seq<Event>, done: seq<Item>, item: Item, k: nat, m: nat)
    requires k <= m <= |item.content|
    requires Assembled(events) == done + [item.(content := item.content[..k])]
    ensures Assembled(events + [Content(item.content[k..m])]) == done + [item.(content := item.content[..m])]
  {
    AssembledMore(events, Content(item.content[k..m]));
    assert item.content[..k] + item.content[k..m] == item.content[..m];
    var items := done + [item.(content := item.content[..k])];
    assert items[..|items| - 1] == done;
  }

  lemma {:induction false} BodyFound(b: string, all: seq<Item>, c: Config, unfed: string, w: Where)
    requires Inv(b, all, c, unfed, w) && w.InBody?
    requires var left, d := w.todo[0].content[w.k..], CrlfDashBoundary(b);
             |left| + |d| <= |c.buf| && Find(c.buf, d) == |left|
    ensures Keeps(b, all, BodyTurn(b, ACCEPT, c), unfed, AtBoundary(w.done + [w.todo[0]], w.todo[1..]))
  {
    var left, d := w.todo[0].content[w.k..], CrlfDashBoundary(b);
    var rest := TakeDelimiter(c.buf, unfed, left, d, After(b, w.todo[1..]));
    ContentEnds(c.events, w.done, w.todo, w.k);
    var c' := c.(events := c.events + [Content(left)], buf := rest, phase := Boundary);
    assert BodyTurn(b, ACCEPT, c) == GoOn(c');
    BoundaryReached(b, all, c', unfed, w.done + [w.todo[0]], w.todo[1..]);
  }

  lemma {:induction false} BoundaryReached(b: string, all: seq<Item>, c: Config, unfed: string, done: seq<Item>, todo: seq<Item>)
    requires c.phase == Boundary && all == done + todo && Assembled(c.events) == done && c.buf + unfed == After(b, todo)
    ensures Keeps(b, all, GoOn(c), unfed, AtBoundary(done, todo))
  {
  }

  lemma {:induction false} ContentLeft(b: string, all: seq<Item>, c: Config, unfed: string, done: seq<Item>,
                                       todo: seq<Item>, k: nat)
    requires c.phase == Body && todo != [] && all == done + todo && k <= |todo[0].content|
    requires Assembled(c.events) == done + [todo[0].(content := todo[0].content[..k])]
    requires c.buf + unfed == BodyText(b, todo[0].content[k..], todo[1..]) && unfed != []
    ensures Keeps(b, all, Return(true, c), unfed, InBody(done, todo, k))
  {
  }

  lemma {:induction false} TakeDelimiter(buf: string, unfed: string, left: string, d: string,
                                         after: string) returns (rest: string)
    requires buf + unfed == left + d + after && |left| + |d| <= |buf|
    ensures rest == buf[|left| + |d|..] && rest + unfed == after && buf[..|left|] == left
  {
    Consume(buf, unfed, left + d, after);
    assert buf[..|left + d|][..|left|] == buf[..|left|];
    rest := buf[|left + d|..];
  }

  lemma {:induction false} ContentEnds(events: seq<Event>, done: seq<Item>, todo: seq<Item>, k: nat)
    requires todo != [] && k <= |todo[0].content|
    requires Assembled(events) == done + [todo[0].(content := todo[0].content[..k])]
    ensures Assembled(events + [Content(todo[0].content[k..])]) == done + [todo[0]]
    ensures done + [todo[0]] + todo[1..] == done + todo
  {
    var content := todo[0].content;
    ContentGrows(events, done, todo[0], k, |content|);
    assert content[k..|content|] == content[k..] && content[..|content|] == content;
  }

  lemma {:induction false} BodyPartial(b: string, all: seq<Item>, c: Config, unfed: string, done: seq<Item>,
                                       todo: seq<Item>, k: nat,
                    n: nat, m: nat, left: string)
    requires c.phase == Body && todo != [] && all == done + todo && k <= |todo[0].content|
    requires Assembled(c.events) == done + [todo[0].(content := todo[0].content[..k])]
    requires left == todo[0].content[k..] && c.buf + unfed == BodyText(b, left, todo[1..])
    requires var d := CrlfDashBoundary(b); |c.buf| == n + |d| && 0 < n < |left| && Find(c.buf, d) == |c.buf|
    requires m == k + n
    ensures Keeps(b, all, BodyTurn(b, ACCEPT, c), unfed, InBody(done, todo, m))
  {
    var c' := c.(events := c.events + [Content(left[..n])], buf := c.buf[n..]);
    PartialTurn(b, c, unfed, left, todo[1..], n, c');
    ContentGrows(c.events, done, todo[0], k, m);
    assert left[..n] == todo[0].content[k..m] && left[n..] == todo[0].content[m..];
    ContentLeft(b, all, c', unfed, done, todo, m);
  }

  /** The turn hands out `n` characters, and the rest of the delimiter is still to be fed. */
  lemma {:induction false} PartialTurn(b: string, c: Config, unfed: string, left: string, rest: seq<Item>, n: nat, c': Config)
    requires c.buf + unfed == BodyText(b, left, rest)
    requires var d := CrlfDashBoundary(b); |c.buf| == n + |d| && 0 < n < |left| && Find(c.buf, d) == |c.buf|
    requires c' == c.(events := c.events + [Content(left[..n])], buf := c.buf[n..])
    ensures BodyTurn(b, ACCEPT, c) == Return(true, c') && unfed != []
    ensures c'.buf + unfed == BodyText(b, left[n..], rest)
  {
    HandOut(b, c, unfed, left, rest, n);
    Nonempty(c.buf, unfed, BodyText(b, left, rest));
  }

  /** More text than the buffer holds means that something is still to be fed. */
  lemma {:induction false} Nonempty(buf: string, unfed: string, r: string)
    requires buf + unfed == r && |buf| < |r|
    ensures unfed != []
  {
  }

  lemma {:induction false} BodyKeeps(b: string, all: seq<Item>, c: Config, unfed: string, w: Where) returns (w': Where)
    requires GoodItems(b, all) && Inv(b, all, c, unfed, w) && w.InBody?
    ensures Keeps(b, all, BodyTurn(b, ACCEPT, c), unfed, w')
  {
    var left, d := w.todo[0].content[w.k..], CrlfDashBoundary(b);
    assert w.todo[0] == all[|w.done|];
    TailContains(w.todo[0].content, w.k, d);
    FindDelimiter(b, c, unfed, left, w.todo[1..]);
    if |left| + |d| <= |c.buf| {
      BodyFound(b, all, c, unfed, w);
      w' := AtBoundary(w.done + [w.todo[0]], w.todo[1..]);
    } else if |c.buf| <= |d| {
      w' := w;
    } else {
      var n := |c.buf| - |d|;
      w' := InBody(w.done, w.todo, w.k + n);
      BodyPartial(b, all, c, unfed, w.done, w.todo, w.k, n, w'.k, left);
    }
  }

  lemma {:induction false} HandOut(b: string, c: Config, unfed: string, left: string, rest: seq<Item>, n: nat)
    requires c.buf + unfed == BodyText(b, left, rest) && n <= |left| && n <= |c.buf|
    ensures c.buf[..n] == left[..n] && c.buf[n..] + unfed == BodyText(b, left[n..], rest)
  {
    var d, after := CrlfDashBoundary(b), After(b, rest);
    assert left + d + after == left[..n] + (left[n..] + d + after);
    Consume(c.buf, unfed, left[..n], left[n..] + d + after);
  }

  // ----- state 4

  lemma {:induction false} BoundaryKeeps(b: string, all: seq<Item>, c: Config, unfed: string, w: Where) returns (w': Where)
    requires Inv(b, all, c, unfed, w) && c.phase == Boundary
    ensures Keeps(b, all, BoundaryTurn(c), unfed, w')
  {
    w' := w;
    if |c.buf| >= 2 {
      if w.Finished? {
        assert c.buf == CRLF && unfed == [] && CRLF[2..] == [];
      } else if w.todo == [] {
        Consume(c.buf, unfed, "--", CRLF);
        assert |c.buf| == 2 || |c.buf| == 3 || |c.buf| == 4;
        assert c.buf[2..] + unfed == CRLF && unfed == CRLF[|c.buf| - 2..];
        assert CRLF[0..] == CRLF && CRLF[1..] == "\n" && CRLF[2..] == [];
        assert [] + unfed == unfed;
        assert w.done + [] == w.done;
        w' := Finished;
      } else {
        Consume(c.buf, unfed, CRLF, EntryText(b, w.todo));
        w' := AtEntry(w.done, w.todo);
      }
    }
  }

  // ----- whole runs

  lemma {:induction false} TurnKeeps(b: string, all: seq<Item>, c: Config, unfed: string, w: Where) returns (w': Where)
    requires GoodItems(b, all) && Inv(b, all, c, unfed, w) && c.buf != []
    ensures Keeps(b, all, OneTurn(b, ACCEPT, c), unfed, w')
  {
    match c.phase
    case NewEntry =>
      assert w.AtEntry?;
      assert w.todo[0] == all[|w.done|];
      ReadItemLines(b, w.todo[0]);
      GoodItemLines(b, w.todo[0]);
      w' := InHeaders(w.done, w.todo, Lines(w.todo[0]));
    case Headers =>
      LineInTime(b, all, c, unfed, w);
      w' := HeaderLinesKeep(b, all, c, unfed, w);
    case Body =>
      w' := BodyKeeps(b, all, c, unfed, w);
    case Boundary =>
      w' := BoundaryKeeps(b, all, c, unfed, w);
  }

  /** One call of `parse` keeps the invariant and is accepted; a call that was given the last
      byte reaches the end. */
  lemma {:induction false} DrainKeeps(b: string, all: seq<Item>, c: Config, unfed: string, w: Where)
    returns (w': Where)
    requires GoodItems(b, all) && Inv(b, all, c, unfed, w)
    ensures var (ok, c') := Drain(b, ACCEPT, c);
            ok && Inv(b, all, c', unfed, w') && (unfed == [] ==> w'.Finished?)
    decreases |c.buf|, if c.phase == NewEntry then 1 else 0
  {
    w' := w;
    if c.buf != [] {
      w' := TurnKeeps(b, all, c, unfed, w);
      var t := OneTurn(b, ACCEPT, c);
      if t.GoOn? {
        w' := DrainKeeps(b, all, t.c, unfed, w');
      }
    }
  }

  /** Feeding moves bytes into the buffer. */
  lemma {:induction false} Fed(b: string, all: seq<Item>, c: Config, data: string, rest: string, w: Where)
    requires Inv(b, all, c, data + rest, w)
    ensures Inv(b, all, c.(buf := c.buf + data), rest, w)
  {
    Regroup(c.buf, data, rest);
  }

  lemma {:induction false} FeedAllKeeps(b: string, all: seq<Item>, c: Config, chunks: seq<string>, w: Where)
    requires GoodItems(b, all) && Inv(b, all, c, Concat(chunks), w)
    requires chunks == [] ==> w.Finished?
    ensures var (ok, c') := FeedAll(b, ACCEPT, c, chunks);
            ok && c'.valid && Assembled(c'.events) == all
    decreases |chunks|
  {
    if chunks != [] {
      var fed, rest := c.(buf := c.buf + chunks[0]), Concat(chunks[1..]);
      Fed(b, all, c, chunks[0], rest, w);
      var w' := DrainKeeps(b, all, fed, rest, w);
      FeedAllKeeps(b, all, Drain(b, ACCEPT, fed).1, chunks[1..], w');
    }
  }

  /** The first call that brings any bytes brings at least `n`. */
  predicate FirstBrings(chunks: seq<string>, n: nat)
  {
    chunks != [] && if chunks[0] == [] then FirstBrings(chunks[1..], n) else |chunks[0]| >= n
  }

  /** The first delimiter, taken in one call, leads into the first entry. */
  lemma {:induction false} FirstCall(b: string, all: seq<Item>, c: Config, chunk: string, unfed: string)
    requires all != [] && c.phase == InitialBoundary && c.buf == [] && c.events == []
    requires chunk + unfed == DashBoundaryCrlf(b) + EntryText(b, all) && |chunk| >= |DashBoundaryCrlf(b)|
    ensures var t := InitialTurn(b, c.(buf := chunk));
            t.GoOn? && Inv(b, all, t.c, unfed, AtEntry([], all))
  {
    var d := DashBoundaryCrlf(b);
    Consume(chunk, unfed, d, EntryText(b, all));
    assert StartsAt(chunk, 0, d);
    FindIs(chunk, d, 0);
    assert chunk[0..] == chunk && [] + all == all;
  }

  /** Main result: for items whose fields survive being written, every way of cutting the
      written body into calls of `parse` is accepted, ends valid, and tells the callbacks exactly
      the items, provided the first call that brings bytes brings the whole first delimiter. */
  lemma {:induction false} RoundTrip(b: string, items: seq<Item>, chunks: seq<string>, c: Config)
    requires items != [] && GoodItems(b, items)
    requires Concat(chunks) == Serialized(items, b, true)
    requires FirstBrings(chunks, |DashBoundaryCrlf(b)|)
    requires c == START
    ensures var (ok, c') := FeedAll(b, ACCEPT, c, chunks);
            ok && c'.valid && Assembled(c'.events) == items
    decreases |chunks|
  {
    assert c.buf + chunks[0] == chunks[0];
    if chunks[0] == [] {
      assert Concat(chunks) == Concat(chunks[1..]);
      RoundTrip(b, items, chunks[1..], c);
    } else {
      SerializedIsEntries(b, items);
      var fed, rest := c.(buf := chunks[0]), Concat(chunks[1..]);
      FirstCall(b, items, c, chunks[0], rest);
      var t := InitialTurn(b, fed);
      var w := DrainKeeps(b, items, t.c, rest, AtEntry([], items));
      FeedAllKeeps(b, items, Drain(b, ACCEPT, t.c).1, chunks[1..], w);
    }
  }

  // ----- calls in front of the first delimiter

  /** A call in state 0 that does not hold the whole delimiter is as good as never made. */
  lemma {:induction false} CallLost(b: string, cb: Callbacks, chunk: string)
    requires !Contains(chunk, DashBoundaryCrlf(b))
    ensures Feed(b, cb, START, chunk) == (true, START)
  {
    assert [] + chunk == chunk;
    FindIs(chunk, DashBoundaryCrlf(b), |chunk|);
    assert chunk[|chunk|..] == [];
  }
}
