/** The first call must bring the whole first delimiter, and exactly then a written body is read back. */
module MultipartFirstCall {
  import opened Sequences
  import opened Strings
  import opened MultipartParser
  import opened MultipartWriter
  import opened MultipartRoundTrip
  import opened MultipartLost

  /** The written body, as a part of what would follow an earlier delimiter. */
  lemma {:induction false} WrittenIsSuffix(b: string, items: seq<Item>, t: string)
    requires items != [] && t == DashBoundaryCrlf(b) + EntryText(b, items)
    ensures var item := items[0];
            t == "--" + b + (CRLF + ItemText(item, Lines(item))) + Tail(b, items, 0)
    ensures Suffix(t, Whole(b, items[0]) + Tail(b, items, 0))
  {
    var item, dash, tail := items[0], "--" + b, Tail(b, items, 0);
    var head := CRLF + ItemText(item, Lines(item));
    assert items[0..] == items;
    AfterShape(b, items, 0);
    Regroup(dash, CRLF, EntryText(b, items));
    Regroup(dash, head, tail);
    assert CrlfDashBoundary(b) == CRLF + dash;
    Regroup(CRLF, dash, head);
    Regroup(CRLF, dash + head, tail);
    SuffixOfEnd(CRLF, dash + head + tail);
  }

  /** Where the parser stands when the delimiter it found first is not the first of the body. */
  lemma {:induction false} StartsLate(b: string, items: seq<Item>, t: string, y: string) returns (p: Place)
    requires items != [] && GoodItems(b, items) && t == DashBoundaryCrlf(b) + EntryText(b, items)
    requires LineEnded(y) && Suffix("--" + b + y, t) && |"--" + b + y| < |t|
    ensures Text(b, items, y[2..], p) && Count(b, items, NewEntry, NO_FILE, [], p)
  {
    var dash, s := "--" + b, Whole(b, items[0]) + Tail(b, items, 0);
    WrittenIsSuffix(b, items, t);
    SuffixOfSuffix(dash + y, t, s);
    SuffixOfEnd(dash, y);
    SuffixOfSuffix(y, dash + y, s);
    var q := SuffixIsSomewhere(b, items, 0, Whole(b, items[0]), y);
    if q.Over? {
      p := Dead;
      OverEnded(b, y);
    } else {
      var i: nat;
      p, i := BehindLineEnd(b, items, q.j, q.w, y);
      if q.j == 0 {
        StartInFirst(b, items, t, y, q.w, p, i);
      }
    }
  }

  lemma {:induction false} StartInFirst(b: string, items: seq<Item>, t: string, y: string, w: string, p: Place, i: nat)
    requires items != [] && GoodItems(b, items) && t == DashBoundaryCrlf(b) + EntryText(b, items)
    requires LineEnded(y) && |"--" + b + y| < |t|
    requires Suffix("--" + b + y, Whole(b, items[0]) + Tail(b, items, 0)) && y == w + Tail(b, items, 0)
    requires LeadsTo(items, 0, w, p, i) && Text(b, items, y[2..], p)
    ensures Count(b, items, NewEntry, NO_FILE, [], p)
  {
    var item, dash, tail := items[0], "--" + b, Tail(b, items, 0);
    assert GoodItem(b, item);
    match p
    case Dead =>
    case InText(j, u) =>
      SuffixInFront(dash, w, y, Whole(b, item), tail);
      assert w[0] == y[0];
      NotAtContent(b, item, w);
    case InHead(j, lines) =>
      SuffixInFront(dash, w, y, Whole(b, item), tail);
      Shorter(b, items, t, w, y);
      HeaderDiffers(b, item, i);
  }

  lemma {:induction false} SuffixCancel(s: string, x: string, tail: string)
    requires Suffix(s + tail, x + tail)
    ensures Suffix(s, x)
  {
    var w := SuffixOfJoin(s + tail, x, tail);
    assert (s + tail)[..|s|] == s && (w + tail)[..|w|] == w;
  }

  /** Texts that differ in a character. */
  lemma {:induction false} NotSuffix(s: string, x: string, k: nat)
    requires |s| <= |x| && |x| - |s| <= k < |x| && x[k] != s[k - (|x| - |s|)]
    ensures !Suffix(s, x)
  {
    assert x[|x| - |s|..][k - (|x| - |s|)] == x[k];
  }

  lemma {:induction false} SuffixInFront(dash: string, w: string, y: string, x: string, tail: string)
    requires Suffix(dash + y, x + tail) && y == w + tail
    ensures Suffix(dash + w, x)
  {
    Regroup(dash, w, tail);
    SuffixCancel(dash + w, x, tail);
  }

  lemma {:induction false} Shorter(b: string, items: seq<Item>, t: string, w: string, y: string)
    requires items != [] && t == DashBoundaryCrlf(b) + EntryText(b, items)
    requires |"--" + b + y| < |t| && y == w + Tail(b, items, 0)
    ensures |w| < |CRLF + ItemText(items[0], Lines(items[0]))|
  {
    WrittenIsSuffix(b, items, t);
  }

  /** The delimiter that was found does not end right in front of a content or of its blank line. */
  lemma {:induction false} NotAtContent(b: string, item: Item, w: string)
    requires '\r' !in b && w != [] && w[0] == '\r' && Suffix("--" + b + w, Whole(b, item))
    ensures |w| < |item.content| || |w| > |item.content| + 2
  {
    var dash, whole := "--" + b, Whole(b, item);
    BeforeContent(b, item, whole);
    BeforeSuffix(dash, w, whole);
    assert '\r' !in dash;
  }

  lemma {:induction false} BeforeSuffix(dash: string, w: string, x: string)
    requires |dash| >= 2 && w != [] && Suffix(dash + w, x)
    ensures var n := |x| - |w|; n >= 2 && x[n] == w[0] && x[n - 2] == dash[|dash| - 2]
  {
    var v := dash + w;
    var n := |x| - |v|;
    assert x[n..][|dash|] == x[n + |dash|] && x[n..][|dash| - 2] == x[n + |dash| - 2];
  }

  /** Two line ends stand in front of a content. */
  lemma {:induction false} BeforeContent(b: string, item: Item, whole: string)
    requires whole == Whole(b, item)
    ensures var n := |whole| - |item.content|;
            n >= 4 && whole[n - 1] == whole[n - 3] == '\n' && whole[n - 2] == whole[n - 4] == '\r'
  {
    var lines, content, d := Lines(item), item.content, CrlfDashBoundary(b);
    var y := Joined(lines) + CRLF;
    var x := d + (CRLF + y);
    EndsWithLine(lines);
    Regroup(Joined(lines), CRLF, content);
    Regroup(CRLF, y, content);
    Regroup(d, CRLF + y, content);
    assert whole == x + content;
    Regroup(d, CRLF, y);
    FourBefore(d + CRLF, Joined(lines), x);
  }

  lemma {:induction false} FourBefore(head: string, lines: string, x: string)
    requires |lines| >= 2 && lines[|lines| - 2..] == CRLF
    requires |x| == |head| + |lines| + 2 && x[|head|..] == lines + CRLF
    ensures x[|x| - 1] == x[|x| - 3] == '\n' && x[|x| - 2] == x[|x| - 4] == '\r'
  {
    var y, z := x[|head|..], lines[|lines| - 2..];
    assert z[0] == lines[|lines| - 2] && z[1] == lines[|lines| - 1];
    assert y[|y| - 4] == z[0] && y[|y| - 3] == z[1] && y[|y| - 2] == '\r' && y[|y| - 1] == '\n';
    assert x[|x| - 1] == y[|y| - 1] && x[|x| - 2] == y[|y| - 2] && x[|x| - 3] == y[|y| - 3] && x[|x| - 4] == y[|y| - 4];
  }

  /** The header lines behind a delimiter that ends a header line do not describe the item. */
  lemma {:induction false} HeaderDiffers(b: string, item: Item, i: nat)
    requires '\r' !in b && GoodItem(b, item) && 1 <= i <= |Lines(item)|
    requires Suffix("--" + b + (CRLF + ItemText(item, Lines(item)[i..])), Whole(b, item))
    ensures ReadLines(NO_FILE, Lines(item)[i..]) != (true, FileOf(item))
  {
    var rest := Lines(item)[i..];
    if rest != [] {
      assert i == 1 && rest == [CONTENT_TYPE + item.contentType] && rest[1..] == [];
      ReadContentType(NO_FILE, item.contentType);
      assert ReadLines(NO_FILE, rest) == HeaderLine(NO_FILE, rest[0]);
    }
    if i == 1 && item.name == [] && item.filename == [] {
      BehindDisposition(b, item);
      NotBehindEmptyDisposition(b, item);
    }
  }

  lemma {:induction false} BehindDisposition(b: string, item: Item)
    requires Suffix("--" + b + (CRLF + ItemText(item, Lines(item)[1..])), Whole(b, item))
    ensures Suffix("--" + b, CrlfDashBoundary(b) + CRLF + DispositionLine(item))
  {
    var line, rest := DispositionLine(item), Lines(item)[1..];
    var w, d, t := CRLF + ItemText(item, rest), CrlfDashBoundary(b), CRLF + item.content;
    Regroup(line, CRLF, Joined(rest));
    Regroup(line, CRLF + Joined(rest), t);
    Regroup(CRLF, Joined(rest), t);
    Regroup(CRLF, line, w);
    Regroup(d, CRLF + line, w);
    Regroup(d, CRLF, line);
    assert Whole(b, item) == d + CRLF + line + w;
    SuffixCancel("--" + b, d + CRLF + line, w);
  }

  /** The shortest disposition line holds no two dashes in a row. */
  lemma {:induction false} NotBehindEmptyDisposition(b: string, item: Item)
    requires '\r' !in b && item.name == [] && item.filename == []
    ensures !Suffix("--" + b, CrlfDashBoundary(b) + CRLF + DispositionLine(item))
  {
    NoTwoDashes(DispositionLine(item));
    NoDashesBefore("--" + b, CrlfDashBoundary(b) + CRLF, DispositionLine(item));
  }

  lemma {:induction false} NoDashesBefore(dash: string, head: string, line: string)
    requires |dash| >= 2 && dash[0] == dash[1] == '-' && '\r' !in dash
    requires |head| >= 2 && head[|head| - 2] == '\r' && head[|head| - 1] == '\n'
    requires forall i :: 0 <= i < |line| - 1 ==> !(line[i] == '-' && line[i + 1] == '-')
    ensures !Suffix(dash, head + line)
  {
    var x := head + line;
    var n := |x| - |dash|;
    if 0 <= n <= |head| - 2 {
      NotSuffix(dash, x, |head| - 2);
    } else if n == |head| - 1 {
      NotSuffix(dash, x, n);
    } else if n >= |head| {
      var k := n - |head|;
      assert x[n] == line[k] && x[n + 1] == line[k + 1];
      NotSuffix(dash, x, if line[k] == '-' then n + 1 else n);
    }
  }

  lemma {:induction false} NoTwoDashes(line: string)
    requires line == "Content-Disposition: form-data; name=\"\""
    ensures forall i :: 0 <= i < |line| - 1 ==> !(line[i] == '-' && line[i + 1] == '-')
  {
    assert forall i :: 0 <= i < |line| && line[i] == '-' ==> i == 7 || i == 25;
  }

  // ----- whole runs

  /** A delimiter that is found behind the first leads the parser to a place from which it is lost. */
  lemma {:induction false} LateCall(b: string, items: seq<Item>, t: string, chunk: string, unfed: string) returns (p: Place)
    requires items != [] && GoodItems(b, items) && t == DashBoundaryCrlf(b) + EntryText(b, items)
    requires Suffix(chunk + unfed, t) && |chunk + unfed| < |t| && Contains(chunk, DashBoundaryCrlf(b))
    ensures chunk != []
    ensures var turn := InitialTurn(b, START.(buf := chunk));
            turn.GoOn? && Lost(b, items, turn.c, unfed, p)
  {
    var d := DashBoundaryCrlf(b);
    var n := FoundIn(chunk, d);
    var rest := chunk[n + |d|..];
    FoundFirst(b, chunk, n, d);
    assert chunk[n..][|d|..] == rest;
    p := LatePlace(b, items, t, chunk, unfed, n, rest);
  }

  lemma {:induction false} LatePlace(b: string, items: seq<Item>, t: string, chunk: string, unfed: string, n: nat, rest: string)
    returns (p: Place)
    requires items != [] && GoodItems(b, items) && t == DashBoundaryCrlf(b) + EntryText(b, items)
    requires Suffix(chunk + unfed, t) && |chunk + unfed| < |t|
    requires var d := DashBoundaryCrlf(b); n + |d| <= |chunk| && chunk[n..n + |d|] == d && rest == chunk[n + |d|..]
    ensures Text(b, items, rest + unfed, p) && Count(b, items, NewEntry, NO_FILE, [], p)
  {
    var y := CRLF + (rest + unfed);
    SpliceOf(chunk, unfed, n, "--" + b, rest);
    SuffixOfSuffix("--" + b + y, chunk + unfed, t);
    p := StartsLate(b, items, t, y);
    assert y[2..] == rest + unfed;
  }

  lemma {:induction false} FoundIn(chunk: string, d: string) returns (n: nat)
    requires Contains(chunk, d) && |d| > 0
    ensures n == Find(chunk, d) && n + |d| <= |chunk| && chunk[n..n + |d|] == d
  {
    n := Find(chunk, d);
    var i: nat :| StartsAt(chunk, i, d);
    assert n <= i;
  }

  lemma {:induction false} SpliceOf(chunk: string, unfed: string, n: nat, dash: string, rest: string)
    requires n + |dash| + 2 <= |chunk| && chunk[n..n + |dash| + 2] == dash + CRLF && rest == chunk[n + |dash| + 2..]
    ensures Suffix(dash + (CRLF + (rest + unfed)), chunk + unfed)
  {
    var front := chunk[..n];
    assert chunk == front + (dash + CRLF + rest);
    Regroup(front, dash + CRLF + rest, unfed);
    Regroup(dash + CRLF, rest, unfed);
    Regroup(dash, CRLF, rest + unfed);
    SuffixOfEnd(front, dash + (CRLF + (rest + unfed)));
  }

  /** A run over less than the whole body never tells the callbacks all the items. */
  lemma {:induction false} LateStart(b: string, items: seq<Item>, t: string, chunks: seq<string>)
    requires items != [] && GoodItems(b, items) && t == DashBoundaryCrlf(b) + EntryText(b, items)
    requires Suffix(Concat(chunks), t) && |Concat(chunks)| < |t|
    ensures var (ok, c) := FeedAll(b, ACCEPT, START, chunks); ok ==> Assembled(c.events) != items
    decreases |chunks|
  {
    if chunks != [] {
      var chunk, rest := chunks[0], Concat(chunks[1..]);
      if Contains(chunk, DashBoundaryCrlf(b)) {
        var p := LateCall(b, items, t, chunk, rest);
        LostFromHere(b, items, chunks, p);
      } else {
        CallLost(b, ACCEPT, chunk);
        SuffixOfEnd(chunk, rest);
        SuffixOfSuffix(rest, Concat(chunks), t);
        LateStart(b, items, t, chunks[1..]);
      }
    }
  }

  lemma {:induction false} LostFromHere(b: string, items: seq<Item>, chunks: seq<string>, p: Place)
    requires items != [] && GoodItems(b, items) && chunks != [] && chunks[0] != []
    requires var turn := InitialTurn(b, START.(buf := chunks[0]));
             turn.GoOn? && Lost(b, items, turn.c, Concat(chunks[1..]), p)
    ensures var (ok, c) := FeedAll(b, ACCEPT, START, chunks); ok ==> Assembled(c.events) != items
  {
    var turn := InitialTurn(b, START.(buf := chunks[0]));
    assert [] + chunks[0] == chunks[0];
    assert Feed(b, ACCEPT, START, chunks[0]) == Drain(b, ACCEPT, turn.c);
    var p' := DrainStaysLost(b, items, turn.c, Concat(chunks[1..]), p);
    var (ok, c) := Drain(b, ACCEPT, turn.c);
    if ok {
      FeedAllStaysLost(b, items, c, chunks[1..], p');
    }
  }

  /** Main result, in both directions: a written body, however it is cut into calls, is accepted, ends
      valid and is told to the callbacks item by item, exactly when the first call that brings any
      bytes brings the whole first delimiter. */
  lemma {:induction false} RoundTripExactly(b: string, items: seq<Item>, chunks: seq<string>)
    requires items != [] && GoodItems(b, items) && Concat(chunks) == Serialized(items, b, true)
    ensures var (ok, c) := FeedAll(b, ACCEPT, START, chunks);
            ok && c.valid && Assembled(c.events) == items <==> FirstBrings(chunks, |DashBoundaryCrlf(b)|)
    decreases |chunks|
  {
    var d := DashBoundaryCrlf(b);
    if FirstBrings(chunks, |d|) {
      RoundTrip(b, items, chunks, START);
    } else {
      SerializedIsEntries(b, items);
      assert chunks != [];
      CallLost(b, ACCEPT, chunks[0]);
      if chunks[0] == [] {
        RoundTripExactly(b, items, chunks[1..]);
      } else {
        SuffixOfEnd(chunks[0], Concat(chunks[1..]));
        LateStart(b, items, Serialized(items, b, true), chunks[1..]);
      }
    }
  }

  // ----- what is reported instead

  /** When the first call is too short and the next call's first delimiter is that of item `j`, the run
      still ends valid, and the items in front of `j` are missing. */
  lemma {:induction false} LeadingItemsLost(b: string, items: seq<Item>, chunks: seq<string>, j: nat)
    requires GoodItems(b, items) && Concat(chunks) == Serialized(items, b, true) && 1 <= j < |items|
    requires |chunks| >= 2 && |chunks[0]| < |DashBoundaryCrlf(b)|
    requires var d := DashBoundaryCrlf(b);
             var n := Find(chunks[1], d);
             n < |chunks[1]| && |chunks[0]| + n + |d + EntryText(b, items[j..])| == |Concat(chunks)|
    ensures var (ok, c) := FeedAll(b, ACCEPT, START, chunks);
            ok && c.valid && Assembled(c.events) == items[j..]
  {
    var todo, rest := items[j..], chunks[2..];
    CallLost(b, ACCEPT, chunks[0]);
    assert chunks[1..][0] == chunks[1] && chunks[1..][1..] == rest;
    BodyFromItem(b, items, j);
    SecondCall(b, todo, chunks[1], Concat(rest), chunks[0], Concat(chunks));
    var t := InitialTurn(b, START.(buf := chunks[1]));
    assert [] + chunks[1] == chunks[1];
    var w := DrainKeeps(b, todo, t.c, Concat(rest), AtEntry([], todo));
    assert Feed(b, ACCEPT, START, chunks[1]) == Drain(b, ACCEPT, t.c);
    FeedAllKeeps(b, todo, Drain(b, ACCEPT, t.c).1, rest, w);
  }

  /** The body ends with the text of its last items. */
  lemma {:induction false} BodyFromItem(b: string, items: seq<Item>, j: nat)
    requires j < |items|
    ensures Suffix(DashBoundaryCrlf(b) + EntryText(b, items[j..]), Serialized(items, b, true))
    decreases j
  {
    if j == 0 {
      assert items[0..] == items;
      SerializedIsEntries(b, items);
    } else {
      var front := ItemBegin(items[0], b) + (items[0].content + CRLF);
      assert items[1..][j - 1..] == items[j..];
      BodyFromItem(b, items[1..], j - 1);
      SuffixOfEnd(front, Serialized(items[1..], b, true));
      SuffixOfSuffix(DashBoundaryCrlf(b) + EntryText(b, items[j..]), Serialized(items[1..], b, true),
                     Serialized(items, b, true));
    }
  }

  lemma {:induction false} SecondCall(b: string, todo: seq<Item>, chunk: string, rest: string, lost: string, body: string)
    requires todo != [] && body == lost + (chunk + rest)
    requires var d := DashBoundaryCrlf(b);
             var n := Find(chunk, d);
             n < |chunk| && |lost| + n + |d + EntryText(b, todo)| == |body| && Suffix(d + EntryText(b, todo), body)
    ensures var t := InitialTurn(b, START.(buf := chunk));
            chunk != [] && t.GoOn? && Inv(b, todo, t.c, rest, AtEntry([], todo))
  {
    var d := DashBoundaryCrlf(b);
    var n := Find(chunk, d);
    RestOfBody(body, lost, chunk, rest, n, d + EntryText(b, todo));
    FoundFirst(b, chunk, n, d);
    Consume(chunk[n..], rest, d, EntryText(b, todo));
    assert [] + todo == todo;
  }

  lemma {:induction false} RestOfBody(body: string, lost: string, chunk: string, rest: string, n: nat, e: string)
    requires body == lost + (chunk + rest) && n <= |chunk| && |lost| + n + |e| == |body| && Suffix(e, body)
    ensures chunk[n..] + rest == e
  {
    TailOf(chunk, rest, n);
    assert body[|lost|..] == chunk + rest;
    assert body[|lost| + n..] == body[|lost|..][n..];
  }

  lemma {:induction false} FoundFirst(b: string, chunk: string, n: nat, d: string)
    requires d == DashBoundaryCrlf(b) && n == Find(chunk, d) < |chunk|
    ensures |d| <= |chunk[n..]|
    ensures InitialTurn(b, START.(buf := chunk)) == GoOn(START.(buf := chunk[n..][|d|..], phase := NewEntry))
  {
  }

  /** For a boundary of one character that the first item does not use, a first call that ends behind
      this character loses exactly the first item. */
  lemma {:induction false} FirstItemLost(c: char, items: seq<Item>, body: string)
    requires GoodItems([c], items) && |items| >= 2 && body == Serialized(items, [c], true)
    requires c != '-' && c != '\n' && c !in Joined(Lines(items[0])) && c !in items[0].content
    ensures |body| >= 3 && body[..3] == "--" + [c]
    ensures var (ok, c) := FeedAll([c], ACCEPT, START, [body[..3], body[3..]]);
            ok && c.valid && Assembled(c.events) == items[1..]
  {
    var b, d := [c], DashBoundaryCrlf([c]);
    var p := CRLF + Joined(Lines(items[0])) + CRLF + (items[0].content + CRLF);
    var e := d + EntryText(b, items[1..]);
    SerializedIsEntries(b, items[1..]);
    FrontOfBody("--" + b, Joined(Lines(items[0])), items[0].content, e);
    assert body == "--" + b + (p + e);
    assert body[3..] == p + e;
    BoundaryAlone(c, p, EntryText(b, items[1..]));
    TwoCalls(body[..3], body[3..], body);
    LeadingItemsLost(b, items, [body[..3], body[3..]], 1);
  }

  lemma {:induction false} TwoCalls(x: string, y: string, body: string)
    requires body == x + y
    ensures Concat([x, y]) == body
  {
    assert [x, y][1..] == [y] && [y][1..] == [];
    assert Concat([y]) == y;
  }

  lemma {:induction false} FrontOfBody(dash: string, lines: string, content: string, e: string)
    ensures dash + CRLF + lines + CRLF + (content + CRLF) + e == dash + (CRLF + lines + CRLF + (content + CRLF) + e)
  {
  }

  lemma {:induction false} BoundaryAlone(c: char, p: string, e: string)
    requires c != '-' && c !in p
    ensures Find(p + (DashBoundaryCrlf([c]) + e), DashBoundaryCrlf([c])) == |p|
  {
    var d := DashBoundaryCrlf([c]);
    var s := p + (d + e);
    assert s[|p|..|p| + |d|] == d;
    forall j: nat | j < |p|
      ensures !StartsAt(s, j, d)
    {
      if j + |d| <= |s| {
        assert s[j..j + |d|][2] == s[j + 2] && d[2] == c;
      }
    }
    FindIs(s, d, |p|);
  }

  const TWO_ITEMS: seq<Item> := [Item("a", "x", [], []), Item("c", "y", [], [])]

  /** A body with two items of which only the second is reported, by a run that ends valid. */
  lemma {:induction false} OnlySecondItem(body: string)
    requires body == Serialized(TWO_ITEMS, "#", true)
    ensures |body| >= 3
    ensures var (ok, c) := FeedAll("#", ACCEPT, START, [body[..3], body[3..]]);
            ok && c.valid && Assembled(c.events) == [Item("c", "y", [], [])]
  {
    var d := CrlfDashBoundary("#");
    AbsentCharacter("x", d);
    AbsentCharacter("y", d);
    AbsentCharacter([], CRLF);
    var first := TWO_ITEMS[0];
    assert DispositionLine(first) == DISPOSITION + "name=\"a\"";
    assert Lines(first)[1..] == [];
    assert Joined(Lines(first)) == DispositionLine(first) + CRLF;
    assert GoodItem("#", first);
    assert GoodItem("#", TWO_ITEMS[1]);
    assert TWO_ITEMS[1..] == [Item("c", "y", [], [])];
    assert '#' !in DISPOSITION;
    FirstItemLost('#', TWO_ITEMS, body);
  }
}
