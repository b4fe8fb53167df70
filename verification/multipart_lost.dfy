/** A parser that starts behind the first delimiter never reports the items that were written. */
module MultipartLost {
  import opened Sequences
  import opened Strings
  import opened MultipartParser
  import opened MultipartWriter
  import opened MultipartRoundTrip

  predicate Suffix(s: string, t: string)
  {
    |s| <= |t| && t[|t| - |s|..] == s
  }

  lemma {:induction false} SuffixOfSuffix(r: string, s: string, t: string)
    requires Suffix(r, s) && Suffix(s, t)
    ensures Suffix(r, t)
  {
  }

  /** A suffix of a joint text reaches into its first part or not. */
  lemma {:induction false} SuffixOfJoin(r: string, x: string, y: string) returns (w: string)
    requires Suffix(r, x + y)
    ensures |r| >= |y| ==> Suffix(w, x) && r == w + y
    ensures |r| < |y| ==> Suffix(r, y)
  {
    w := [];
    if |r| >= |y| {
      w := x[|x| - (|r| - |y|)..];
      assert (x + y)[|x + y| - |r|..] == w + y;
    } else {
      assert (x + y)[|x + y| - |r|..] == y[|y| - |r|..];
    }
  }

  // ----- where the parser stands

  /** The delimiter behind item `j`, and all that follows. */
  function Tail(b: string, items: seq<Item>, j: nat): string
    requires j < |items|
  {
    CrlfDashBoundary(b) + After(b, items[j + 1..])
  }

  /** From some header lines of item `j` on. */
  function HeadText(b: string, items: seq<Item>, j: nat, lines: seq<string>): string
    requires j < |items|
  {
    Joined(lines) + (CRLF + BodyText(b, items[j].content, items[j + 1..]))
  }

  function ItemText(item: Item, lines: seq<string>): string
  {
    Joined(lines) + (CRLF + item.content)
  }

  /** From the delimiter in front of item `j` up to the one behind it. */
  function Whole(b: string, item: Item): string
  {
    CrlfDashBoundary(b) + (CRLF + ItemText(item, Lines(item)))
  }

  /** What follows when the content of item `j` begins like a delimiter and is taken for one. */
  function InnerText(b: string, items: seq<Item>, j: nat): string
    requires j < |items| && |b| + 2 <= |items[j].content|
  {
    items[j].content[|b| + 2..] + Tail(b, items, j)
  }

  /** A text whose first line is none of a header. */
  predicate DeadText(r: string) { r == [] || r[0] == '-' }

  datatype Place =
    | InHead(j: nat, lines: seq<string>)    // at a header line of item j
    | InText(j: nat, u: string)             // reading the rest of content j as header lines
    | Dead                                  // in front of a line that is no header line
    | ToDelimiter(j: nat, v: string)        // reading content up to the delimiter behind item j
    | ToInner(j: nat, v: string)            // reading content up to the beginning of content j
    | ToNothing(v: string)                  // reading content that no delimiter ends
    | Somewhere(j: nat, w: string)          // behind a delimiter, anywhere in front of that of item j
    | Over                                  // behind a delimiter, in the closing one

  /** The rest of the body is what the place says. */
  ghost predicate Text(b: string, items: seq<Item>, r: string, p: Place)
  {
    match p
    case InHead(j, lines) => j < |items| && GoodLines(lines) && r == HeadText(b, items, j, lines)
    case InText(j, u) => j < |items| && Suffix(u, items[j].content) && r == BodyText(b, u, items[j + 1..])
    case Dead => DeadText(r)
    case ToDelimiter(j, v) => j < |items| && !Contains(v, CrlfDashBoundary(b)) && r == BodyText(b, v, items[j + 1..])
    case ToInner(j, v) =>
      && j < |items| && |b| + 2 <= |items[j].content| && !Contains(v, CrlfDashBoundary(b))
      && r == v + CrlfDashBoundary(b) + InnerText(b, items, j)
    case ToNothing(v) => !Contains(v, CrlfDashBoundary(b)) && r == v
    case Somewhere(j, w) => j < |items| && Suffix(w, Whole(b, items[j])) && r == w + Tail(b, items, j)
    case Over => Suffix(r, CrlfDashBoundary(b) + ("--" + CRLF))
  }

  /** The number of items reported so far is too small for all to be reported from here on; or it is
      just large enough, and the item at hand cannot be the right one. */
  ghost predicate Count(b: string, items: seq<Item>, phase: Phase, file: FormData, done: seq<Item>, p: Place)
  {
    var k := |done|;
    match p
    case InHead(j, lines) =>
      && (phase == NewEntry || phase == Headers) && j < |items|
      && (k < j || (k == 0 == j && ReadLines(if phase == NewEntry then NO_FILE else file, lines) != (true, FileOf(items[0]))))
    case InText(j, u) =>
      (phase == NewEntry || phase == Headers) && j < |items| && TooFew(items, k, j, |u| + 2)
    case Dead =>
      (phase == NewEntry || phase == Headers) && k < |items|
    case ToDelimiter(j, v) =>
      && phase == Body && j < |items|
      && 0 < k && (k <= j || (k == j + 1 && |done[j].content| + |v| < |items[j].content|))
    case ToInner(j, v) =>
      phase == Body && j < |items| && 0 < k <= j
    case ToNothing(v) =>
      && phase == Body && items != [] && 0 < k
      && (k < |items| || (k == |items| && |done[k - 1].content| + |v| == |b| + 6 && |v| >= |b| + 4
                          && 2 < |items[k - 1].content|))
    case Somewhere(j, w) =>
      phase == Boundary && j < |items| && TooFew(items, k, j, |w|)
    case Over =>
      phase == Boundary && k < |items|
  }

  /** How many items may have been reported when a text of this size is to be content `j`. */
  predicate TooFew(items: seq<Item>, k: nat, j: nat, size: nat)
    requires j < |items|
  {
    k < j || (k == j && size < |items[j].content|)
  }

  ghost predicate At(b: string, items: seq<Item>, c: Config, unfed: string, p: Place)
  {
    Text(b, items, c.buf + unfed, p) && Count(b, items, c.phase, c.file, Assembled(c.events), p)
  }

  /** Some reported item is wrong for good: it is one too many, its header is another, or its content
      is complete and another. */
  ghost predicate Frozen(items: seq<Item>, c: Config)
  {
    Wrong(items, Assembled(c.events), c.phase == Body)
  }

  ghost predicate Wrong(items: seq<Item>, done: seq<Item>, inBody: bool)
  {
    exists i: nat :: WrongAt(items, done, inBody, i)
  }

  predicate WrongAt(items: seq<Item>, done: seq<Item>, inBody: bool, i: nat)
  {
    i < |done| &&
    (|| i >= |items| || FileOf(done[i]) != FileOf(items[i])
     || (done[i].content != items[i].content && (i + 1 < |done| || !inBody)))
  }

  ghost predicate Lost(b: string, items: seq<Item>, c: Config, unfed: string, p: Place)
  {
    c.phase != InitialBoundary && (Frozen(items, c) || At(b, items, c, unfed, p))
  }

  /** What has been reported differs from what was written. */
  lemma {:induction false} LostDiffers(b: string, items: seq<Item>, c: Config, unfed: string, p: Place)
    requires Lost(b, items, c, unfed, p)
    ensures Assembled(c.events) != items
  {
  }

  // ----- wrong items stay wrong

  lemma {:induction false} HeaderLinesTell(c: Config) returns (f: FormData)
    requires c.phase == Headers
    ensures var t := HeaderLines(ACCEPT, c);
            || (t.Return? && t.c.events == c.events && t.c.phase == Headers)
            || (t.GoOn? && t.c.events == c.events + [Header(f)] && t.c.phase == Body)
    decreases |c.buf|
  {
    f := c.file;
    var pos := Find(c.buf, CRLF);
    if 0 < pos < |c.buf| {
      var (ok, file) := HeaderLine(c.file, c.buf[..pos]);
      if ok {
        f := HeaderLinesTell(c.(file := file, buf := c.buf[pos + 2..]));
      }
    }
  }

  lemma {:induction false} WrongMore(items: seq<Item>, c: Config, c': Config, e: Event)
    requires Frozen(items, c) && c'.events == c.events + [e]
    requires (e.Header? && c.phase != Body && c'.phase == Body) || (e.Content? && c.phase == Body)
    ensures Frozen(items, c')
  {
    AssembledMore(c.events, e);
    var done, done' := Assembled(c.events), Assembled(c'.events);
    var i: nat :| WrongAt(items, done, c.phase == Body, i);
    assert WrongAt(items, done', c'.phase == Body, i);
  }

  lemma {:induction false} WrongStill(items: seq<Item>, c: Config, c': Config)
    requires Frozen(items, c) && c'.events == c.events && (c.phase == Body || c'.phase != Body)
    requires c'.phase == Body ==> c.phase == Body
    ensures Frozen(items, c')
  {
    var done := Assembled(c.events);
    var i: nat :| WrongAt(items, done, c.phase == Body, i);
    assert WrongAt(items, done, c'.phase == Body, i);
  }

  lemma {:induction false} FrozenStays(b: string, items: seq<Item>, c: Config)
    requires Frozen(items, c) && c.phase != InitialBoundary && c.buf != []
    ensures var t := OneTurn(b, ACCEPT, c); t.c.phase != InitialBoundary && Frozen(items, t.c)
  {
    var t := OneTurn(b, ACCEPT, c);
    if t.c.events == c.events {
      if c.phase == Headers {
        var f := HeaderLinesTell(c);
      }
      WrongStill(items, c, t.c);
    } else if c.phase == Headers {
      var f := HeaderLinesTell(c);
      WrongMore(items, c, t.c, Header(f));
    } else {
      WrongMore(items, c, t.c, t.c.events[|c.events|]);
    }
  }

  // ----- header lines

  /** The end of a line, in a buffer that holds only a beginning of the text. */
  lemma {:induction false} LineEnd(c: Config, unfed: string, line: string, rest: string)
    requires c.buf + unfed == line + CRLF + rest && !Contains(line, CRLF)
    ensures |line| + 2 <= |c.buf| ==>
      Find(c.buf, CRLF) == |line| && c.buf[..|line|] == line && c.buf[|line| + 2..] + unfed == rest
    ensures |line| + 2 > |c.buf| ==> Find(c.buf, CRLF) == |c.buf|
  {
    Regroup(line, CRLF, rest);
    FindLineEnd(c.buf, unfed, line, rest);
    if |line| + 2 <= |c.buf| {
      TakeLine(c.buf, unfed, line, rest);
    }
  }

  /** A line that is complete in the buffer and accepted. */
  predicate Reads(c: Config, line: string)
  {
    |line| + 2 <= |c.buf| && HeaderLine(c.file, line).0
  }

  /** The configuration behind it. */
  function Behind(c: Config, line: string): Config
    requires |line| + 2 <= |c.buf|
  {
    c.(file := HeaderLine(c.file, line).1, buf := c.buf[|line| + 2..])
  }

  /** What one line does to a run of header lines. */
  lemma {:induction false} OneLine(c: Config, unfed: string, line: string, rest: string)
    requires c.buf + unfed == line + CRLF + rest && !Contains(line, CRLF) && line != []
    ensures var t := HeaderLines(ACCEPT, c);
            if Reads(c, line) then t == HeaderLines(ACCEPT, Behind(c, line)) && Behind(c, line).buf + unfed == rest
            else t.Return? && (t.ok ==> t.c == c)
  {
    LineEnd(c, unfed, line, rest);
  }

  ghost predicate Keeps(b: string, items: seq<Item>, t: Turn, unfed: string, p: Place)
  {
    (t.Return? && !t.ok) || Lost(b, items, t.c, unfed, p)
  }

  lemma {:induction false} DeadLine(c: Config, unfed: string)
    requires c.phase == Headers && DeadText(c.buf + unfed)
    ensures HeaderLines(ACCEPT, c).Return?
    ensures HeaderLines(ACCEPT, c).ok ==> HeaderLines(ACCEPT, c).c == c
  {
    var pos := Find(c.buf, CRLF);
    if c.buf != [] && pos < |c.buf| {
      assert c.buf[0] == (c.buf + unfed)[0] == '-';
      assert c.buf[pos..pos + 2][0] == '\r';
      var line := c.buf[..pos];
      assert pos > 0 && line[0] == '-' && ToLower(line[0]) != ToLower('c');
      assert !StartsWithNoCase(line, "content-type:") && !StartsWithNoCase(line, "content-disposition:");
    }
  }

  /** The callback for a header opens an item. */
  lemma {:induction false} Opened(b: string, items: seq<Item>, c: Config, c': Config, unfed: string, j: nat, u: string)
    requires j < |items| && !Contains(u, CrlfDashBoundary(b)) && TooFew(items, |Assembled(c.events)|, j, |u|)
    requires c'.phase == Body && c'.events == c.events + [Header(c.file)]
    requires c'.buf + unfed == BodyText(b, u, items[j + 1..])
    ensures At(b, items, c', unfed, ToDelimiter(j, u))
  {
    AssembledMore(c.events, Header(c.file));
  }

  lemma {:induction false} OpenedWrong(items: seq<Item>, c: Config, c': Config)
    requires items != [] && Assembled(c.events) == [] && c.file != FileOf(items[0])
    requires c'.phase == Body && c'.events == c.events + [Header(c.file)]
    ensures Frozen(items, c')
  {
    AssembledMore(c.events, Header(c.file));
    assert WrongAt(items, Assembled(c'.events), true, 0);
  }

  lemma {:induction false} ContentIsClean(b: string, items: seq<Item>, j: nat, u: string)
    requires GoodItems(b, items) && j < |items| && Suffix(u, items[j].content)
    ensures !Contains(u, CrlfDashBoundary(b))
  {
    assert GoodItem(b, items[j]);
    TailContains(items[j].content, |items[j].content| - |u|, CrlfDashBoundary(b));
  }

  /** The configuration behind a blank line. */
  function Opening(c: Config): Config
    requires |c.buf| >= 2
  {
    c.(events := c.events + [Header(c.file)], buf := c.buf[2..], phase := Body)
  }

  lemma {:induction false} BlankTurn(c: Config, unfed: string, rest: string)
    requires c.buf + unfed == CRLF + rest
    ensures HeaderLines(ACCEPT, c) ==
      if |c.buf| < 2 then Return(true, c) else GoOn(Opening(c))
    ensures |c.buf| >= 2 ==> Opening(c).buf + unfed == rest
  {
    NoLineEnd(CRLF);
    assert [] + CRLF + rest == CRLF + rest;
    LineEnd(c, unfed, [], rest);
  }

  /** The blank line in front of a content. */
  lemma {:induction false} BlankLine(b: string, items: seq<Item>, c: Config, unfed: string, j: nat, u: string)
    requires GoodItems(b, items) && j < |items| && |c.buf| >= 2 && Suffix(u, items[j].content)
    requires Opening(c).buf + unfed == BodyText(b, u, items[j + 1..])
    requires TooFew(items, |Assembled(c.events)|, j, |u|) || (Assembled(c.events) == [] && c.file != FileOf(items[0]))
    ensures Lost(b, items, Opening(c), unfed, ToDelimiter(j, u))
  {
    ContentIsClean(b, items, j, u);
    if TooFew(items, |Assembled(c.events)|, j, |u|) {
      Opened(b, items, c, Opening(c), unfed, j, u);
    } else {
      OpenedWrong(items, c, Opening(c));
    }
  }

  lemma {:induction false} OpensOne(c: Config)
    requires |c.buf| >= 2
    ensures var done := Assembled(Opening(c).events);
            |done| == |Assembled(c.events)| + 1 && done[|done| - 1].content == []
  {
    AssembledMore(c.events, Header(c.file));
  }

  /** The blank line that is a delimiter's line end: what follows the delimiter is read as content. */
  lemma {:induction false} BlankAtTail(b: string, items: seq<Item>, c: Config, unfed: string, j: nat, done: seq<Item>)
    returns (p: Place)
    requires GoodItems(b, items) && j < |items| && c.phase == Body && done == Assembled(c.events) && done != []
    requires c.buf + unfed == "--" + b + After(b, items[j + 1..])
    requires done[|done| - 1].content == [] && TooFew(items, |done| - 1, j, 2)
    ensures At(b, items, c, unfed, p)
  {
    p := TailText(b, items, j, c.buf + unfed);
    TailCount(b, items, c, j, done, p);
  }

  /** A delimiter and what follows it, read as content. */
  lemma {:induction false} TailText(b: string, items: seq<Item>, j: nat, r: string) returns (p: Place)
    requires GoodItems(b, items) && j < |items| && r == "--" + b + After(b, items[j + 1..])
    ensures Text(b, items, r, p) && SwallowedAt(b, items, j, p)
  {
    if j + 1 < |items| {
      p := SwallowsHeader(b, items, j + 1, r);
    } else {
      p := ToNothing("--" + b + ("--" + CRLF));
      ClosingIsClean(b);
    }
  }

  predicate SwallowedAt(b: string, items: seq<Item>, j: nat, p: Place)
  {
    if j + 1 == |items| then p.ToNothing? && |p.v| == |b| + 6 else (p.ToInner? || p.ToDelimiter?) && p.j == j + 1 < |items|
  }

  lemma {:induction false} TailCount(b: string, items: seq<Item>, c: Config, j: nat, done: seq<Item>, p: Place)
    requires j < |items| && c.phase == Body && done == Assembled(c.events) && done != []
    requires done[|done| - 1].content == [] && TooFew(items, |done| - 1, j, 2) && SwallowedAt(b, items, j, p)
    ensures Count(b, items, c.phase, c.file, Assembled(c.events), p)
  {
  }

  lemma {:induction false} ClosingIsClean(b: string)
    requires '\r' !in b
    ensures !Contains("--" + b + ("--" + CRLF), CrlfDashBoundary(b))
  {
    var s, d := "--" + b + ("--" + CRLF), CrlfDashBoundary(b);
    forall i: nat
      ensures !StartsAt(s, i, d)
    {
      if i + |d| <= |s| {
        assert s[i..i + |d|][0] == s[i] && s[i] != '\r';
      }
    }
  }

  /** What stands behind the delimiter in front of item `j`. */
  lemma {:induction false} AfterIs(b: string, items: seq<Item>, j: nat)
    requires j < |items|
    ensures After(b, items[j..])
         == CRLF + (Joined(Lines(items[j])) + (CRLF + BodyText(b, items[j].content, items[j + 1..])))
  {
    assert items[j..][0] == items[j] && items[j..][1..] == items[j + 1..];
  }

  /** Reading a delimiter and the header behind it as content. */
  lemma {:induction false} SwallowsHeader(b: string, items: seq<Item>, j: nat, r: string) returns (p: Place)
    requires GoodItems(b, items) && j < |items| && r == "--" + b + After(b, items[j..])
    ensures Text(b, items, r, p) && (p.ToInner? || p.ToDelimiter?) && p.j == j
  {
    var item, after := items[j], After(b, items[j + 1..]);
    assert GoodItem(b, item);
    var x := HeaderNoDash(b, item);
    AfterIs(b, items, j);
    Shape(b, "--" + b, Joined(Lines(item)), item.content, after);
    assert r == x + CRLF + item.content + CrlfDashBoundary(b) + after;
    if StartsAt(item.content, 0, "--" + b) {
      p := ToInner(j, x);
      InnerIs(b, x, items, j);
    } else {
      p := ToDelimiter(j, x + CRLF + item.content);
      ItemNoDelimiter(b, x, item.content);
    }
  }

  lemma {:induction false} InnerIs(b: string, x: string, items: seq<Item>, j: nat)
    requires j < |items| && StartsAt(items[j].content, 0, "--" + b)
    ensures |b| + 2 <= |items[j].content|
    ensures x + CRLF + items[j].content + CrlfDashBoundary(b) + After(b, items[j + 1..])
         == x + CrlfDashBoundary(b) + InnerText(b, items, j)
  {
    InnerShape(b, x, items[j].content, Tail(b, items, j));
    Regroup(x + CRLF + items[j].content, CrlfDashBoundary(b), After(b, items[j + 1..]));
  }

  lemma {:induction false} Shape(b: string, dash: string, lines: string, content: string, after: string)
    ensures dash + (CRLF + (lines + (CRLF + (content + CrlfDashBoundary(b) + after))))
         == dash + CRLF + lines + CRLF + content + CrlfDashBoundary(b) + after
  {
  }

  lemma {:induction false} InnerShape(b: string, x: string, content: string, tail: string)
    requires StartsAt(content, 0, "--" + b)
    ensures |b| + 2 <= |content| && x + CRLF + content + tail == x + CrlfDashBoundary(b) + (content[|b| + 2..] + tail)
  {
    assert content == "--" + b + content[|b| + 2..];
  }

  // ----- no delimiter in header lines

  /** No line but the first begins with a dash. */
  predicate NoDash(x: string)
  {
    forall i :: 0 <= i < |x| - 2 && x[i] == '\r' && x[i + 1] == '\n' ==> x[i + 2] != '-'
  }

  lemma {:induction false} NoDashLine(line: string, rest: string)
    requires !Contains(line, CRLF) && NoDash(rest) && (rest == [] || rest[0] != '-')
    ensures NoDash(line + CRLF + rest)
  {
    var x := line + CRLF + rest;
    forall i: nat | i < |x| - 2
      ensures !(x[i] == '\r' && x[i + 1] == '\n' && x[i + 2] == '-')
    {
      if i + 2 <= |line| {
        assert x[i..i + 2] == line[i..i + 2] == [x[i], x[i + 1]];
        assert !StartsAt(line, i, CRLF);
      } else if i >= |line| + 2 {
        var k := i - |line| - 2;
        assert rest[k] == x[i] && rest[k + 1] == x[i + 1] && rest[k + 2] == x[i + 2];
      }
    }
  }

  lemma {:induction false} NoDashLines(lines: seq<string>)
    requires GoodLines(lines) && forall i :: 0 <= i < |lines| ==> lines[i][0] != '-'
    ensures NoDash(Joined(lines)) && (Joined(lines) == [] || Joined(lines)[0] != '-')
    decreases |lines|
  {
    if lines != [] {
      assert GoodLine(lines[0]);
      NoDashLines(lines[1..]);
      NoDashLine(lines[0], Joined(lines[1..]));
    }
  }

  lemma {:induction false} ItemLinesNoDash(b: string, item: Item)
    requires GoodItem(b, item)
    ensures NoDash(Joined(Lines(item))) && Joined(Lines(item)) != [] && Joined(Lines(item))[0] != '-'
  {
    GoodItemLines(b, item);
    assert forall i :: 0 <= i < |Lines(item)| ==> Lines(item)[i][0] == 'C';
    NoDashLines(Lines(item));
  }

  /** A delimiter and the header behind it. */
  lemma {:induction false} HeaderNoDash(b: string, item: Item) returns (x: string)
    requires '\r' !in b && GoodItem(b, item)
    ensures x == "--" + b + CRLF + Joined(Lines(item)) && NoDash(x) && |x| >= 2 && x[|x| - 1] == '\n'
    ensures !Contains(x, CrlfDashBoundary(b))
  {
    var dash, lines := "--" + b, Joined(Lines(item));
    x := dash + CRLF + lines;
    ItemLinesNoDash(b, item);
    assert '\r' !in dash;
    AbsentCharacter(dash, CRLF);
    NoDashLine(dash, lines);
    EndsWithLine(Lines(item));
    NoDashNoDelimiter(b, x);
  }

  lemma {:induction false} EndsWithLine(lines: seq<string>)
    requires lines != []
    ensures |Joined(lines)| >= 2 && Joined(lines)[|Joined(lines)| - 2..] == CRLF
    decreases |lines|
  {
    if |lines| > 1 {
      EndsWithLine(lines[1..]);
    } else {
      assert lines[1..] == [];
    }
  }

  lemma {:induction false} NoDashNoDelimiter(b: string, x: string)
    requires NoDash(x)
    ensures !Contains(x, CrlfDashBoundary(b))
  {
    var d := CrlfDashBoundary(b);
    forall i: nat
      ensures !StartsAt(x, i, d)
    {
      if i + |d| <= |x| {
        var y := x[i..i + |d|];
        assert y[0] == x[i] && y[1] == x[i + 1] && y[2] == x[i + 2];
        assert d[0] == '\r' && d[1] == '\n' && d[2] == '-';
      }
    }
  }

  /** A whole entry, unless its content begins like a delimiter. */
  lemma {:induction false} ItemNoDelimiter(b: string, x: string, content: string)
    requires NoDash(x) && |x| >= 2 && x[|x| - 1] == '\n'
    requires !StartsAt(content, 0, "--" + b) && !Contains(content, CrlfDashBoundary(b))
    ensures !Contains(x + CRLF + content, CrlfDashBoundary(b))
  {
    var d, s := CrlfDashBoundary(b), x + CRLF + content;
    forall i: nat
      ensures !StartsAt(s, i, d)
    {
      if i + |d| <= |s| {
        DelimiterAt(s, i, b);
        if i + 2 < |x| {
          assert x[i] == s[i] && x[i + 1] == s[i + 1] && x[i + 2] == s[i + 2];
        } else if i == |x| {
          SameSlice(x + CRLF, content, 0, |b| + 2);
        } else if i >= |x| + 2 {
          var k := i - |x| - 2;
          SameSlice(x + CRLF, content, k, |d|);
          assert !StartsAt(content, k, d);
        }
      }
    }
  }

  lemma {:induction false} SameSlice(x: string, y: string, k: nat, n: nat)
    requires k + n <= |y|
    ensures (x + y)[|x| + k..|x| + k + n] == y[k..k + n]
  {
  }

  lemma {:induction false} DelimiterAt(s: string, i: nat, b: string)
    requires i + |b| + 4 <= |s|
    ensures StartsAt(s, i, CrlfDashBoundary(b)) ==>
      s[i] == '\r' && s[i + 1] == '\n' && s[i + 2] == '-' && s[i + 2..i + |b| + 4] == "--" + b
  {
    var d := CrlfDashBoundary(b);
    var y := s[i..i + |d|];
    assert y[0] == s[i] && y[1] == s[i + 1] && y[2] == s[i + 2] && y[2..] == s[i + 2..i + |b| + 4];
    assert d[0] == '\r' && d[1] == '\n' && d[2] == '-' && d[2..] == "--" + b;
  }

  // ----- state 2

  /** A place at a header line or in front of one. */
  predicate AtLine(p: Place) { p.InHead? || p.InText? || p.Dead? }

  lemma {:induction false} HeadersStayLost(b: string, items: seq<Item>, c: Config, unfed: string, p: Place) returns (p': Place)
    requires GoodItems(b, items) && c.phase == Headers && AtLine(p) && At(b, items, c, unfed, p)
    ensures Keeps(b, items, HeaderLines(ACCEPT, c), unfed, p')
    decreases |c.buf|, 1
  {
    match p
    case Dead =>
      p' := p;
      DeadLine(c, unfed);
    case InHead(j, lines) =>
      p' := HeadStaysLost(b, items, c, unfed, j, lines);
    case InText(j, u) =>
      var n := Find(u, CRLF);
      if n < |u| {
        p' := TextStaysLost(b, items, c, unfed, j, u, n);
      } else {
        p' := LastLineStaysLost(b, items, c, unfed, j, u);
      }
  }

  lemma {:induction false} HeadStaysLost(b: string, items: seq<Item>, c: Config, unfed: string, j: nat, lines: seq<string>)
    returns (p': Place)
    requires GoodItems(b, items) && c.phase == Headers && At(b, items, c, unfed, InHead(j, lines))
    ensures Keeps(b, items, HeaderLines(ACCEPT, c), unfed, p')
    decreases |c.buf|, 0
  {
    p' := InHead(j, lines);
    if lines == [] {
      BlankTurn(c, unfed, BodyText(b, items[j].content, items[j + 1..]));
      if |c.buf| >= 2 {
        p' := ToDelimiter(j, items[j].content);
        BlankLine(b, items, c, unfed, j, items[j].content);
      }
    } else {
      assert GoodLine(lines[0]);
      HeadLine(b, items, j, lines);
      OneLine(c, unfed, lines[0], HeadText(b, items, j, lines[1..]));
      if Reads(c, lines[0]) {
        p' := HeadersStayLost(b, items, Behind(c, lines[0]), unfed, InHead(j, lines[1..]));
      }
    }
  }

  lemma {:induction false} TextStaysLost(b: string, items: seq<Item>, c: Config, unfed: string, j: nat, u: string, n: nat)
    returns (p': Place)
    requires GoodItems(b, items) && c.phase == Headers && At(b, items, c, unfed, InText(j, u)) && n == Find(u, CRLF) < |u|
    ensures Keeps(b, items, HeaderLines(ACCEPT, c), unfed, p')
    decreases |c.buf|, 0
  {
    var v, rest := TextParts(b, items, c, unfed, j, u, n);
    if n == 0 {
      p' := BlankInText(b, items, c, unfed, j, u, v);
    } else {
      p' := InText(j, u);
      OneLine(c, unfed, u[..n], rest);
      if Reads(c, u[..n]) {
        NextInText(b, items, c, Behind(c, u[..n]), unfed, j, u, v);
        p' := HeadersStayLost(b, items, Behind(c, u[..n]), unfed, InText(j, v));
      }
    }
  }

  lemma {:induction false} TextParts(b: string, items: seq<Item>, c: Config, unfed: string, j: nat, u: string, n: nat)
    returns (v: string, rest: string)
    requires At(b, items, c, unfed, InText(j, u)) && n == Find(u, CRLF) < |u|
    ensures n + 2 <= |u| && v == u[n + 2..] && !Contains(u[..n], CRLF) && Suffix(v, items[j].content)
    ensures rest == BodyText(b, v, items[j + 1..]) && c.buf + unfed == u[..n] + CRLF + rest
    ensures n == 0 ==> BodyText(b, u, items[j + 1..]) == CRLF + rest
  {
    TextLine(b, u, n, items[j + 1..]);
    v, rest := u[n + 2..], BodyText(b, u[n + 2..], items[j + 1..]);
    SuffixOfSuffix(v, u, items[j].content);
  }

  /** A line of content read as one of a header leads to the text behind it. */
  lemma {:induction false} NextInText(b: string, items: seq<Item>, c: Config, c': Config, unfed: string, j: nat,
                                      u: string, v: string)
    requires At(b, items, c, unfed, InText(j, u)) && Suffix(v, items[j].content) && |v| <= |u|
    requires c'.phase == c.phase && c'.events == c.events && c'.buf + unfed == BodyText(b, v, items[j + 1..])
    ensures At(b, items, c', unfed, InText(j, v))
  {
  }

  lemma {:induction false} BlankInText(b: string, items: seq<Item>, c: Config, unfed: string, j: nat, u: string, v: string)
    returns (p': Place)
    requires GoodItems(b, items) && c.phase == Headers && At(b, items, c, unfed, InText(j, u))
    requires |v| <= |u| && Suffix(v, items[j].content)
    requires BodyText(b, u, items[j + 1..]) == CRLF + BodyText(b, v, items[j + 1..])
    ensures Keeps(b, items, HeaderLines(ACCEPT, c), unfed, p')
  {
    BlankTurn(c, unfed, BodyText(b, v, items[j + 1..]));
    p' := InText(j, u);
    if |c.buf| >= 2 {
      p' := ToDelimiter(j, v);
      BlankLine(b, items, c, unfed, j, v);
    }
  }

  /** The last line of a content ends with the delimiter's line end. */
  lemma {:induction false} LastLineStaysLost(b: string, items: seq<Item>, c: Config, unfed: string, j: nat, u: string)
    returns (p': Place)
    requires GoodItems(b, items) && c.phase == Headers && At(b, items, c, unfed, InText(j, u)) && Find(u, CRLF) == |u|
    ensures Keeps(b, items, HeaderLines(ACCEPT, c), unfed, p')
    decreases |c.buf|, 0
  {
    var rest := LastParts(b, items, c, unfed, j, u);
    if u == [] {
      p' := BlankAtEnd(b, items, c, unfed, j, rest);
    } else {
      p' := InText(j, u);
      OneLine(c, unfed, u, rest);
      if Reads(c, u) {
        NextIsDead(b, items, c, Behind(c, u), unfed, j, u, rest);
        p' := HeadersStayLost(b, items, Behind(c, u), unfed, Dead);
      }
    }
  }

  lemma {:induction false} LastParts(b: string, items: seq<Item>, c: Config, unfed: string, j: nat, u: string)
    returns (rest: string)
    requires At(b, items, c, unfed, InText(j, u)) && Find(u, CRLF) == |u|
    ensures !Contains(u, CRLF) && DeadText(rest) && c.buf + unfed == u + CRLF + rest
    ensures rest == "--" + b + After(b, items[j + 1..])
    ensures u == [] ==> BodyText(b, [], items[j + 1..]) == CRLF + rest
  {
    rest := LastLine(b, u, items[j + 1..]);
  }

  lemma {:induction false} NextIsDead(b: string, items: seq<Item>, c: Config, c': Config, unfed: string, j: nat,
                                      u: string, rest: string)
    requires At(b, items, c, unfed, InText(j, u)) && DeadText(rest)
    requires c'.phase == c.phase && c'.events == c.events && c'.buf + unfed == rest
    ensures At(b, items, c', unfed, Dead)
  {
  }

  lemma {:induction false} BlankAtEnd(b: string, items: seq<Item>, c: Config, unfed: string, j: nat, rest: string)
    returns (p': Place)
    requires GoodItems(b, items) && c.phase == Headers && At(b, items, c, unfed, InText(j, []))
    requires rest == "--" + b + After(b, items[j + 1..]) && BodyText(b, [], items[j + 1..]) == CRLF + rest
    ensures Keeps(b, items, HeaderLines(ACCEPT, c), unfed, p')
  {
    BlankTurn(c, unfed, rest);
    p' := InText(j, []);
    if |c.buf| >= 2 {
      OpensOne(c);
      p' := BlankAtTail(b, items, Opening(c), unfed, j, Assembled(Opening(c).events));
    }
  }

  lemma {:induction false} HeadLine(b: string, items: seq<Item>, j: nat, lines: seq<string>)
    requires j < |items| && lines != []
    ensures HeadText(b, items, j, lines) == lines[0] + CRLF + HeadText(b, items, j, lines[1..])
  {
    Regroup(lines[0] + CRLF, Joined(lines[1..]), CRLF + BodyText(b, items[j].content, items[j + 1..]));
  }

  lemma {:induction false} TextLine(b: string, u: string, n: nat, rest: seq<Item>)
    requires n == Find(u, CRLF) < |u|
    ensures n + 2 <= |u| && !Contains(u[..n], CRLF)
    ensures BodyText(b, u, rest) == u[..n] + CRLF + BodyText(b, u[n + 2..], rest)
    ensures n == 0 ==> BodyText(b, u, rest) == CRLF + BodyText(b, u[n + 2..], rest)
  {
    assert u == u[..n] + CRLF + u[n + 2..];
    Regroup(u[n + 2..], CrlfDashBoundary(b), After(b, rest));
    forall i: nat
      ensures !StartsAt(u[..n], i, CRLF)
    {
      if i + 2 <= n {
        assert u[..n][i..i + 2] == u[i..i + 2];
        assert !StartsAt(u, i, CRLF);
      }
    }
  }

  lemma {:induction false} LastLine(b: string, u: string, after: seq<Item>) returns (rest: string)
    requires Find(u, CRLF) == |u|
    ensures !Contains(u, CRLF) && rest == "--" + b + After(b, after) && DeadText(rest)
    ensures BodyText(b, u, after) == u + CRLF + rest
    ensures u == [] ==> BodyText(b, u, after) == CRLF + rest
  {
    var dash, t := "--" + b, After(b, after);
    rest := dash + t;
    assert CrlfDashBoundary(b) == CRLF + dash;
    Regroup(u, CRLF, dash);
    Regroup(u + CRLF, dash, t);
    forall i: nat
      ensures !StartsAt(u, i, CRLF)
    {
    }
  }

  // ----- state 3

  /** A turn that reads the content `v` up to a delimiter: all of it, or the first `n` characters. */
  ghost predicate Step(b: string, c: Config, t: Turn, unfed: string, v: string, z: string, n: nat)
  {
    n <= |v| &&
    if t.GoOn? then
      t.c.phase == Boundary && t.c.events == c.events + [Content(v)] && t.c.buf + unfed == z
    else
      && t.ok && t.c.phase == c.phase && t.c.events == (if n == 0 then c.events else c.events + [Content(v[..n])])
      && !Contains(v[n..], CrlfDashBoundary(b)) && t.c.buf + unfed == v[n..] + CrlfDashBoundary(b) + z
  }

  lemma {:induction false} BodyStep(b: string, c: Config, unfed: string, v: string, z: string) returns (n: nat)
    requires '\r' !in b && !Contains(v, CrlfDashBoundary(b)) && c.buf + unfed == v + CrlfDashBoundary(b) + z
    ensures Step(b, c, BodyTurn(b, ACCEPT, c), unfed, v, z, n)
  {
    var d := CrlfDashBoundary(b);
    DelimiterNeverOverlaps(b);
    FindAtSplice(v, d, z);
    FindInPrefix(c.buf, unfed, d);
    n := 0;
    assert v[0..] == v;
    if |v| + |d| <= |c.buf| {
      var rest := TakeDelimiter(c.buf, unfed, v, d, z);
    } else if |d| < |c.buf| {
      n := |c.buf| - |d|;
      PartLeft(c.buf, unfed, v, d, z, n);
    }
  }

  lemma {:induction false} PartLeft(buf: string, unfed: string, v: string, d: string, z: string, n: nat)
    requires n <= |v| && n <= |buf| && buf + unfed == v + d + z && !Contains(v, d)
    ensures buf[..n] == v[..n] && buf[n..] + unfed == v[n..] + d + z && !Contains(v[n..], d)
  {
    TailContains(v, n, d);
    Regroup(v, d, z);
    TakePart(buf, unfed, v, d + z, n);
    Regroup(v[n..], d, z);
  }

  lemma {:induction false} TakePart(buf: string, unfed: string, v: string, z: string, n: nat)
    requires n <= |v| && n <= |buf| && buf + unfed == v + z
    ensures buf[..n] == v[..n] && buf[n..] + unfed == v[n..] + z
  {
    assert v == v[..n] + v[n..];
    Regroup(v[..n], v[n..], z);
    Consume(buf, unfed, v[..n], v[n..] + z);
  }

  lemma {:induction false} MoreContent(events: seq<Event>, x: string)
    requires Assembled(events) != []
    ensures var done, done' := Assembled(events), Assembled(events + [Content(x)]);
            |done'| == |done| && |done'[|done| - 1].content| == |done[|done| - 1].content| + |x|
  {
    AssembledMore(events, Content(x));
  }

  /** Behind the delimiter that follows item `j`. */
  lemma {:induction false} PastDelimiter(b: string, items: seq<Item>, c: Config, unfed: string, j: nat) returns (p: Place)
    requires j < |items| && c.phase == Boundary && |Assembled(c.events)| <= j
    requires c.buf + unfed == After(b, items[j + 1..])
    ensures At(b, items, c, unfed, p)
  {
    if j + 1 < |items| {
      var item := items[j + 1];
      var w := CRLF + ItemText(item, Lines(item));
      AfterShape(b, items, j + 1);
      SuffixOfEnd(CrlfDashBoundary(b), w);
      p := Somewhere(j + 1, w);
    } else {
      SuffixOfEnd(CrlfDashBoundary(b), "--" + CRLF);
      p := Over;
    }
  }

  lemma {:induction false} SuffixOfEnd(x: string, y: string)
    ensures Suffix(y, x + y)
  {
  }

  lemma {:induction false} AfterShape(b: string, items: seq<Item>, j: nat)
    requires j < |items|
    ensures After(b, items[j..]) == CRLF + ItemText(items[j], Lines(items[j])) + Tail(b, items, j)
  {
    AfterIs(b, items, j);
    var lines, content, d, t := Joined(Lines(items[j])), items[j].content, CrlfDashBoundary(b), After(b, items[j + 1..]);
    Regroup(content, d, t);
    Regroup(CRLF, content, d + t);
    Regroup(lines, CRLF + content, d + t);
    Regroup(CRLF, lines + (CRLF + content), d + t);
  }

  lemma {:induction false} ToDelimiterStays(b: string, items: seq<Item>, c: Config, t: Turn, unfed: string, j: nat, v: string,
                                            n: nat)
    returns (p': Place)
    requires At(b, items, c, unfed, ToDelimiter(j, v)) && Step(b, c, t, unfed, v, After(b, items[j + 1..]), n)
    ensures Keeps(b, items, t, unfed, p')
  {
    if t.Return? {
      p' := ToDelimiter(j, v[n..]);
      assert Text(b, items, t.c.buf + unfed, p');
      DelimiterCount(b, items, c, t.c, j, v, n);
    } else {
      p' := DelimiterPassed(b, items, c, t.c, unfed, j, v);
    }
  }

  lemma {:induction false} DelimiterCount(b: string, items: seq<Item>, c: Config, c': Config, j: nat, v: string, n: nat)
    requires Count(b, items, c.phase, c.file, Assembled(c.events), ToDelimiter(j, v)) && n <= |v|
    requires c'.phase == c.phase && c'.events == if n == 0 then c.events else c.events + [Content(v[..n])]
    ensures Count(b, items, c'.phase, c'.file, Assembled(c'.events), ToDelimiter(j, v[n..]))
  {
    MoreContent(c.events, v[..n]);
  }

  lemma {:induction false} DelimiterPassed(b: string, items: seq<Item>, c: Config, c': Config, unfed: string, j: nat, v: string)
    returns (p': Place)
    requires Count(b, items, c.phase, c.file, Assembled(c.events), ToDelimiter(j, v))
    requires c'.phase == Boundary && c'.events == c.events + [Content(v)] && c'.buf + unfed == After(b, items[j + 1..])
    ensures Lost(b, items, c', unfed, p')
  {
    MoreContent(c.events, v);
    if |Assembled(c.events)| <= j {
      p' := PastDelimiter(b, items, c', unfed, j);
    } else {
      p' := Dead;
      assert WrongAt(items, Assembled(c'.events), false, j);
    }
  }

  lemma {:induction false} ToInnerStays(b: string, items: seq<Item>, c: Config, t: Turn, unfed: string, j: nat, v: string,
                                        n: nat)
    returns (p': Place)
    requires At(b, items, c, unfed, ToInner(j, v)) && Step(b, c, t, unfed, v, InnerText(b, items, j), n)
    ensures Keeps(b, items, t, unfed, p')
  {
    MoreContent(c.events, if t.Return? then v[..n] else v);
    if t.Return? {
      p' := ToInner(j, v[n..]);
      assert Text(b, items, t.c.buf + unfed, p');
    } else {
      p' := Somewhere(j, items[j].content[|b| + 2..]);
      InnerSuffix(b, items[j]);
      assert Text(b, items, t.c.buf + unfed, p');
    }
  }

  lemma {:induction false} InnerSuffix(b: string, item: Item)
    requires |b| + 2 <= |item.content|
    ensures Suffix(item.content[|b| + 2..], Whole(b, item))
  {
    var content := item.content;
    SuffixOfEnd(CRLF, content);
    SuffixOfEnd(Joined(Lines(item)), CRLF + content);
    SuffixOfEnd(CRLF, ItemText(item, Lines(item)));
    SuffixOfEnd(CrlfDashBoundary(b), CRLF + ItemText(item, Lines(item)));
    SuffixOfSuffix(content, CRLF + content, ItemText(item, Lines(item)));
    SuffixOfSuffix(content, ItemText(item, Lines(item)), CRLF + ItemText(item, Lines(item)));
    SuffixOfSuffix(content, CRLF + ItemText(item, Lines(item)), Whole(b, item));
    SuffixOfSuffix(content[|b| + 2..], content, Whole(b, item));
  }

  lemma {:induction false} ToNothingStays(b: string, items: seq<Item>, c: Config, unfed: string, v: string)
    returns (p': Place)
    requires At(b, items, c, unfed, ToNothing(v))
    ensures Keeps(b, items, BodyTurn(b, ACCEPT, c), unfed, p')
  {
    var d := CrlfDashBoundary(b);
    p' := ToNothing(v);
    NowhereFound(c.buf, unfed, v, d);
    if |d| < |c.buf| {
      var n := |c.buf| - |d|;
      var c' := c.(events := c.events + [Content(c.buf[..n])], buf := c.buf[n..]);
      p' := NothingLeft(b, items, c, c', unfed, v, n);
    }
  }

  lemma {:induction false} NothingLeft(b: string, items: seq<Item>, c: Config, c': Config, unfed: string, v: string, n: nat)
    returns (p': Place)
    requires At(b, items, c, unfed, ToNothing(v)) && |c.buf| == n + |b| + 4
    requires c' == c.(events := c.events + [Content(c.buf[..n])], buf := c.buf[n..])
    ensures At(b, items, c', unfed, p')
  {
    p' := ToNothing(v[n..]);
    MoreContent(c.events, c.buf[..n]);
    TailContains(v, n, CrlfDashBoundary(b));
    TailOf(c.buf, unfed, n);
  }

  lemma {:induction false} TailOf(x: string, y: string, n: nat)
    requires n <= |x|
    ensures (x + y)[n..] == x[n..] + y
  {
  }

  lemma {:induction false} NowhereFound(buf: string, unfed: string, v: string, d: string)
    requires buf + unfed == v && !Contains(v, d) && |d| > 0
    ensures Find(buf, d) == |buf|
  {
    FindIs(v, d, |v|);
    FindInPrefix(buf, unfed, d);
  }

  // ----- state 4

  /** A text that begins with a line end. */
  predicate LineEnded(r: string) { |r| >= 2 && r[0] == '\r' && r[1] == '\n' }

  /** A line end among header lines is the end of one of them. */
  lemma {:induction false} LineEndIn(lines: seq<string>, s: string) returns (i: nat)
    requires GoodLines(lines) && Suffix(s, Joined(lines)) && LineEnded(s)
    ensures 1 <= i <= |lines| && s == CRLF + Joined(lines[i..])
    decreases |lines|
  {
    var line, rest := lines[0], Joined(lines[1..]);
    assert GoodLine(line);
    var t := SuffixOfJoin(s, line + CRLF, rest);
    if |s| >= |rest| + 2 {
      i := 1;
      LineEndOfOne(line, t);
    } else {
      if |s| >= |rest| {
        ShortEnd(line, t, s, rest);
      }
      i := LineEndIn(lines[1..], s);
      assert lines[1..][i..] == lines[i + 1..];
      i := i + 1;
    }
  }

  lemma {:induction false} LineEndOfOne(line: string, t: string)
    requires !Contains(line, CRLF) && Suffix(t, line + CRLF) && LineEnded(t)
    ensures t == CRLF
  {
    var x := line + CRLF;
    var p := |x| - |t|;
    assert x[p] == t[0] && x[p + 1] == t[1];
    if p + 2 <= |line| {
      assert line[p..p + 2] == [line[p], line[p + 1]] == CRLF;
      assert StartsAt(line, p, CRLF);
      assert false;
    }
    assert p == |line|;
  }

  /** A line end does not begin inside another. */
  lemma {:induction false} ShortEnd(x: string, t: string, s: string, rest: string)
    requires Suffix(t, x + CRLF) && |t| <= 1 && s == t + rest && LineEnded(s)
    ensures t == [] && s == rest
  {
    assert t == [] || t == "\n";
  }

  /** What follows a line end that stands anywhere from the delimiter in front of item `j` to the one behind it. */
  lemma {:induction false} BehindLineEnd(b: string, items: seq<Item>, j: nat, w: string, r: string) returns (p: Place, i: nat)
    requires GoodItems(b, items) && j < |items| && Suffix(w, Whole(b, items[j]))
    requires r == w + Tail(b, items, j) && LineEnded(r)
    ensures Text(b, items, r[2..], p) && LeadsTo(items, j, w, p, i)
  {
    var item := items[j];
    var head := CRLF + ItemText(item, Lines(item));
    var s := SuffixOfJoin(w, CrlfDashBoundary(b), head);
    if |w| < |head| {
      p, i := LineEndInItem(b, items, j, w, r);
    } else if s == [] {
      p, i := InHead(j, Lines(item)), 0;
      assert GoodItem(b, item);
      GoodItemLines(b, item);
      HeadShape(b, items, j, Lines(item));
      assert w == head && Lines(item)[0..] == Lines(item);
    } else {
      p, i := Dead, 0;
      WholeDelimiter(b, s, head + Tail(b, items, j));
      Regroup(s, head, Tail(b, items, j));
    }
  }

  /** The line end is that of a header line, or one in front of or inside the content. */
  predicate LeadsTo(items: seq<Item>, j: nat, w: string, p: Place, i: nat)
    requires j < |items|
  {
    match p
    case Dead => true
    case InHead(jj, lines) =>
      jj == j && i <= |Lines(items[j])| && lines == Lines(items[j])[i..] && w == CRLF + ItemText(items[j], lines)
    case InText(jj, u) => jj == j && |w| == |u| + 2
    case _ => false
  }

  lemma {:induction false} HeadShape(b: string, items: seq<Item>, j: nat, lines: seq<string>)
    requires j < |items|
    ensures (CRLF + ItemText(items[j], lines) + Tail(b, items, j))[2..] == HeadText(b, items, j, lines)
  {
    var head, content, d, t := Joined(lines), items[j].content, CrlfDashBoundary(b), After(b, items[j + 1..]);
    Regroup(content, d, t);
    Regroup(CRLF, content, d + t);
    Regroup(head, CRLF + content, d + t);
    Regroup(CRLF, head + (CRLF + content), d + t);
  }

  lemma {:induction false} WholeDelimiter(b: string, s: string, rest: string)
    requires '\r' !in b && Suffix(s, CrlfDashBoundary(b)) && s != [] && LineEnded(s + rest)
    ensures |s + rest| > 2 && (s + rest)[2] == '-'
  {
    var d := CrlfDashBoundary(b);
    var n := |d| - |s|;
    assert d[n] == s[0] == '\r';
    assert d[0] == '\r' && d[1] == '\n' && d[2] == '-';
    assert d[1..] == "\n--" + b;
    assert forall i :: 0 < i < |d| ==> d[i] == d[1..][i - 1] != '\r';
  }

  lemma {:induction false} LineEndInItem(b: string, items: seq<Item>, j: nat, w: string, r: string) returns (p: Place, i: nat)
    requires GoodItems(b, items) && j < |items| && Suffix(w, CRLF + ItemText(items[j], Lines(items[j])))
    requires |w| < |ItemText(items[j], Lines(items[j]))| + 2
    requires r == w + Tail(b, items, j) && LineEnded(r)
    ensures Text(b, items, r[2..], p) && LeadsTo(items, j, w, p, i)
  {
    var item := items[j];
    var lines, content := Lines(item), CRLF + item.content;
    NotInside([], ItemText(item, lines), w, Tail(b, items, j));
    var s := SuffixOfJoin(w, Joined(lines), content);
    if |w| < |content| {
      i := 0;
      p := LineEndInContent(b, items, j, w, r);
    } else if s == [] {
      p, i := InText(j, item.content), 0;
      TextShape(b, items, j, w, item.content, r);
    } else {
      p, i := LineEndInHead(b, items, j, w, s, r);
    }
  }

  lemma {:induction false} LineEndInHead(b: string, items: seq<Item>, j: nat, w: string, s: string, r: string)
    returns (p: Place, i: nat)
    requires GoodItems(b, items) && j < |items| && Suffix(s, Joined(Lines(items[j]))) && s != []
    requires w == s + (CRLF + items[j].content) && r == w + Tail(b, items, j) && LineEnded(r)
    ensures Text(b, items, r[2..], p) && LeadsTo(items, j, w, p, i)
  {
    var item := items[j];
    var lines, content, t := Lines(item), CRLF + item.content, Tail(b, items, j);
    assert GoodItem(b, item);
    GoodItemLines(b, item);
    Regroup(s, content, t);
    EnoughLeft(lines, s, content + t, r);
    i := LineEndIn(lines, s);
    p := InHead(j, lines[i..]);
    Regroup(CRLF, Joined(lines[i..]), content);
    HeadShape(b, items, j, lines[i..]);
  }

  lemma {:induction false} EnoughLeft(lines: seq<string>, s: string, rest: string, r: string)
    requires lines != [] && Suffix(s, Joined(lines)) && s != [] && LineEnded(r) && r == s + rest
    ensures LineEnded(s)
  {
    EndsWithLine(lines);
    var x := Joined(lines);
    assert x[|x| - 2..] == CRLF;
    assert s[0] == r[0] == '\r';
    assert x[|x| - 1] == x[|x| - 2..][1] == '\n' && s[|s| - 1] == x[|x| - 1];
    assert s[1] == r[1];
  }

  lemma {:induction false} NotInside(x: string, y: string, w: string, rest: string)
    requires Suffix(w, CRLF + y) && |w| < |y| + 2 && LineEnded(w + rest)
    ensures Suffix(w, y)
  {
    var s := SuffixOfJoin(w, CRLF, y);
    if |w| >= |y| {
      assert [] + CRLF == CRLF;
      Regroup(s, y, rest);
      ShortEnd([], s, w + rest, y + rest);
    }
  }

  lemma {:induction false} TextShape(b: string, items: seq<Item>, j: nat, w: string, u: string, r: string)
    requires j < |items| && w == CRLF + u && r == w + Tail(b, items, j) && Suffix(u, items[j].content)
    ensures Text(b, items, r[2..], InText(j, u))
  {
    Regroup(CRLF, u, Tail(b, items, j));
    Regroup(u, CrlfDashBoundary(b), After(b, items[j + 1..]));
  }

  lemma {:induction false} LineEndInContent(b: string, items: seq<Item>, j: nat, w: string, r: string) returns (p: Place)
    requires j < |items| && Suffix(w, CRLF + items[j].content) && |w| < |items[j].content| + 2
    requires r == w + Tail(b, items, j) && LineEnded(r)
    ensures Text(b, items, r[2..], p) && LeadsTo(items, j, w, p, 0)
  {
    NotInside([], items[j].content, w, Tail(b, items, j));
    assert Tail(b, items, j)[0] == '\r' && Tail(b, items, j)[2] == '-';
    if w == [] {
      p := Dead;
    } else {
      assert |w| >= 2;
      p := InText(j, w[2..]);
      assert w == CRLF + w[2..];
      SuffixOfSuffix(w[2..], w, items[j].content);
      TextShape(b, items, j, w, w[2..], r);
    }
  }

  /** Where a suffix of the body begins. */
  lemma {:induction false} SuffixIsSomewhere(b: string, items: seq<Item>, j: nat, w: string, r: string) returns (p: Place)
    requires j < |items| && Suffix(w, Whole(b, items[j])) && Suffix(r, w + Tail(b, items, j))
    ensures Text(b, items, r, p)
    ensures p.Over? || (p.Somewhere? && (p.j > j || (p.j == j && |p.w| <= |w|)))
    decreases |items| - j
  {
    var v := SuffixOfJoin(r, w, Tail(b, items, j));
    if |r| >= |Tail(b, items, j)| {
      p := Somewhere(j, v);
      SuffixOfSuffix(v, w, Whole(b, items[j]));
    } else if j + 1 < |items| {
      TailIs(b, items, j);
      p := SuffixIsSomewhere(b, items, j + 1, Whole(b, items[j + 1]), r);
    } else {
      p := Over;
    }
  }

  lemma {:induction false} TailIs(b: string, items: seq<Item>, j: nat)
    requires j + 1 < |items|
    ensures Tail(b, items, j) == Whole(b, items[j + 1]) + Tail(b, items, j + 1)
  {
    AfterShape(b, items, j + 1);
    var item := items[j + 1];
    Regroup(CrlfDashBoundary(b), CRLF + ItemText(item, Lines(item)), Tail(b, items, j + 1));
  }

  lemma {:induction false} BoundaryStaysLost(b: string, items: seq<Item>, c: Config, unfed: string, p: Place) returns (p': Place)
    requires GoodItems(b, items) && c.phase == Boundary && At(b, items, c, unfed, p)
    ensures Keeps(b, items, BoundaryTurn(c), unfed, p')
  {
    p' := p;
    var r := c.buf + unfed;
    if |c.buf| >= 2 && StartsAt(c.buf, 0, CRLF) {
      BeginsWith(c.buf, unfed);
      if p.Over? {
        p' := Dead;
        OverEnded(b, r);
      } else {
        var i: nat;
        p', i := BehindLineEnd(b, items, p.j, p.w, r);
      }
    } else if |c.buf| >= 2 && StartsAt(c.buf, 0, "--") {
      assert [] + unfed == unfed;
      if p.Over? {
        SuffixOfSuffix(unfed, r, CrlfDashBoundary(b) + ("--" + CRLF));
      } else {
        p' := SuffixIsSomewhere(b, items, p.j, p.w, unfed);
      }
    }
  }

  lemma {:induction false} BeginsWith(buf: string, unfed: string)
    requires |buf| >= 2 && StartsAt(buf, 0, CRLF)
    ensures LineEnded(buf + unfed) && (buf + unfed)[2..] == buf[2..] + unfed
  {
    assert buf[0..2] == CRLF;
    assert buf[0] == buf[0..2][0] && buf[1] == buf[0..2][1];
  }

  /** Nothing that could be a header line follows a line end in the closing delimiter. */
  lemma {:induction false} OverEnded(b: string, r: string)
    requires '\r' !in b && Suffix(r, CrlfDashBoundary(b) + ("--" + CRLF)) && LineEnded(r)
    ensures DeadText(r[2..])
  {
    var s := SuffixOfJoin(r, CrlfDashBoundary(b), "--" + CRLF);
    if |r| >= 4 {
      if s != [] {
        WholeDelimiter(b, s, "--" + CRLF);
      }
    } else {
      assert r[0] == ("--" + CRLF)[4 - |r|];
      assert r == CRLF;
    }
  }

  // ----- whole runs

  lemma {:induction false} BodyStaysLost(b: string, items: seq<Item>, c: Config, unfed: string, p: Place) returns (p': Place)
    requires GoodItems(b, items) && c.phase == Body && At(b, items, c, unfed, p)
    ensures Keeps(b, items, BodyTurn(b, ACCEPT, c), unfed, p')
  {
    match p
    case ToDelimiter(j, v) =>
      var n := BodyStep(b, c, unfed, v, After(b, items[j + 1..]));
      p' := ToDelimiterStays(b, items, c, BodyTurn(b, ACCEPT, c), unfed, j, v, n);
    case ToInner(j, v) =>
      var n := BodyStep(b, c, unfed, v, InnerText(b, items, j));
      p' := ToInnerStays(b, items, c, BodyTurn(b, ACCEPT, c), unfed, j, v, n);
    case ToNothing(v) =>
      p' := ToNothingStays(b, items, c, unfed, v);
  }

  lemma {:induction false} TurnStaysLost(b: string, items: seq<Item>, c: Config, unfed: string, p: Place) returns (p': Place)
    requires GoodItems(b, items) && Lost(b, items, c, unfed, p) && c.buf != []
    ensures Keeps(b, items, OneTurn(b, ACCEPT, c), unfed, p')
  {
    p' := p;
    if Frozen(items, c) {
      FrozenStays(b, items, c);
    } else {
      match c.phase
      case NewEntry =>
      case Headers =>
        if Find(c.buf, CRLF) <= HEADER_MAX_LENGTH {
          p' := HeadersStayLost(b, items, c, unfed, p);
        }
      case Body =>
        p' := BodyStaysLost(b, items, c, unfed, p);
      case Boundary =>
        p' := BoundaryStaysLost(b, items, c, unfed, p);
    }
  }

  lemma {:induction false} DrainStaysLost(b: string, items: seq<Item>, c: Config, unfed: string, p: Place) returns (p': Place)
    requires GoodItems(b, items) && Lost(b, items, c, unfed, p)
    ensures var (ok, c') := Drain(b, ACCEPT, c); ok ==> Lost(b, items, c', unfed, p')
    decreases |c.buf|, if c.phase == NewEntry then 1 else 0
  {
    p' := p;
    if c.buf != [] {
      p' := TurnStaysLost(b, items, c, unfed, p);
      var t := OneTurn(b, ACCEPT, c);
      if t.GoOn? {
        p' := DrainStaysLost(b, items, t.c, unfed, p');
      }
    }
  }

  lemma {:induction false} FedLost(b: string, items: seq<Item>, c: Config, data: string, rest: string, p: Place)
    requires Lost(b, items, c, data + rest, p)
    ensures Lost(b, items, c.(buf := c.buf + data), rest, p)
  {
    Regroup(c.buf, data, rest);
  }

  /** A run that is lost never tells the callbacks the items that were written. */
  lemma {:induction false} FeedAllStaysLost(b: string, items: seq<Item>, c: Config, chunks: seq<string>, p: Place)
    requires GoodItems(b, items) && Lost(b, items, c, Concat(chunks), p)
    ensures var (ok, c') := FeedAll(b, ACCEPT, c, chunks); ok ==> Assembled(c'.events) != items
    decreases |chunks|
  {
    if chunks == [] {
      LostDiffers(b, items, c, [], p);
    } else {
      var fed, rest := c.(buf := c.buf + chunks[0]), Concat(chunks[1..]);
      FedLost(b, items, c, chunks[0], rest, p);
      var p' := DrainStaysLost(b, items, fed, rest, p);
      var (ok, c') := Drain(b, ACCEPT, fed);
      if ok {
        FeedAllStaysLost(b, items, c', chunks[1..], p');
      }
    }
  }
}
