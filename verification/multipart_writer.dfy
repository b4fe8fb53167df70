/** The writer of a multipart body, and what the parser reads off its header lines. */
module MultipartWriter {
  import opened Sequences
  import opened Strings
  import opened Params
  import opened MultipartParser

  datatype Item = Item(name: string, content: string, filename: string, contentType: string)

  // ----- the writer

  const DISPOSITION: string := "Content-Disposition: form-data; "
  const CONTENT_TYPE: string := "Content-Type: "

  /** The header lines of one item, without their line ends. */
  function Lines(item: Item): seq<string>
  {
    [DispositionLine(item)] + if item.contentType == [] then [] else [CONTENT_TYPE + item.contentType]
  }

  function DispositionLine(item: Item): string
  {
    DISPOSITION + DispositionText(item)
  }

  function DispositionText(item: Item): string
  {
    if item.filename == [] then NameField(item.name)
    else NameField(item.name) + "; " + FilenameField(item.filename)
  }

  function NameField(name: string): string { "name=" + Quoted(name) }

  function FilenameField(filename: string): string { "filename=" + Quoted(filename) }

  function Quoted(s: string): string { "\"" + s + "\"" }

  function Joined(lines: seq<string>): string
  {
    if lines == [] then [] else lines[0] + CRLF + Joined(lines[1..])
  }

  /** `serialize_multipart_formdata_item_begin` */
  method SerializeItemBegin(item: Item, b: string) returns (body: string)
    ensures body == ItemBegin(item, b)
  {
    body := DashBoundaryCrlf(b);
    var line := SerializeDisposition(item);
    body := body + line + CRLF;
    if item.contentType != [] {
      body := body + (CONTENT_TYPE + item.contentType) + CRLF;
    }
    JoinedLines(DashBoundaryCrlf(b), line, item.contentType);
    body := body + CRLF;
  }

  method SerializeDisposition(item: Item) returns (line: string)
    ensures line == DispositionLine(item)
  {
    line := DISPOSITION + NameField(item.name);
    if item.filename != [] {
      line := line + "; " + FilenameField(item.filename);
      Regroup(DISPOSITION, NameField(item.name) + "; ", FilenameField(item.filename));
      Regroup(DISPOSITION, NameField(item.name), "; ");
    }
  }

  function ItemBegin(item: Item, b: string): string
  {
    DashBoundaryCrlf(b) + Joined(Lines(item)) + CRLF
  }

  lemma {:induction false} JoinedLines(head: string, line: string, contentType: string)
    ensures head + Joined([line] + []) == head + line + CRLF
    ensures head + Joined([line] + [CONTENT_TYPE + contentType])
         == head + line + CRLF + (CONTENT_TYPE + contentType) + CRLF
  {
    var t := CONTENT_TYPE + contentType;
    assert [t][1..] == [] && ([line] + [t])[1..] == [t] && ([line] + [])[1..] == [];
    assert Joined([t]) == t + CRLF;
    assert Joined([line] + [t]) == line + CRLF + (t + CRLF);
    Regroup(head, line + CRLF, t + CRLF);
    Regroup(head, line, CRLF);
    Regroup(head + line + CRLF, t, CRLF);
  }

  /** `serialize_multipart_formdata` */
  function Serialized(items: seq<Item>, b: string, finish: bool): string
  {
    if items == [] then if finish then Finish(b) else []
    else ItemBegin(items[0], b) + (items[0].content + CRLF) + Serialized(items[1..], b, finish)
  }

  function Finish(b: string): string { "--" + b + "--" + CRLF }

  method SerializeMultipartFormdata(items: seq<Item>, b: string, finish: bool) returns (body: string)
    ensures body == Serialized(items, b, finish)
  {
    body := [];
    assert items[0..] == items;
    for i := 0 to |items|
      invariant SerializedSoFar(items, b, finish, i, body)
    {
      SerializedGrows(items, b, finish, i, body);
      var begin := SerializeItemBegin(items[i], b);
      body := body + begin;
      body := body + (items[i].content + CRLF);
    }
    if finish {
      body := body + Finish(b);
    }
  }

  ghost predicate SerializedSoFar(items: seq<Item>, b: string, finish: bool, i: nat, body: string)
  {
    i <= |items| && Serialized(items, b, finish) == body + Serialized(items[i..], b, finish)
  }

  lemma {:induction false} SerializedGrows(items: seq<Item>, b: string, finish: bool, i: nat, body: string)
    requires i < |items| && SerializedSoFar(items, b, finish, i, body)
    ensures SerializedSoFar(items, b, finish, i + 1, body + ItemBegin(items[i], b) + (items[i].content + CRLF))
  {
    assert items[i..][1..] == items[i + 1..];
    var x, y, z := ItemBegin(items[i], b), items[i].content + CRLF, Serialized(items[i + 1..], b, finish);
    Regroup(body, x + y, z);
    Regroup(body, x, y);
  }

  // ----- the same text as the parser meets it

  /** The bytes from the first header line of `todo[0]` on. */
  function EntryText(b: string, todo: seq<Item>): string
    requires todo != []
    decreases |todo|, 0
  {
    Joined(Lines(todo[0])) + (CRLF + BodyText(b, todo[0].content, todo[1..]))
  }

  function BodyText(b: string, content: string, rest: seq<Item>): string
    decreases |rest|, 2
  {
    content + CrlfDashBoundary(b) + After(b, rest)
  }

  function After(b: string, rest: seq<Item>): string
    decreases |rest|, 1
  {
    if rest == [] then "--" + CRLF else CRLF + EntryText(b, rest)
  }

  lemma {:induction false} SerializedIsEntries(b: string, items: seq<Item>)
    requires items != []
    ensures Serialized(items, b, true) == DashBoundaryCrlf(b) + EntryText(b, items)
    decreases |items|
  {
    var item, rest := items[0], items[1..];
    if rest != [] {
      SerializedIsEntries(b, rest);
    }
    Boundaries(b);
    var lines, tail := DashBoundaryCrlf(b) + Joined(Lines(item)) + CRLF, Serialized(rest, b, true);
    Regroup(lines, item.content + CRLF, tail);
    Regroup(item.content, CRLF, tail);
    Regroup(item.content, CrlfDashBoundary(b), After(b, rest));
    Regroup(DashBoundaryCrlf(b) + Joined(Lines(item)), CRLF, BodyText(b, item.content, rest));
    Regroup(DashBoundaryCrlf(b), Joined(Lines(item)), CRLF + BodyText(b, item.content, rest));
  }

  /** The line end behind a content belongs to the delimiter that follows it. */
  lemma {:induction false} Boundaries(b: string)
    ensures CRLF + Finish(b) == CrlfDashBoundary(b) + ("--" + CRLF)
    ensures forall t: string :: CRLF + (DashBoundaryCrlf(b) + t) == CrlfDashBoundary(b) + (CRLF + t)
  {
  }

  // ----- what the callbacks were told

  function FileOf(item: Item): FormData
  {
    FormData(item.name, item.filename, item.contentType)
  }

  function Extended(items: seq<Item>, e: Event): seq<Item>
  {
    match e
    case Header(f) => items + [Item(f.name, [], f.filename, f.contentType)]
    case Content(d) =>
      if items == [] then [] else
        var last := items[|items| - 1];
        items[..|items| - 1] + [last.(content := last.content + d)]
  }

  /** The receiver's list: a header opens an item, content is appended to the last one. */
  function Assembled(events: seq<Event>): seq<Item>
  {
    if events == [] then []
    else Extended(Assembled(events[..|events| - 1]), events[|events| - 1])
  }

  lemma {:induction false} AssembledMore(events: seq<Event>, e: Event)
    ensures Assembled(events + [e]) == Extended(Assembled(events), e)
  {
    assert (events + [e])[..|events|] == events;
  }

  // ----- items that survive

  predicate PlainValue(s: string)
  {
    ';' !in s && '=' !in s && '\r' !in s && '\n' !in s
  }

  ghost predicate GoodItem(b: string, item: Item)
  {
    && PlainValue(item.name) && PlainValue(item.filename)
    && Trimmed(item.contentType) && !Contains(item.contentType, CRLF)
    && !Contains(item.content, CrlfDashBoundary(b))
    && |DispositionLine(item)| < HEADER_MAX_LENGTH
    && |item.contentType| + 14 < HEADER_MAX_LENGTH
  }

  ghost predicate GoodItems(b: string, items: seq<Item>)
  {
    '\r' !in b && forall i :: 0 <= i < |items| ==> GoodItem(b, items[i])
  }

  // ----- reading one header line

  const FORM_DATA: string := "form-data; "

  lemma {:induction false} DispositionHead(text: string)
    ensures !StartsWithNoCase(DISPOSITION + text, "content-type:")
    ensures StartsWithNoCase(DISPOSITION + text, "content-disposition:")
    ensures (DISPOSITION + text)[20..] == " " + (FORM_DATA + text)
  {
    var s, t := DISPOSITION + text, "content-disposition:";
    assert s[8] == 'D';
    assert "content-type:"[8] == 't';
    forall i | 0 <= i < |t|
      ensures ToLower(s[i]) == ToLower(t[i])
    {
      assert s[i] == "Content-Disposition:"[i];
    }
    assert DISPOSITION[20..] == " " + FORM_DATA;
    assert s[20..] == DISPOSITION[20..] + text;
    Regroup(" ", FORM_DATA, text);
  }

  lemma {:induction false} FormDataHead(text: string)
    ensures StartsWithNoCase(FORM_DATA + text, "form-data;")
    ensures (FORM_DATA + text)[10..] == " " + text
  {
    var value := FORM_DATA + text;
    forall i | 0 <= i < 10
      ensures ToLower(value[i]) == ToLower("form-data;"[i])
    {
      assert value[i] == "form-data;"[i];
    }
    assert FORM_DATA[10..] == " ";
    assert value[10..] == FORM_DATA[10..] + text;
  }

  lemma {:induction false} SkipOneSpace(text: string)
    requires text != [] && !IsSpace(text[0])
    ensures SkipSpace(" " + text) == text
  {
    assert (" " + text)[1..] == text;
  }

  lemma {:induction false} DispositionPrefix(text: string)
    requires text != [] && !IsSpace(text[0]) && '\r' !in text && '\n' !in text
    ensures !StartsWithNoCase(DISPOSITION + text, "content-type:")
    ensures Disposition(DISPOSITION + text) == [text]
  {
    DispositionHead(text);
    FormDataHead(text);
    assert (FORM_DATA + text)[0] == 'f';
    SkipOneSpace(FORM_DATA + text);
    SkipOneSpace(text);
  }

  lemma {:induction false} QuotedField(key: string, val: string)
    requires key != [] && Trimmed(key) && '=' !in key && ';' !in key && PlainValue(val)
    ensures var kv := key + "=" + Quoted(val);
            && KeyValue(kv) == (key, Quoted(val)) && Unquoted(Quoted(val)) == val
            && Piece(kv) == [kv] == Piece([' '] + kv) && ';' !in kv
  {
    KeyValueOf(key, Quoted(val));
    TrimOfTrimmed(key + "=" + Quoted(val));
  }

  lemma {:induction false} NameFieldReads(name: string)
    requires PlainValue(name)
    ensures var kv := NameField(name);
            && Piece(kv) == [kv] && ';' !in kv && Entered([], kv, Unquoted) == [("name", name)]
  {
    QuotedField("name", name);
    assert Unquoted("name") == "name";
    assert NameField(name) == "name" + "=" + Quoted(name);
  }

  lemma {:induction false} FilenameFieldReads(filename: string, name: string)
    requires PlainValue(filename)
    ensures var kv := FilenameField(filename);
            && Piece([' '] + kv) == [kv] && ';' !in kv
            && Entered([("name", name)], kv, Unquoted) == [("filename", filename), ("name", name)]
  {
    QuotedField("filename", filename);
    assert Unquoted("filename") == "filename";
    FilenameFieldText(filename);
    EmplaceBefore("filename", filename, "name", name);
  }

  lemma {:induction false} FilenameFieldText(filename: string)
    ensures FilenameField(filename) == "filename" + "=" + Quoted(filename)
  {
    assert "filename=" == "filename" + "=";
  }

  lemma {:induction false} EmplaceBefore(key: string, val: string, other: string, otherVal: string)
    requires key != [] && other != [] && key[0] < other[0]
    ensures Emplace([(other, otherVal)], key, val) == [(key, val), (other, otherVal)]
  {
  }

  lemma {:induction false} ParseDispositionText(item: Item)
    requires PlainValue(item.name) && PlainValue(item.filename)
    ensures Parsed(DispositionText(item), ';', Unquoted)
         == (if item.filename == [] then [] else [("filename", item.filename)]) + [("name", item.name)]
  {
    var text, f1, f2 := DispositionText(item), NameField(item.name), FilenameField(item.filename);
    NameFieldReads(item.name);
    if item.filename == [] {
      PiecesNone(f1, ';');
      assert [f1][1..] == [] && [] + [("name", item.name)] == [("name", item.name)];
      assert Collected([], {}, [f1], Unquoted) == Collected(Entered([], f1, Unquoted), {} + {f1}, [], Unquoted);
    } else {
      FilenameFieldReads(item.filename, item.name);
      assert text == f1 + [';'] + ([' '] + f2);
      PiecesSplice(f1, ';', [' '] + f2);
      PiecesNone([' '] + f2, ';');
      CollectTwo(f1, f2);
      assert f1[0] == 'n' && f2[0] == 'f';
    }
  }

  lemma {:induction false} CollectTwo(f1: string, f2: string)
    requires f1 != f2
    ensures Collected([], {}, [f1] + [f2], Unquoted) == Entered(Entered([], f1, Unquoted), f2, Unquoted)
  {
    var m := Entered([], f1, Unquoted);
    assert ([f1] + [f2])[1..] == [f2] && [f2][1..] == [];
    assert Collected(m, {} + {f1}, [f2], Unquoted) == Collected(Entered(m, f2, Unquoted), {} + {f1} + {f2}, [], Unquoted);
  }

  /** The disposition line of a written item names exactly its name and file name. */
  lemma {:induction false} ReadDisposition(item: Item)
    requires PlainValue(item.name) && PlainValue(item.filename)
    ensures HeaderLine(NO_FILE, DispositionLine(item)) == (true, FormData(item.name, item.filename, []))
  {
    var text := DispositionText(item);
    assert text[0] == 'n';
    DispositionPrefix(text);
    ParseDispositionText(item);
    TwoParams(item.name, item.filename);
  }

  lemma {:induction false} TwoParams(name: string, filename: string)
    ensures WithDisposition(NO_FILE, [] + [("name", name)]) == (true, FormData(name, [], []))
    ensures WithDisposition(NO_FILE, [("filename", filename)] + [("name", name)]) == (true, FormData(name, filename, []))
  {
    var one: Params := [("name", name)];
    assert [] + one == one && one[1..] == [];
    FoundAt(one, "name", 0);
    NotFound(one, "filename");
    NotFound(one, "filename*");
    var two: Params := [("filename", filename)] + one;
    assert two[1..] == one;
    FoundAt(two, "name", 1);
    FoundAt(two, "filename", 0);
    NotFound(two, "filename*");
  }

  lemma {:induction false} FoundAt(m: Params, key: string, r: nat)
    requires r < |m| && m[r].0 == key && forall i :: 0 <= i < r ==> m[i].0 != key
    ensures FindKey(m, key) == r
  {
    if r > 0 {
      FoundAt(m[1..], key, r - 1);
    }
  }

  lemma {:induction false} NotFound(m: Params, key: string)
    requires forall i :: 0 <= i < |m| ==> m[i].0 != key
    ensures FindKey(m, key) == |m|
  {
  }

  lemma {:induction false} ReadContentType(file: FormData, contentType: string)
    requires Trimmed(contentType)
    ensures HeaderLine(file, CONTENT_TYPE + contentType) == (true, file.(contentType := contentType))
  {
    var s := CONTENT_TYPE + contentType;
    forall i | 0 <= i < 13
      ensures ToLower(s[i]) == ToLower("content-type:"[i])
    {
      assert s[i] == "Content-Type:"[i];
    }
    assert s[13..] == [' '] + contentType;
    TrimOfTrimmed(contentType);
  }

  /** All lines, read one after the other. */
  function ReadLines(file: FormData, lines: seq<string>): (bool, FormData)
    decreases |lines|
  {
    if lines == [] then (true, file)
    else var (ok, file') := HeaderLine(file, lines[0]);
      if ok then ReadLines(file', lines[1..]) else (false, file')
  }

  ghost predicate GoodLine(line: string)
  {
    line != [] && !Contains(line, CRLF) && |line| < HEADER_MAX_LENGTH
  }

  ghost predicate GoodLines(lines: seq<string>)
  {
    forall i :: 0 <= i < |lines| ==> GoodLine(lines[i])
  }

  lemma {:induction false} AbsentPrefix(p: string, s: string, t: string)
    requires |t| > 0 && t[0] !in p && !Contains(s, t)
    ensures !Contains(p + s, t)
  {
    forall i: nat
      ensures !StartsAt(p + s, i, t)
    {
      if i < |p| && i + |t| <= |p + s| {
        assert (p + s)[i..i + |t|][0] == p[i];
      } else if i + |t| <= |p + s| {
        assert !StartsAt(s, i - |p|, t);
        assert (p + s)[i..i + |t|] == s[i - |p|..i - |p| + |t|];
      }
    }
  }

  lemma {:induction false} GoodDispositionLine(item: Item)
    requires PlainValue(item.name) && PlainValue(item.filename)
    ensures !Contains(DispositionLine(item), CRLF) && DispositionLine(item) != []
  {
    assert '\r' !in NameField(item.name) && '\r' !in FilenameField(item.filename);
    assert '\r' !in DispositionText(item);
    assert '\r' !in DISPOSITION;
    AbsentCharacter(DispositionLine(item), CRLF);
  }

  lemma {:induction false} GoodItemLines(b: string, item: Item)
    requires GoodItem(b, item)
    ensures GoodLines(Lines(item))
  {
    GoodDispositionLine(item);
    assert '\r' !in CONTENT_TYPE;
    AbsentPrefix(CONTENT_TYPE, item.contentType, CRLF);
    assert GoodLine(DispositionLine(item)) && GoodLine(CONTENT_TYPE + item.contentType);
  }

  lemma {:induction false} ReadItemLines(b: string, item: Item)
    requires GoodItem(b, item)
    ensures ReadLines(NO_FILE, Lines(item)) == (true, FileOf(item))
  {
    ReadDisposition(item);
    var file := FormData(item.name, item.filename, []);
    ReadContentType(file, item.contentType);
    ReadTwoLines(DispositionLine(item), CONTENT_TYPE + item.contentType);
  }

  lemma {:induction false} ReadTwoLines(l1: string, l2: string)
    ensures ReadLines(NO_FILE, [l1] + []) == HeaderLine(NO_FILE, l1)
    ensures var (ok, file) := HeaderLine(NO_FILE, l1);
            ok ==> ReadLines(NO_FILE, [l1] + [l2]) == HeaderLine(file, l2)
  {
    assert ([l1] + [l2])[1..] == [l2] && [l2][1..] == [] && ([l1] + [])[1..] == [];
    var (ok, file) := HeaderLine(NO_FILE, l1);
    assert ReadLines(file, [l2]) == HeaderLine(file, l2);
  }
}
