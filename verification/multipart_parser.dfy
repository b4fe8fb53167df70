/** The incremental `multipart/form-data` parser: the class that keeps its state between calls
    of `parse`, proved against a function on values. */
module MultipartParser {
  import opened Strings
  import opened Params
  import opened UrlCoding

  /** What the headers of one entry said. */
  datatype FormData = FormData(name: string, filename: string, contentType: string)

  const NO_FILE := FormData([], [], [])

  /** One call of a callback: a finished header block, or a run of content bytes. */
  datatype Event = Header(file: FormData) | Content(data: string)

  /** The callbacks' answer, given all calls so far with the present one last. */
  type Callbacks = seq<Event> -> bool

  /** The parser's `state_`, 0 to 4. */
  datatype Phase = InitialBoundary | NewEntry | Headers | Body | Boundary

  /** The parser between two calls: fields, unread bytes, and the callback calls made so far. */
  datatype Config = Config(phase: Phase, valid: bool, file: FormData, buf: string, events: seq<Event>)

  const START := Config(InitialBoundary, false, NO_FILE, [], [])

  /** A turn of the machine either goes on or makes `parse` return. */
  datatype Turn = GoOn(c: Config) | Return(ok: bool, c: Config)

  function DashBoundaryCrlf(b: string): string { "--" + b + CRLF }

  function CrlfDashBoundary(b: string): string { CRLF + "--" + b }

  // ----- header lines

  /** The parameter text behind `Content-Disposition: form-data;`, if the line is one. */
  function Disposition(line: string): (r: seq<string>)
    ensures |r| <= 1
  {
    if !StartsWithNoCase(line, "content-disposition:") then []
    else var value := SkipSpace(line[20..]);
      if !StartsWithNoCase(value, "form-data;") then []
      else var text := SkipSpace(value[10..]);
        if '\r' in text || '\n' in text then [] else [text]
  }

  /** The percent-coded text of a `UTF-8''` parameter value. */
  function ExtendedValue(val: string): (r: seq<string>)
    ensures |r| <= 1
  {
    if StartsWithNoCase(val, "utf-8''") && |val| > 7 && '\r' !in val && '\n' !in val then [val[7..]] else []
  }

  function WithDisposition(file: FormData, m: Params): (bool, FormData)
  {
    var n, f, x := FindKey(m, "name"), FindKey(m, "filename"), FindKey(m, "filename*");
    if n == |m| then (false, file)
    else
      var named := file.(name := m[n].1);
      var plain := if f < |m| then named.(filename := m[f].1) else named;
      if x == |m| then (true, plain)
      else
        var text := ExtendedValue(m[x].1);
        if text == [] then (false, plain) else (true, plain.(filename := Decoded(text[0], false)))
  }

  /** What one non-empty header line does to `file_`, and whether the parser accepts it. */
  function HeaderLine(file: FormData, line: string): (bool, FormData)
  {
    if StartsWithNoCase(line, "content-type:") then (true, file.(contentType := Trim(line[13..])))
    else
      var text := Disposition(line);
      if text == [] then (false, file) else WithDisposition(file, Parsed(text[0], ';', Unquoted))
  }

  // ----- the machine

  /** The inner loop of state 2, from a search for the end of the next line on. */
  function HeaderLines(cb: Callbacks, c: Config): Turn
    decreases |c.buf|
  {
    var pos := Find(c.buf, CRLF);
    if pos == |c.buf| then Return(true, c)
    else if pos == 0 then
      var c' := c.(events := c.events + [Header(c.file)]);
      if cb(c'.events) then GoOn(c'.(buf := c.buf[2..], phase := Body))
      else Return(false, c'.(valid := false))
    else
      var (ok, file) := HeaderLine(c.file, c.buf[..pos]);
      if ok then HeaderLines(cb, c.(file := file, buf := c.buf[pos + 2..]))
      else Return(false, c.(file := file, valid := false))
  }

  function Emit(cb: Callbacks, c: Config, n: nat): (bool, Config)
    requires n <= |c.buf|
  {
    var events := c.events + [Content(c.buf[..n])];
    (cb(events), c.(events := events))
  }

  function BodyTurn(b: string, cb: Callbacks, c: Config): Turn
  {
    var delimiter := CrlfDashBoundary(b);
    if |delimiter| > |c.buf| then Return(true, c)
    else
      var pos := Find(c.buf, delimiter);
      if pos < |c.buf| then
        var (ok, c') := Emit(cb, c, pos);
        if ok then GoOn(c'.(buf := c.buf[pos + |delimiter|..], phase := Boundary))
        else Return(false, c'.(valid := false))
      else
        var len := |c.buf| - |delimiter|;
        if len == 0 then Return(true, c)
        else
          var (ok, c') := Emit(cb, c, len);
          if ok then Return(true, c'.(buf := c.buf[len..])) else Return(false, c'.(valid := false))
  }

  function BoundaryTurn(c: Config): Turn
  {
    if 2 > |c.buf| then Return(true, c)
    else if StartsAt(c.buf, 0, CRLF) then GoOn(c.(buf := c.buf[2..], phase := NewEntry))
    else if StartsAt(c.buf, 0, "--") then GoOn(c.(buf := [], valid := true))
    else Return(true, c)
  }

  function InitialTurn(b: string, c: Config): Turn
  {
    var delimiter := DashBoundaryCrlf(b);
    var buf := c.buf[Find(c.buf, delimiter)..];
    if |delimiter| > |buf| then Return(true, c.(buf := buf))
    else GoOn(c.(buf := buf[|delimiter|..], phase := NewEntry))
  }

  function OneTurn(b: string, cb: Callbacks, c: Config): (t: Turn)
    requires c.buf != []
    ensures t.GoOn? && c.phase != NewEntry ==> |t.c.buf| < |c.buf|
    ensures t.GoOn? && c.phase == NewEntry ==> t.c.buf == c.buf && t.c.phase == Headers
  {
    match c.phase
    case InitialBoundary => InitialTurn(b, c)
    case NewEntry => GoOn(c.(file := NO_FILE, phase := Headers))
    case Headers =>
      var pos := Find(c.buf, CRLF);
      HeaderLinesShrink(cb, c);
      if pos > HEADER_MAX_LENGTH then Return(false, c) else HeaderLines(cb, c)
    case Body => BodyTurn(b, cb, c)
    case Boundary => BoundaryTurn(c)
  }

  lemma {:induction false} HeaderLinesShrink(cb: Callbacks, c: Config)
    ensures var t := HeaderLines(cb, c); t.GoOn? ==> |t.c.buf| < |c.buf| && t.c.phase == Body
    decreases |c.buf|
  {
    var pos := Find(c.buf, CRLF);
    if 0 < pos < |c.buf| {
      var (ok, file) := HeaderLine(c.file, c.buf[..pos]);
      HeaderLinesShrink(cb, c.(file := file, buf := c.buf[pos + 2..]));
    }
  }

  /** The `while` loop of `parse`: turns until one returns or the buffer is empty. */
  function Drain(b: string, cb: Callbacks, c: Config): (bool, Config)
    decreases |c.buf|, if c.phase == NewEntry then 1 else 0
  {
    if c.buf == [] then (true, c)
    else match OneTurn(b, cb, c)
      case GoOn(c') => Drain(b, cb, c')
      case Return(ok, c') => (ok, c')
  }

  /** One call of `parse`. */
  function Feed(b: string, cb: Callbacks, c: Config, data: string): (bool, Config)
  {
    Drain(b, cb, c.(buf := c.buf + data))
  }

  /** A series of calls, given up at the first that returns false. */
  function FeedAll(b: string, cb: Callbacks, c: Config, chunks: seq<string>): (bool, Config)
    decreases |chunks|
  {
    if chunks == [] then (true, c)
    else var (ok, c') := Feed(b, cb, c, chunks[0]);
      if ok then FeedAll(b, cb, c', chunks[1..]) else (false, c')
  }

  // ----- the class

  method ParseHeaderLine(file: FormData, line: string) returns (ok: bool, file': FormData)
    ensures (ok, file') == HeaderLine(file, line)
  {
    file' := file;
    if StartsWithNoCase(line, "content-type:") {
      return true, file.(contentType := Trim(line[13..]));
    }
    var text := Disposition(line);
    if text == [] { return false, file; }
    var m := ParseFields(text[0], ';', Unquoted);
    var it := FindKey(m, "name");
    if it == |m| { return false, file; }
    file' := file'.(name := m[it].1);
    it := FindKey(m, "filename");
    if it < |m| { file' := file'.(filename := m[it].1); }
    it := FindKey(m, "filename*");
    if it < |m| {
      var value := ExtendedValue(m[it].1);
      if value == [] { return false, file'; }
      var name := DecodeUrl(value[0], false);
      file' := file'.(filename := name); // override
    }
    return true, file';
  }

  /** Another first character. */
  lemma {:induction false} OtherFirst(text: string, j: nat, s: string)
    requires |s| > 0 && j < |text| && text[j] != s[0]
    ensures !StartsAt(text, j, s)
  {
    if j + |s| <= |text| {
      assert text[j..j + |s|][0] == text[j];
    }
  }

  /** Places in a part of the buffer are places in the buffer. */
  lemma {:induction false} SameText(buf: string, spos: nat, epos: nat, pos: nat, at: nat, s: string)
    requires spos <= pos <= epos <= |buf| && pos == spos + at
    ensures StartsAt(buf[..epos], pos, s) <==> StartsAt(buf[spos..epos], at, s)
  {
    if pos + |s| <= epos {
      assert buf[..epos][pos..pos + |s|] == buf[spos..epos][at..at + |s|];
    }
  }

  lemma {:induction false} FrontOf(buf: string, spos: nat, epos: nat, len: nat)
    requires spos <= spos + len <= epos <= |buf|
    ensures buf[spos..spos + len] == buf[spos..epos][..len]
  {
  }

  /** The parser itself. `buf[spos..epos]` holds the bytes that were received and not yet used. */
  class MultipartFormDataParser {
    const boundary: string
    const dashBoundaryCrlf: string
    const crlfDashBoundary: string
    var phase: Phase
    var isValid: bool
    var file: FormData
    var buf: string
    var spos: nat
    var epos: nat
    /** The calls made to the two callbacks, in order. */
    var events: seq<Event>

    ghost predicate Valid()
      reads this
    {
      && spos <= epos <= |buf|
      && dashBoundaryCrlf == DashBoundaryCrlf(boundary)
      && crlfDashBoundary == CrlfDashBoundary(boundary)
    }

    ghost function Snapshot(): Config
      requires Valid()
      reads this
    {
      Config(phase, isValid, file, buf[spos..epos], events)
    }

    constructor (boundary: string)
      ensures Valid() && Snapshot() == START && this.boundary == boundary
    {
      this.boundary := boundary;
      dashBoundaryCrlf := "--" + boundary + CRLF;
      crlfDashBoundary := CRLF + "--" + boundary;
      phase, isValid, file := InitialBoundary, false, NO_FILE;
      buf, spos, epos := [], 0, 0;
      events := [];
    }

    function BufSize(): nat
      requires Valid()
      reads this
    {
      epos - spos
    }

    /** `start_with` over the buffer, character by character. */
    method StartWith(pos: nat, s: string) returns (yes: bool)
      requires Valid() && pos <= epos
      ensures yes == StartsAt(buf[..epos], pos, s)
    {
      if epos - pos < |s| { return false; }
      for i := 0 to |s|
        invariant forall k :: 0 <= k < i ==> buf[pos + k] == s[k]
      {
        if buf[pos + i] != s[i] {
          assert buf[..epos][pos..pos + |s|][i] == buf[pos + i];
          return false;
        }
      }
      assert buf[..epos][pos..pos + |s|] == s;
      return true;
    }

    /** `buf_find`: look for the first character, then compare. */
    method BufFind(s: string) returns (r: nat)
      requires Valid() && |s| > 0
      ensures r == Find(buf[spos..epos], s)
    {
      ghost var text := buf[spos..epos];
      var off := spos;
      while off < epos
        invariant spos <= off <= epos
        invariant forall j: nat :: spos + j < off ==> !StartsAt(text, j, s)
      {
        var pos := NextChar(off, s[0]);
        forall j: nat | spos + j < pos
          ensures !StartsAt(text, j, s)
        {
          if spos + j >= off {
            assert text[j] == buf[spos + j];
            OtherFirst(text, j, s);
          }
        }
        if pos == epos || |s| > epos - pos {
          FindIs(text, s, |text|);
          return BufSize();
        }
        SameText(buf, spos, epos, pos, pos - spos, s);
        var found := StartWith(pos, s);
        if found {
          FindIs(text, s, pos - spos);
          return pos - spos;
        }
        off := pos + 1;
      }
      FindIs(text, s, |text|);
      return BufSize();
    }

    method NextChar(off: nat, c: char) returns (pos: nat)
      requires Valid() && spos <= off <= epos
      ensures off <= pos <= epos
      ensures forall k :: off <= k < pos ==> buf[k] != c
      ensures pos < epos ==> buf[pos] == c
    {
      pos := off;
      while pos < epos && buf[pos] != c
        invariant off <= pos <= epos
        invariant forall k :: off <= k < pos ==> buf[k] != c
      {
        pos := pos + 1;
      }
    }

    /** `buf_append`: move the unread bytes to the front, then copy the new ones behind them. */
    method BufAppend(data: string)
      requires Valid()
      modifies `buf, `spos, `epos
      ensures Valid() && buf[spos..epos] == old(buf[spos..epos]) + data
    {
      ghost var unread := buf[spos..epos];
      Compact();
      if epos + |data| > |buf| {
        buf := buf + seq(epos + |data| - |buf|, _ => '\0');
      }
      for i := 0 to |data|
        invariant spos == 0 && epos == |unread| && epos + |data| <= |buf|
        invariant buf[..epos + i] == unread + data[..i]
      {
        buf := buf[epos + i := data[i]];
        assert buf[..epos + i + 1] == buf[..epos + i] + [data[i]];
        assert unread + data[..i] + [data[i]] == unread + data[..i + 1];
      }
      epos := epos + |data|;
    }

    method Compact()
      requires Valid()
      modifies `buf, `spos, `epos
      ensures Valid() && spos == 0 && buf[..epos] == old(buf[spos..epos])
    {
      var remaining := BufSize();
      if remaining > 0 && spos > 0 {
        ghost var was := buf;
        var i := 0;
        while i < remaining
          invariant i <= remaining && |buf| == |was| && spos == old(spos) && epos == old(epos)
          invariant forall k :: 0 <= k < i ==> buf[k] == was[spos + k]
          invariant forall k :: i <= k < |buf| ==> buf[k] == was[k]
        {
          buf := buf[i := buf[spos + i]];
          i := i + 1;
        }
      }
      spos := 0;
      epos := remaining;
    }

    method BufErase(n: nat)
      requires Valid() && n <= BufSize()
      modifies `spos
      ensures Valid() && buf[spos..epos] == old(buf[spos..epos])[n..]
    {
      spos := spos + n;
    }

    /** `parse`: one call with the bytes `data`. */
    method Parse(data: string, cb: Callbacks) returns (ok: bool)
      requires Valid()
      modifies this
      ensures Valid() && (ok, Snapshot()) == Feed(boundary, cb, old(Snapshot()), data)
    {
      BufAppend(data);
      ghost var outcome := Drain(boundary, cb, Snapshot());
      while BufSize() > 0
        invariant Valid() && outcome == Drain(boundary, cb, Snapshot())
        decreases BufSize(), if phase == NewEntry then 1 else 0
      {
        var stop: bool;
        stop, ok := RunState(cb);
        if stop { return; }
      }
      return true;
    }

    /** The `switch` over the state. */
    method RunState(cb: Callbacks) returns (stop: bool, ok: bool)
      requires Valid() && BufSize() > 0
      modifies this
      ensures Valid()
      ensures OneTurn(boundary, cb, old(Snapshot())) == if stop then Return(ok, Snapshot()) else GoOn(Snapshot())
    {
      stop, ok := false, true;
      match phase
      case InitialBoundary =>
        stop, ok := ParseInitialBoundary();
      case NewEntry =>
        file := NO_FILE;
        phase := Headers;
      case Headers =>
        var pos := BufFind(CRLF);
        if pos > HEADER_MAX_LENGTH { return true, false; }
        stop, ok := ParseHeaderLines(cb);
      case Body =>
        stop, ok := ParseBody(cb);
      case Boundary =>
        stop := ParseBoundary();
    }

    /** State 0: everything in front of the first delimiter is discarded. */
    method ParseInitialBoundary() returns (stop: bool, ok: bool)
      requires Valid() && phase == InitialBoundary
      modifies `phase, `spos
      ensures Valid()
      ensures InitialTurn(boundary, old(Snapshot())) == if stop then Return(ok, Snapshot()) else GoOn(Snapshot())
    {
      var pos := BufFind(dashBoundaryCrlf);
      BufErase(pos);
      if |dashBoundaryCrlf| > BufSize() { return true, true; }
      var starts := StartWith(spos, dashBoundaryCrlf);
      assert starts by {
        assert buf[..epos][spos..spos + |dashBoundaryCrlf|] == buf[spos..epos][..|dashBoundaryCrlf|];
      }
      if !starts { return true, false; }
      BufErase(|dashBoundaryCrlf|);
      phase := NewEntry;
      return false, true;
    }

    /** State 4: a delimiter is followed by another entry or by the closing dashes. */
    method ParseBoundary() returns (stop: bool)
      requires Valid() && phase == Boundary
      modifies `phase, `isValid, `spos
      ensures Valid()
      ensures BoundaryTurn(old(Snapshot())) == if stop then Return(true, Snapshot()) else GoOn(Snapshot())
    {
      if 2 > BufSize() { return true; }
      assert buf[..epos][spos..spos + 2] == buf[spos..epos][0..2];
      var crlf := StartWith(spos, CRLF);
      if crlf {
        BufErase(2);
        phase := NewEntry;
        return false;
      }
      var dash := StartWith(spos, "--");
      if dash {
        BufErase(2);
        isValid := true;
        BufErase(BufSize()); // the epilogue
        return false;
      }
      return true;
    }

    /** State 2: the loop over complete header lines. */
    method ParseHeaderLines(cb: Callbacks) returns (stop: bool, ok: bool)
      requires Valid() && phase == Headers
      modifies `phase, `isValid, `file, `spos, `events
      ensures Valid()
      ensures HeaderLines(cb, old(Snapshot())) == if stop then Return(ok, Snapshot()) else GoOn(Snapshot())
    {
      ghost var turn := HeaderLines(cb, Snapshot());
      var pos := BufFind(CRLF);
      while pos < BufSize()
        invariant Valid() && phase == Headers
        invariant pos == Find(buf[spos..epos], CRLF)
        invariant turn == HeaderLines(cb, Snapshot())
        decreases BufSize()
      {
        ok := ParseOneLine(pos, cb);
        if !ok || phase == Body { return !ok, ok; }
        pos := BufFind(CRLF);
      }
      return true, true;
    }

    /** One complete line: the blank one ends the headers, any other is read into `file_`. */
    method ParseOneLine(pos: nat, cb: Callbacks) returns (ok: bool)
      requires Valid() && phase == Headers
      requires pos == Find(buf[spos..epos], CRLF) < BufSize()
      modifies `phase, `isValid, `file, `spos, `events
      ensures Valid() && (phase == Body || phase == Headers)
      ensures !ok ==> HeaderLines(cb, old(Snapshot())) == Return(false, Snapshot())
      ensures ok && phase == Body ==> HeaderLines(cb, old(Snapshot())) == GoOn(Snapshot())
      ensures ok && phase == Headers ==>
                HeaderLines(cb, old(Snapshot())) == HeaderLines(cb, Snapshot()) && BufSize() < old(BufSize())
    {
      if pos == 0 {
        ok := ParseBlankLine(cb);
        return;
      }
      var header := buf[spos..spos + pos];
      assert header == buf[spos..epos][..pos];
      var file': FormData;
      ok, file' := ParseHeaderLine(file, header);
      file := file';
      if !ok {
        isValid := false;
        return;
      }
      BufErase(pos + 2);
    }

    method ParseBlankLine(cb: Callbacks) returns (ok: bool)
      requires Valid() && BufSize() >= 2
      modifies `phase, `isValid, `spos, `events
      ensures Valid()
      ensures var c := old(Snapshot()); var c' := c.(events := c.events + [Header(c.file)]);
              ok == cb(c'.events) && Snapshot() == if ok then c'.(buf := c.buf[2..], phase := Body) else c'.(valid := false)
    {
      events := events + [Header(file)];
      ok := cb(events);
      if !ok {
        isValid := false;
        return;
      }
      BufErase(2);
      phase := Body;
    }

    /** The content callback. */
    method HandOut(len: nat, cb: Callbacks) returns (ok: bool)
      requires Valid() && len <= BufSize()
      modifies `events, `isValid
      ensures Valid()
      ensures var (yes, c) := Emit(cb, old(Snapshot()), len);
              ok == yes && Snapshot() == if ok then c else c.(valid := false)
    {
      FrontOf(buf, spos, epos, len);
      events := events + [Content(buf[spos..spos + len])];
      ok := cb(events);
      if !ok { isValid := false; }
    }

    /** State 3: hand out content up to the next delimiter, or all that cannot be part of one. */
    method ParseBody(cb: Callbacks) returns (stop: bool, ok: bool)
      requires Valid() && phase == Body
      modifies `phase, `isValid, `spos, `events
      ensures Valid()
      ensures BodyTurn(boundary, cb, old(Snapshot())) == if stop then Return(ok, Snapshot()) else GoOn(Snapshot())
    {
      if |crlfDashBoundary| > BufSize() { return true, true; }
      var pos := BufFind(crlfDashBoundary);
      var found := pos < BufSize();
      var len := if found then pos else BufSize() - |crlfDashBoundary|;
      if found || len > 0 {
        var accepted := HandOut(len, cb);
        if !accepted { return true, false; }
        BufErase(if found then len + |crlfDashBoundary| else len);
      }
      if found {
        phase := Boundary;
        return false, true;
      }
      return true, true;
    }
  }
}
