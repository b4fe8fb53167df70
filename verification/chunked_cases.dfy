/** What the chunked reader refuses, and the numbers it reads. */
module ChunkedCases {
  import opened Sequences
  import opened Strings
  import opened UrlCoding
  import opened Stream
  import opened Chunked
  import opened ChunkedWriter
  import opened ChunkedRoundTrip

  // ----- numbers

  /** The value of hexadecimal digits in either case, the most significant first. */
  function Number(digits: string): int
  {
    if digits == "" then 0
    else Number(digits[..|digits| - 1]) * 16 + DigitOf(digits[|digits| - 1])
  }

  function DigitOf(c: char): int
  {
    if c in "0123456789" then c as int - 48 else if c in "abcdef" then c as int - 87 else c as int - 55
  }

  predicate AllHex(s: string)
  {
    forall i :: 0 <= i < |s| ==> s[i] in "0123456789abcdefABCDEF"
  }

  lemma {:induction false} DigitIs(c: char)
    ensures c in "0123456789abcdefABCDEF" <==> HexDigit(c) >= 0
    ensures HexDigit(c) >= 0 ==> DigitOf(c) == HexDigit(c)
  {
    if '0' <= c <= '9' {
      assert "0123456789abcdefABCDEF"[c as int - 48] == c && "0123456789"[c as int - 48] == c;
    } else if 'a' <= c <= 'f' {
      assert "0123456789abcdefABCDEF"[c as int - 87] == c && "abcdef"[c as int - 97] == c;
    } else if 'A' <= c <= 'F' {
      assert "0123456789abcdefABCDEF"[c as int - 49] == c;
    }
  }

  lemma {:induction false} NumberIs(digits: string)
    requires AllHex(digits)
    ensures IsDigits(digits) && DigitsValue(digits) == Number(digits)
  {
    forall i | 0 <= i < |digits|
      ensures HexDigit(digits[i]) >= 0
    {
      DigitIs(digits[i]);
    }
    if digits != "" {
      DigitIs(digits[|digits| - 1]);
      NumberIs(digits[..|digits| - 1]);
    }
  }

  predicate AllBlank(s: string)
  {
    forall i :: 0 <= i < |s| ==> IsSpace(s[i])
  }

  lemma {:induction false} BlanksSkipped(blanks: string, s: string)
    requires AllBlank(blanks) && (s == "" || !IsSpace(s[0]))
    ensures SkipSpace(blanks + s) == s
  {
    if blanks != "" {
      assert (blanks + s)[1..] == blanks[1..] + s;
      BlanksSkipped(blanks[1..], s);
    } else {
      assert blanks + s == s;
    }
  }

  /** The value of a number in 64 bits: too large ones saturate, and a minus sign turns it round. */
  function InBits(negative: bool, v: nat): int
  {
    if v > 0xffff_ffff_ffff_ffff then 0xffff_ffff_ffff_ffff
    else if negative && v > 0 then 0x1_0000_0000_0000_0000 - v else v
  }

  lemma {:induction false} Unprefixed(digits: string, rest: string)
    requires AllHex(digits) && digits != "" && (rest == "" || HexDigit(rest[0]) < 0)
    ensures digits[0] != '-' && digits[0] != '+' && !IsSpace(digits[0])
    ensures HasHexPrefix(digits + rest) ==> |digits| == 1 && digits == "0"
  {
    NumberIs(digits);
    DigitShape(digits[0]);
    if |digits| > 1 {
      DigitShape(digits[1]);
    }
  }

  lemma {:induction false} DigitsFound(digits: string, rest: string)
    requires AllHex(digits) && digits != "" && (rest == "" || HexDigit(rest[0]) < 0)
    ensures var n := DigitRun(digits + rest); n == |digits| && DigitsValue((digits + rest)[..n]) == Number(digits)
  {
    NumberIs(digits);
    DigitRunIs(digits, rest);
    assert (digits + rest)[..|digits|] == digits;
  }

  /** A number may stand behind blanks, a sign and `0x`, and ends with its last digit. */
  lemma {:induction false} NumberIsRead(blanks: string, sign: string, prefix: string, digits: string, rest: string)
    requires AllBlank(blanks) && (sign == "" || sign == "+" || sign == "-") && (prefix == "" || prefix == "0x" || prefix == "0X")
    requires AllHex(digits) && digits != "" && (rest == "" || rest[0] !in "0123456789abcdefABCDEF")
    requires prefix == "" && digits == "0" ==> !HasHexPrefix(digits + rest)
    ensures Number(digits) >= 0
    ensures StrToUl(blanks + (sign + (prefix + (digits + rest)))) == (true, InBits(sign == "-", Number(digits)))
  {
    var body, t := prefix + (digits + rest), sign + (prefix + (digits + rest));
    if rest != "" { DigitIs(rest[0]); }
    DigitsFound(digits, rest);
    Unprefixed(digits, rest);
    NumberIs(digits);
    Prefixed(prefix, digits, rest);
    Signed(sign, body, t);
    BlanksSkipped(blanks, t);
    Converted(blanks + t, t, sign == "-", body, digits + rest, |digits|, Number(digits));
  }

  lemma {:induction false} Signed(sign: string, body: string, t: string)
    requires (sign == "" || sign == "+" || sign == "-") && t == sign + body
    requires body != "" && body[0] != '-' && body[0] != '+' && !IsSpace(body[0])
    ensures t != [] && !IsSpace(t[0]) && (sign == "-" <==> t[0] == '-')
    ensures body == if t[0] == '-' || t[0] == '+' then t[1..] else t
  {
    if sign == "" {
      assert t == body;
    } else {
      assert t[0] == sign[0] && t[1..] == body;
    }
  }

  /** `strtoul` from one step to the next. */
  lemma {:induction false} Converted(s: string, t: string, negative: bool, body: string, digits: string, n: nat, v: nat)
    requires t == SkipSpace(s) && (negative <==> t != [] && t[0] == '-')
    requires body == if t != [] && (t[0] == '-' || t[0] == '+') then t[1..] else t
    requires digits == if HasHexPrefix(body) then body[2..] else body
    requires n == DigitRun(digits) > 0 && v == DigitsValue(digits[..n])
    ensures StrToUl(s) == (true, InBits(negative, v))
  {
    if v <= ULONG_MAX {
      TurnedRound(v);
    }
  }

  lemma {:induction false} TurnedRound(v: nat)
    requires v <= ULONG_MAX
    ensures (ULONG_MAX + 1 - v) % (ULONG_MAX + 1) == if v == 0 then 0 else 0x1_0000_0000_0000_0000 - v
  {
  }

  lemma {:induction false} Prefixed(prefix: string, digits: string, rest: string)
    requires prefix == "" || prefix == "0x" || prefix == "0X"
    requires digits != "" && HexDigit(digits[0]) >= 0 && digits[0] != '-' && digits[0] != '+' && !IsSpace(digits[0])
    requires prefix == "" ==> !HasHexPrefix(digits + rest)
    ensures var body := prefix + (digits + rest);
            && (if HasHexPrefix(body) then body[2..] else body) == digits + rest
            && body[0] != '-' && body[0] != '+' && !IsSpace(body[0])
  {
    var body := prefix + (digits + rest);
    if prefix == "" {
      assert body == digits + rest;
    } else {
      assert body[0] == '0' && body[1] == prefix[1] && body[2] == digits[0] && body[2..] == digits + rest;
    }
  }

  /** Without a digit behind blanks and sign there is no number. */
  lemma {:induction false} NoNumber(blanks: string, sign: string, rest: string)
    requires AllBlank(blanks) && (sign == "" || sign == "+" || sign == "-")
    requires rest == "" || (rest[0] !in "0123456789abcdefABCDEF" && !IsSpace(rest[0]) && rest[0] != '-' && rest[0] != '+')
    ensures !StrToUl(blanks + (sign + rest)).0
  {
    if rest != "" { DigitIs(rest[0]); }
    BlanksSkipped(blanks, sign + rest);
    if sign == "" {
      assert sign + rest == rest;
    } else {
      assert (sign + rest)[0] == sign[0] && (sign + rest)[1..] == rest;
    }
  }

  // ----- refusals

  lemma {:induction false} OtherLine(tail: string)
    requires |tail| < 2 || tail[..2] != "\r\n"
    ensures CString(LineOf(tail)) != CRLF
  {
    var line := CString(LineOf(tail));
    assert |line| <= |LineOf(tail)| <= |tail|;
    assert |line| >= 2 ==> line[..2] == tail[..2];
    assert CRLF[..2] == "\r\n";
  }

  /** A chunk whose data is not followed by a line end fails, when its data was delivered. */
  lemma {:induction false} ChunkWithoutEnd(size: string, data: string, tail: string, fails: bool, content: string)
    requires '\n' !in size && '\0' !in size && StrToUl(size + CRLF) == (true, |data|) && 0 < |data| < ULONG_MAX
    requires |tail| < 2 || tail[..2] != "\r\n"
    ensures ReadChunks(size + CRLF + (data + tail), fails, content) == Reading(false, content + data, [], BehindLine(tail))
  {
    var all := data + tail;
    LineIs(size, all);
    assert all[..|data|] == data && all[|data|..] == tail;
    OtherLine(tail);
  }

  /** A size line without a number fails before anything is delivered. */
  lemma {:induction false} NoSize(size: string, rest: string, fails: bool, content: string)
    requires '\n' !in size && '\0' !in size && !StrToUl(size + CRLF).0
    ensures ReadChunks(size + CRLF + rest, fails, content) == Reading(false, content, [], rest)
  {
    LineIs(size, rest);
  }

  /** A trailer line of more than 8192 bytes fails. */
  lemma {:induction false} LongTrailerLine(line: string, rest: string, fails: bool, content: string, fields: Fields)
    requires '\n' !in line && '\0' !in line && line != "" && |line| + 2 > 8192
    ensures ReadTrailer(line + CRLF + rest, fails, content, fields) == Reading(false, content, fields, rest)
  {
    LineIs(line, rest);
    assert |line + CRLF| > 2;
  }

  // ----- truncation

  /** The first line of a text, of length `n`, ends `m` bytes before the cut. */
  predicate LineEndsBefore(s: string, n: nat, m: int)
    requires n == LineLength(s)
  {
    m >= 0 && '\n' in s[..n]
  }

  /** A line that ends before the cut is the line of what is left, and otherwise all of that is one line. */
  lemma {:induction false} LineInside(s: string, k: nat, cut: string, n: nat, m: int)
    requires k <= |s| && cut == s[..k] && n == LineLength(s) && m == k - n
    ensures if LineEndsBefore(s, n, m) then LineOf(cut) == LineOf(s) && BehindLine(cut) == BehindLine(s)[..m]
            else LineOf(cut) == cut && BehindLine(cut) == [] && '\n' !in cut
  {
    var i := FirstIndex(s, '\n');
    if i < k {
      assert cut[..i] == s[..i];
      FirstIndexAt(cut, '\n', i);
      assert s[..i + 1][i] == '\n';
    } else {
      assert cut == s[..i][..k];
      NoNewline(cut);
      if i < |s| {
        assert LineLength(s) > k || k == i;
      }
    }
  }

  lemma {:induction false} NoLineEnd(line: string)
    requires '\n' !in line
    ensures CString(line) != CRLF
  {
    var c := CString(line);
    assert forall i :: 0 <= i < |c| ==> c[i] == line[i];
    assert '\n' !in c;
    assert CRLF[1] == '\n';
  }

  lemma {:induction false} TruncatedTrailer(s: string, k: nat, cut: string, fails: bool, cutFails: bool, content: string,
                                            fields: Fields, other: string, otherFields: Fields)
    requires k <= |s| && cut == s[..k]
    requires var r := ReadTrailer(s, fails, content, fields); r.ok && k < |s| - |r.rest|
    ensures !ReadTrailer(cut, cutFails, other, otherFields).ok
    decreases |s|
  {
    var n := LineLength(s);
    var m := k - n;
    LineInside(s, k, cut, n, m);
    if LineEndsBefore(s, n, m) {
      if HasLine(cut, cutFails) && CString(LineOf(s)) != CRLF {
        var field := HeaderField(Stripped(LineOf(s)));
        TruncatedTrailer(BehindLine(s), m, BehindLine(cut), fails, cutFails, content, fields + field, other, otherFields + field);
      }
    } else if HasLine(cut, cutFails) {
      NoLineEnd(cut);
    }
  }

  /** What a reader has found that accepts a text: a last chunk, or a chunk with its line end. */
  lemma {:induction false} AcceptedChunk(s: string, fails: bool, content: string, len: nat, data: string)
    requires ReadChunks(s, fails, content).ok && len == StrToUl(CString(LineOf(s))).1 && data == BehindLine(s)
    ensures s != [] && HasLine(s, fails)
    ensures len == 0 ==> ReadChunks(s, fails, content) == ReadTrailer(data, fails, content, [])
    ensures len > 0 ==> len <= |data| && HasLine(data[len..], fails)
                        && ReadChunks(s, fails, content) == ReadChunks(BehindLine(data[len..]), fails, content + data[..len])
  {
  }

  /** What a reader of another text does behind the same size line. */
  lemma {:induction false} SameSize(cut: string, fails: bool, content: string, len: nat, data: string, tail: string)
    requires data == BehindLine(cut) && StrToUl(CString(LineOf(cut))).1 == len
    requires ReadChunks(cut, fails, content).ok
    ensures len == 0 ==> ReadTrailer(data, fails, content, []).ok
    ensures len > 0 ==> len <= |data|
    ensures len > 0 && tail == data[len..] ==>
      HasLine(tail, fails) && CString(LineOf(tail)) == CRLF && ReadChunks(BehindLine(tail), fails, content + data[..len]).ok
  {
  }

  /** Main result on truncation: when the reader accepts a text, it accepts no part of it that ends
      before the last byte it needed, whether the connection ends there cleanly or not. */
  lemma {:induction false} TruncatedIsRefused(s: string, k: nat, cut: string, fails: bool, cutFails: bool,
                                              content: string, other: string)
    requires k <= |s| && cut == s[..k]
    requires var r := ReadChunks(s, fails, content); r.ok && k < |s| - |r.rest|
    ensures !ReadChunks(cut, cutFails, other).ok
    decreases |s|, 2
  {
    var n, len := LineLength(s), StrToUl(CString(LineOf(s))).1;
    var m := k - n;
    LineInside(s, k, cut, n, m);
    if !LineEndsBefore(s, n, m) {
      CutInSize(cut, cutFails, other);
    } else if len == 0 {
      CutInTrailer(s, k, m, cut, fails, cutFails, content, other);
    } else {
      CutInChunk(s, k, m, len, cut, fails, cutFails, content, other);
    }
  }

  lemma {:induction false} CutInSize(cut: string, cutFails: bool, other: string)
    requires BehindLine(cut) == [] && '\n' !in cut
    ensures !ReadChunks(cut, cutFails, other).ok
  {
    if ReadChunks(cut, cutFails, other).ok {
      SameSize(cut, cutFails, other, StrToUl(CString(LineOf(cut))).1, [], []);
    }
  }

  lemma {:induction false} CutInTrailer(s: string, k: nat, m: nat, cut: string, fails: bool, cutFails: bool,
                                        content: string, other: string)
    requires k <= |s| && cut == s[..k] && m == k - LineLength(s)
    requires LineOf(cut) == LineOf(s) && BehindLine(cut) == BehindLine(s)[..m] && StrToUl(CString(LineOf(s))).1 == 0
    requires var r := ReadChunks(s, fails, content); r.ok && k < |s| - |r.rest|
    ensures !ReadChunks(cut, cutFails, other).ok
  {
    AcceptedChunk(s, fails, content, 0, BehindLine(s));
    TruncatedTrailer(BehindLine(s), m, BehindLine(cut), fails, cutFails, content, [], other, []);
    if ReadChunks(cut, cutFails, other).ok {
      SameSize(cut, cutFails, other, 0, BehindLine(cut), []);
    }
  }

  lemma {:induction false} CutInChunk(s: string, k: nat, m: nat, len: nat, cut: string, fails: bool, cutFails: bool,
                                      content: string, other: string)
    requires k <= |s| && cut == s[..k] && m == k - LineLength(s)
    requires LineOf(cut) == LineOf(s) && BehindLine(cut) == BehindLine(s)[..m] && StrToUl(CString(LineOf(s))).1 == len > 0
    requires var r := ReadChunks(s, fails, content); r.ok && k < |s| - |r.rest|
    ensures !ReadChunks(cut, cutFails, other).ok
    decreases |s|, 1
  {
    var data, cutData := BehindLine(s), BehindLine(cut);
    AcceptedChunk(s, fails, content, len, data);
    if len <= m {
      TruncatedChunk(data[len..], m - len, cutData[len..], fails, cutFails, content + data[..len], other + cutData[..len]);
    }
    if ReadChunks(cut, cutFails, other).ok {
      SameSize(cut, cutFails, other, len, cutData, if len <= m then cutData[len..] else []);
    }
  }

  /** The cut is behind the data of the first chunk. */
  lemma {:induction false} TruncatedChunk(tail: string, j: nat, cut: string, fails: bool, cutFails: bool,
                                          content: string, other: string)
    requires j <= |tail| && cut == tail[..j]
    requires HasLine(tail, fails)
    requires var r := ReadChunks(BehindLine(tail), fails, content); r.ok && j < |tail| - |r.rest|
    ensures !(HasLine(cut, cutFails) && CString(LineOf(cut)) == CRLF && ReadChunks(BehindLine(cut), cutFails, other).ok)
    decreases |tail|, 0
  {
    var n := LineLength(tail);
    var m := j - n;
    LineInside(tail, j, cut, n, m);
    if LineEndsBefore(tail, n, m) {
      TruncatedIsRefused(BehindLine(tail), m, BehindLine(cut), fails, cutFails, content, other);
    } else {
      NoLineEnd(cut);
    }
  }

  // ----- a provider that does not finish

  function TurnsText(turns: seq<Turn>): string
  {
    if turns == [] then "" else CallsText(turns[0].calls) + TurnsText(turns[1..])
  }

  /** Every run wants to go on, and none leaves off with an empty write or is done. */
  predicate GoesOn(turns: seq<Turn>)
  {
    forall i :: 0 <= i < |turns| ==> turns[i].ok && StaysOpen(turns[i].calls)
  }

  predicate StaysOpen(calls: seq<Call>)
  {
    calls == [] || (calls[|calls| - 1].Write? && |calls[|calls| - 1].data| > 0)
  }

  lemma {:induction false} SendOn(turns: seq<Turn>, rest: seq<Turn>, k: nat, isShuttingDown: nat -> bool)
    requires GoesOn(turns) && forall i: nat :: k <= i < k + |turns| ==> !isShuttingDown(i)
    ensures var later := Send(rest, true, k + |turns|, isShuttingDown);
            Send(turns + rest, true, k, isShuttingDown) == later.(text := TurnsText(turns) + later.text)
    decreases |turns|
  {
    if turns == [] {
      assert turns + rest == rest;
      var later := Send(rest, true, k, isShuttingDown);
      assert "" + later.text == later.text;
    } else {
      assert (turns + rest)[0] == turns[0] && (turns + rest)[1..] == turns[1..] + rest;
      SendOn(turns[1..], rest, k + 1, isShuttingDown);
      Regroup(CallsText(turns[0].calls), TurnsText(turns[1..]), Send(rest, true, k + |turns|, isShuttingDown).text);
    }
  }

  /** When the provider refuses, what it wrote up to then has been sent, and the call fails as canceled. */
  lemma {:induction false} ProviderRefuses(turns: seq<Turn>, calls: seq<Call>, rest: seq<Turn>, k: nat,
                                           isShuttingDown: nat -> bool)
    requires GoesOn(turns) && forall i: nat :: k <= i <= k + |turns| ==> !isShuttingDown(i)
    ensures Send(turns + ([Turn(calls, false)] + rest), true, k, isShuttingDown)
         == Sending(TurnsText(turns) + CallsText(calls), false, Canceled)
  {
    SendOn(turns, [Turn(calls, false)] + rest, k, isShuttingDown);
  }

  /** When the server shuts down in between, the call stops there and succeeds. */
  lemma {:induction false} ShutdownStops(turns: seq<Turn>, rest: seq<Turn>, k: nat, isShuttingDown: nat -> bool)
    requires GoesOn(turns) && isShuttingDown(k + |turns|) && forall i: nat :: k <= i < k + |turns| ==> !isShuttingDown(i)
    ensures Send(turns + rest, true, k, isShuttingDown) == Sending(TurnsText(turns), true, Success)
  {
    SendOn(turns, rest, k, isShuttingDown);
    assert TurnsText(turns) + "" == TurnsText(turns);
  }

  /** A provider that never finishes does not succeed. */
  lemma {:induction false} NeverFinished(turns: seq<Turn>, k: nat)
    requires GoesOn(turns)
    ensures Send(turns, true, k, NEVER) == Sending(TurnsText(turns), false, Canceled)
  {
    SendOn(turns, [], k, NEVER);
    assert turns + [] == turns && TurnsText(turns) + "" == TurnsText(turns);
  }
}
