/** Everything that percent-coded text may hold, and what it is decoded to. */
module UrlCases {
  import opened Strings
  import opened UrlCoding

  /** A piece of text: a plain character, a plus sign, `%` with two digits, `%u` with four, or a
      percent sign that begins neither. */
  datatype Token = Char(c: char) | Plus | Escape(n: nat, digits: string) | Point(n: nat, digits: string) | Percent

  /** The character is the hexadecimal digit `d`, in either case. */
  predicate Writes(c: char, d: int)
  {
    0 <= d < 16 && (c == "0123456789ABCDEF"[d] || c == "0123456789abcdef"[d])
  }

  predicate IsHex(c: char)
  {
    c in "0123456789abcdefABCDEF"
  }

  function Text(tokens: seq<Token>): string
  {
    if tokens == [] then "" else TokenText(tokens[0]) + Text(tokens[1..])
  }

  function TokenText(t: Token): string
  {
    match t
    case Char(c) => [c]
    case Plus => "+"
    case Escape(_, digits) => "%" + digits
    case Point(_, digits) => "%u" + digits
    case Percent => "%"
  }

  /** No escape goes on behind the percent sign. */
  predicate NoEscape(rest: string)
  {
    && !(|rest| >= 2 && IsHex(rest[0]) && IsHex(rest[1]))
    && !(|rest| >= 5 && rest[0] == 'u' && IsHex(rest[1]) && IsHex(rest[2]) && IsHex(rest[3]) && IsHex(rest[4]))
  }

  predicate TokenFits(t: Token, rest: string)
  {
    match t
    case Char(c) => c != '%' && c != '+'
    case Plus => true
    case Escape(n, s) => n < 256 && |s| == 2 && Writes(s[0], n / 16) && Writes(s[1], n % 16)
    case Point(n, s) =>
      && n < 65536 && |s| == 4
      && Writes(s[0], n / 4096) && Writes(s[1], n / 256 % 16) && Writes(s[2], n / 16 % 16) && Writes(s[3], n % 16)
    case Percent => NoEscape(rest)
  }

  predicate TokensFit(tokens: seq<Token>)
  {
    tokens != [] ==> TokenFits(tokens[0], Text(tokens[1..])) && TokensFit(tokens[1..])
  }

  /** The text `s` is the UTF-8 form of a code point, as section 3 of RFC 3629 defines it: as few
      bytes as hold it, and none for a surrogate. */
  predicate IsUtf8(code: nat, s: string)
  {
    if code < 0x80 then |s| == 1 && s[0] as int == code
    else if code < 0x800 then |s| == 2 && Lead(s[0], 0xC0, 0x20) && Follow(s[1])
                              && code == (s[0] as int - 0xC0) * 64 + (s[1] as int - 0x80)
    else if 0xD800 <= code <= 0xDFFF then s == ""
    else if code < 0x10000 then
      && |s| == 3 && Lead(s[0], 0xE0, 0x10) && Follow(s[1]) && Follow(s[2])
      && code == (s[0] as int - 0xE0) * 4096 + (s[1] as int - 0x80) * 64 + (s[2] as int - 0x80)
    else if code < 0x110000 then
      && |s| == 4 && Lead(s[0], 0xF0, 0x08) && Follow(s[1]) && Follow(s[2]) && Follow(s[3])
      && code == (s[0] as int - 0xF0) * 262144 + (s[1] as int - 0x80) * 4096 + (s[2] as int - 0x80) * 64 + (s[3] as int - 0x80)
    else s == ""
  }

  predicate Lead(c: char, from: int, count: int) { from <= c as int < from + count }

  predicate Follow(c: char) { 0x80 <= c as int < 0xC0 }

  /** A byte made of a mark and some bits. */
  lemma {:induction false} MarkedByte(mark: nat, bits: nat)
    requires mark + bits < 256
    ensures Byte(mark + bits) as int == mark + bits
  {
  }

  lemma {:induction false} SixBits(code: nat)
    ensures code / 64 == code / 4096 * 64 + code / 64 % 64
    ensures code / 4096 == code / 262144 * 64 + code / 4096 % 64
    ensures code == code / 64 * 64 + code % 64
  {
  }

  lemma {:induction false} Utf8Two(code: nat)
    requires 0x80 <= code < 0x800
    ensures IsUtf8(code, Utf8(code))
  {
    MarkedByte(0xC0, code / 64 % 32);
    MarkedByte(0x80, code % 64);
  }

  lemma {:induction false} Utf8Three(code: nat)
    requires 0x800 <= code < 0x10000 && !(0xD800 <= code < 0xE000)
    ensures IsUtf8(code, Utf8(code))
  {
    SixBits(code);
    MarkedByte(0xE0, code / 4096 % 16);
    MarkedByte(0x80, code / 64 % 64);
    MarkedByte(0x80, code % 64);
  }

  lemma {:induction false} Utf8Four(code: nat)
    requires 0x10000 <= code < 0x110000
    ensures IsUtf8(code, Utf8(code))
  {
    SixBits(code);
    MarkedByte(0xF0, code / 262144 % 8);
    MarkedByte(0x80, code / 4096 % 64);
    MarkedByte(0x80, code / 64 % 64);
    MarkedByte(0x80, code % 64);
  }

  lemma {:induction false} Utf8Is(code: nat)
    ensures IsUtf8(code, Utf8(code))
  {
    if 0x80 <= code < 0x800 {
      Utf8Two(code);
    } else if 0x800 <= code < 0x10000 && !(0xD800 <= code < 0xE000) {
      Utf8Three(code);
    } else if 0x10000 <= code < 0x110000 {
      Utf8Four(code);
    }
  }

  /** What the text means. */
  ghost predicate Means(tokens: seq<Token>, plusIsSpace: bool, s: string)
  {
    if tokens == [] then s == ""
    else exists head, tail :: s == head + tail && TokenMeans(tokens[0], plusIsSpace, head) && Means(tokens[1..], plusIsSpace, tail)
  }

  predicate TokenMeans(t: Token, plusIsSpace: bool, s: string)
  {
    match t
    case Char(c) => s == [c]
    case Plus => s == if plusIsSpace then " " else "+"
    case Escape(n, _) => |s| == 1 && s[0] as int == n
    case Point(n, _) => IsUtf8(n, s)
    case Percent => s == "%"
  }

  lemma {:induction false} DigitIs(c: char, d: int)
    requires Writes(c, d)
    ensures HexDigit(c) == d && c != 'u'
  {
  }

  lemma {:induction false} HexOnly(c: char)
    ensures HexDigit(c) >= 0 <==> IsHex(c)
    ensures IsHex(c) ==> c != 'u'
  {
    if HexDigit(c) >= 0 {
      if c <= '9' {
        assert "0123456789abcdefABCDEF"[c as int - '0' as int] == c;
      } else if c <= 'F' {
        assert "0123456789abcdefABCDEF"[c as int - 'A' as int + 16] == c;
      } else {
        assert "0123456789abcdefABCDEF"[c as int - 'a' as int + 10] == c;
      }
    }
  }

  lemma {:induction false} TwoHex(s: string, i: nat)
    ensures HexValue(s, i, 2, 0)
         == if i + 1 < |s| && HexDigit(s[i]) >= 0 && HexDigit(s[i + 1]) >= 0 then HexDigit(s[i]) * 16 + HexDigit(s[i + 1]) else -1
  {
    if i < |s| && HexDigit(s[i]) >= 0 {
      var v := HexDigit(s[i]);
      assert HexValue(s, i, 2, 0) == HexValue(s, i + 1, 1, v);
      if i + 1 < |s| && HexDigit(s[i + 1]) >= 0 {
        assert HexValue(s, i + 1, 1, v) == HexValue(s, i + 2, 0, v * 16 + HexDigit(s[i + 1]));
      }
    }
  }

  lemma {:induction false} FourHex(s: string, i: nat)
    ensures HexValue(s, i, 4, 0)
         == if i + 3 < |s| && HexDigit(s[i]) >= 0 && HexDigit(s[i + 1]) >= 0 && HexDigit(s[i + 2]) >= 0 && HexDigit(s[i + 3]) >= 0
            then ((HexDigit(s[i]) * 16 + HexDigit(s[i + 1])) * 16 + HexDigit(s[i + 2])) * 16 + HexDigit(s[i + 3]) else -1
  {
    if i + 3 < |s| && HexDigit(s[i]) >= 0 && HexDigit(s[i + 1]) >= 0 {
      var v := HexDigit(s[i]);
      var w := v * 16 + HexDigit(s[i + 1]);
      assert HexValue(s, i, 4, 0) == HexValue(s, i + 1, 3, v) == HexValue(s, i + 2, 2, w);
      if HexDigit(s[i + 2]) >= 0 {
        var x := w * 16 + HexDigit(s[i + 2]);
        assert HexValue(s, i + 2, 2, w) == HexValue(s, i + 3, 1, x);
        if HexDigit(s[i + 3]) >= 0 {
          assert HexValue(s, i + 3, 1, x) == HexValue(s, i + 4, 0, x * 16 + HexDigit(s[i + 3]));
        }
      }
    } else {
      assert HexValue(s, i, 4, 0) == -1;
    }
  }

  lemma {:induction false} TokenStep(t: Token, rest: string, plusIsSpace: bool)
    requires TokenFits(t, rest)
    ensures var step := DecodeStep(TokenText(t) + rest, 0, plusIsSpace);
            TokenMeans(t, plusIsSpace, step.0) && step.1 == |TokenText(t)|
  {
    match t
    case Char(_) =>
    case Plus =>
    case Escape(n, digits) => EscapeStep(n, digits, rest, plusIsSpace);
    case Point(n, digits) => PointStep(n, digits, rest, plusIsSpace);
    case Percent => PercentStep(rest, plusIsSpace);
  }

  lemma {:induction false} EscapeStep(n: nat, digits: string, rest: string, plusIsSpace: bool)
    requires TokenFits(Escape(n, digits), rest)
    ensures var step := DecodeStep("%" + digits + rest, 0, plusIsSpace); |step.0| == 1 && step.0[0] as int == n && step.1 == 3
  {
    var s := "%" + digits + rest;
    assert s[0] == '%' && s[1] == digits[0] && s[2] == digits[1];
    DigitIs(digits[0], n / 16);
    DigitIs(digits[1], n % 16);
    TwoHex(s, 1);
    assert n == n / 16 * 16 + n % 16;
  }

  lemma {:induction false} PointStep(n: nat, digits: string, rest: string, plusIsSpace: bool)
    requires TokenFits(Point(n, digits), rest)
    ensures var step := DecodeStep("%u" + digits + rest, 0, plusIsSpace); IsUtf8(n, step.0) && step.1 == 6
  {
    var s := "%u" + digits + rest;
    assert s[0] == '%' && s[1] == 'u' && s[2] == digits[0] && s[3] == digits[1] && s[4] == digits[2] && s[5] == digits[3];
    DigitIs(digits[0], n / 4096);
    DigitIs(digits[1], n / 256 % 16);
    DigitIs(digits[2], n / 16 % 16);
    DigitIs(digits[3], n % 16);
    FourHex(s, 2);
    FourDigits(n);
    Utf8Is(n);
  }

  lemma {:induction false} LastDigit(n: nat)
    ensures n == n / 16 * 16 + n % 16
  {
  }

  lemma {:induction false} DigitPlaces(n: nat)
    ensures n / 16 / 16 == n / 256 && n / 256 / 16 == n / 4096
  {
  }

  lemma {:induction false} FourDigits(n: nat)
    ensures n == ((n / 4096 * 16 + n / 256 % 16) * 16 + n / 16 % 16) * 16 + n % 16
  {
    DigitPlaces(n);
    LastDigit(n);
    LastDigit(n / 16);
    LastDigit(n / 256);
  }

  lemma {:induction false} PercentStep(rest: string, plusIsSpace: bool)
    requires NoEscape(rest)
    ensures DecodeStep("%" + rest, 0, plusIsSpace) == ("%", 1)
  {
    var s := "%" + rest;
    assert s[1..] == rest;
    TwoHex(s, 1);
    FourHex(s, 2);
    forall i | 0 <= i < |rest|
      ensures s[i + 1] == rest[i] && (HexDigit(rest[i]) >= 0 <==> IsHex(rest[i])) && (IsHex(rest[i]) ==> rest[i] != 'u')
    {
      HexOnly(rest[i]);
    }
  }

  /** Decoding gives every token its meaning: escapes in either case, `%u` escapes in UTF-8, plus
      signs as asked, and percent signs that begin no escape as they stand. */
  lemma {:induction false} TokensDecode(tokens: seq<Token>, plusIsSpace: bool)
    requires TokensFit(tokens)
    ensures Means(tokens, plusIsSpace, Decoded(Text(tokens), plusIsSpace))
    decreases |tokens|
  {
    if tokens != [] {
      var head, rest := TokenText(tokens[0]), Text(tokens[1..]);
      TokenStep(tokens[0], rest, plusIsSpace);
      TokensDecode(tokens[1..], plusIsSpace);
      var step := DecodeStep(head + rest, 0, plusIsSpace);
      assert (head + rest)[step.1..] == rest;
      assert Decoded(head + rest, plusIsSpace) == step.0 + Decoded(rest, plusIsSpace);
    }
  }

  // ----- forms

  /** A form's way to encode a value: spaces as plus signs. */
  function FormEncoded(value: string): string
  {
    if value == "" then "" else (if value[0] == ' ' then "+" else EncodedChar(value[0])) + FormEncoded(value[1..])
  }

  lemma {:induction false} FormIsDecoded(value: string)
    requires IsByteString(value)
    ensures Decoded(FormEncoded(value), true) == value
  {
    if value != "" {
      var head := if value[0] == ' ' then "+" else EncodedChar(value[0]);
      var rest := FormEncoded(value[1..]);
      FormIsDecoded(value[1..]);
      if value[0] != ' ' {
        EncodedCharDecodes(value[0], rest, true);
      }
      assert (head + rest)[|head|..] == rest;
    }
  }
}
