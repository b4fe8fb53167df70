/** Percent coding: `decode_url` and `encode_query_param`. */
module UrlCoding {
  import opened Sequences
  import opened Strings

  /** `is_hex`: the value of a hexadecimal digit, or -1. */
  function HexDigit(c: char): (v: int)
    ensures -1 <= v < 16
  {
    if '0' <= c <= '9' then c as int - '0' as int
    else if 'A' <= c <= 'F' then c as int - 'A' as int + 10
    else if 'a' <= c <= 'f' then c as int - 'a' as int + 10
    else -1
  }

  /** `from_hex_to_i`: the value of `cnt` hexadecimal digits from index `i` on, or -1.
      The terminator behind a text is not a digit, so a text that is too short has no value. */
  function HexValue(s: string, i: nat, cnt: nat, val: nat): (v: int)
    ensures -1 <= v
    ensures v >= 0 && cnt > 0 ==> i + cnt <= |s|
    decreases cnt
  {
    if cnt == 0 then val
    else if i < |s| && HexDigit(s[i]) >= 0 then HexValue(s, i + 1, cnt - 1, val * 16 + HexDigit(s[i]))
    else -1
  }

  function Byte(n: int): char
  {
    (n % 256) as char
  }

  /** `to_utf8`: the UTF-8 form of a code point; nothing for a surrogate or beyond the range. */
  function Utf8(code: nat): string
  {
    if code < 0x80 then [Byte(code)]
    else if code < 0x800 then [Byte(0xC0 + code / 64 % 32), Byte(0x80 + code % 64)]
    else if 0xD800 <= code < 0xE000 then []
    else if code < 0x10000 then
      [Byte(0xE0 + code / 4096 % 16), Byte(0x80 + code / 64 % 64), Byte(0x80 + code % 64)]
    else if code < 0x110000 then
      [Byte(0xF0 + code / 262144 % 8), Byte(0x80 + code / 4096 % 64), Byte(0x80 + code / 64 % 64), Byte(0x80 + code % 64)]
    else []
  }

  /** One turn of the decoding loop at index `i`: what is appended and how far the index moves. */
  function DecodeStep(s: string, i: nat, plusIsSpace: bool): (r: (string, nat))
    requires i < |s|
    ensures 1 <= r.1 && i + r.1 <= |s|
  {
    if s[i] == '%' && i + 1 < |s| then
      if s[i + 1] == 'u' then
        var v := HexValue(s, i + 2, 4, 0);
        if v >= 0 then (Utf8(v), 6) else ([s[i]], 1)
      else
        var v := HexValue(s, i + 1, 2, 0);
        if v >= 0 then ([Byte(v)], 3) else ([s[i]], 1)
    else if plusIsSpace && s[i] == '+' then ([' '], 1)
    else ([s[i]], 1)
  }

  /** What the decoding loop makes of a text. */
  function Decoded(s: string, plusIsSpace: bool): string
    decreases |s|
  {
    if s == [] then []
    else var step := DecodeStep(s, 0, plusIsSpace);
      step.0 + Decoded(s[step.1..], plusIsSpace)
  }

  method DecodeUrl(s: string, plusIsSpace: bool) returns (result: string)
    ensures result == Decoded(s, plusIsSpace)
  {
    result := [];
    var i := 0;
    assert s[0..] == s;
    while i < |s|
      invariant i <= |s|
      invariant DecodedSoFar(s, plusIsSpace, i, result)
    {
      var step := DecodeStep(s, i, plusIsSpace);
      DecodedGrows(s, plusIsSpace, i, result);
      result := result + step.0;
      i := i + step.1;
    }
  }

  ghost predicate DecodedSoFar(s: string, plusIsSpace: bool, i: nat, result: string)
  {
    i <= |s| && Decoded(s, plusIsSpace) == result + Decoded(s[i..], plusIsSpace)
  }

  lemma {:induction false} DecodedGrows(s: string, plusIsSpace: bool, i: nat, result: string)
    requires i < |s| && DecodedSoFar(s, plusIsSpace, i, result)
    ensures var step := DecodeStep(s, i, plusIsSpace);
            DecodedSoFar(s, plusIsSpace, i + step.1, result + step.0)
  {
    var step := DecodeStep(s, i, plusIsSpace);
    assert s == s[..i] + s[i..];
    DecodeStepShift(s[..i], s[i..], 0, plusIsSpace);
    assert s[i..][step.1..] == s[i + step.1..];
    Regroup(result, step.0, Decoded(s[i + step.1..], plusIsSpace));
  }

  /** Decoding looks no further back than the place where it stands. */
  lemma {:induction false} DecodeStepShift(p: string, s: string, i: nat, plusIsSpace: bool)
    requires i < |s|
    ensures DecodeStep(p + s, |p| + i, plusIsSpace) == DecodeStep(s, i, plusIsSpace)
  {
    HexShift(p, s, i + 1, 2, 0);
    HexShift(p, s, i + 2, 4, 0);
  }

  lemma {:induction false} HexShift(p: string, s: string, i: nat, cnt: nat, val: nat)
    ensures HexValue(p + s, |p| + i, cnt, val) == HexValue(s, i, cnt, val)
    decreases cnt
  {
    if cnt > 0 && i < |s| && HexDigit(s[i]) >= 0 {
      HexShift(p, s, i + 1, cnt - 1, val * 16 + HexDigit(s[i]));
    }
  }

  /** The characters `encode_query_param` lets through. */
  predicate Unreserved(c: char)
  {
    '0' <= c <= '9' || 'A' <= c <= 'Z' || 'a' <= c <= 'z' || c == '-' || c == '_' || c == '.' || c == '!'
    || c == '~' || c == '*' || c == '\'' || c == '(' || c == ')'
  }

  predicate IsByte(c: char) { c as int < 256 }

  predicate IsByteString(s: string) { forall c :: c in s ==> IsByte(c) }

  function HexUpper(d: int): char
    requires 0 <= d < 16
  {
    "0123456789ABCDEF"[d]
  }

  function EncodedChar(c: char): string
  {
    if Unreserved(c) then [c] else ['%', HexUpper(c as int / 16 % 16), HexUpper(c as int % 16)]
  }

  function Encoded(value: string): string
  {
    if value == [] then [] else EncodedChar(value[0]) + Encoded(value[1..])
  }

  method EncodeQueryParam(value: string) returns (escaped: string)
    ensures escaped == Encoded(value)
  {
    escaped := [];
    for i := 0 to |value|
      invariant Encoded(value) == escaped + Encoded(value[i..])
    {
      assert value[i..][1..] == value[i + 1..];
      assert escaped + (EncodedChar(value[i]) + Encoded(value[i + 1..]))
          == (escaped + EncodedChar(value[i])) + Encoded(value[i + 1..]);
      escaped := escaped + EncodedChar(value[i]);
    }
  }

  lemma {:induction false} HexUpperDigit(d: int)
    requires 0 <= d < 16
    ensures HexDigit(HexUpper(d)) == d && HexUpper(d) != 'u'
    ensures Unreserved(HexUpper(d)) && !IsBlank(HexUpper(d))
  {
  }

  /** `decode_url` undoes `encode_query_param` on every byte string, whether or not a plus
      sign means a space. */
  lemma {:induction false} DecodeUndoesEncode(value: string, plusIsSpace: bool)
    requires IsByteString(value)
    ensures Decoded(Encoded(value), plusIsSpace) == value
  {
    if value != [] {
      var head, rest := EncodedChar(value[0]), Encoded(value[1..]);
      DecodeUndoesEncode(value[1..], plusIsSpace);
      EncodedCharDecodes(value[0], rest, plusIsSpace);
      assert (head + rest)[|head|..] == rest;
    }
  }

  /** Two hexadecimal digits at index `i`. */
  lemma {:induction false} TwoDigits(s: string, i: nat, hi: int, lo: int)
    requires 0 <= hi < 16 && 0 <= lo < 16
    requires i + 2 <= |s| && s[i] == HexUpper(hi) && s[i + 1] == HexUpper(lo)
    ensures HexValue(s, i, 2, 0) == hi * 16 + lo
  {
    HexUpperDigit(hi);
    HexUpperDigit(lo);
    assert HexValue(s, i + 2, 0, hi * 16 + lo) == hi * 16 + lo;
    assert HexValue(s, i + 1, 1, hi) == HexValue(s, i + 2, 0, hi * 16 + lo);
  }

  lemma {:induction false} EncodedCharDecodes(c: char, rest: string, plusIsSpace: bool)
    requires IsByte(c)
    ensures DecodeStep(EncodedChar(c) + rest, 0, plusIsSpace) == ([c], |EncodedChar(c)|)
  {
    if !Unreserved(c) {
      var hi, lo := c as int / 16 % 16, c as int % 16;
      assert c as int == hi * 16 + lo;
      HexUpperDigit(hi);
      var s := EncodedChar(c) + rest;
      assert s[0] == '%' && s[1] == HexUpper(hi) && s[2] == HexUpper(lo);
      TwoDigits(s, 1, hi, lo);
    }
  }

  /** Encoded text is made of unreserved characters and percent signs only. */
  lemma {:induction false} EncodedAlphabet(value: string)
    ensures forall c :: c in Encoded(value) ==> Unreserved(c) || c == '%'
  {
    if value != [] {
      EncodedAlphabet(value[1..]);
      var c := value[0] as int;
      HexUpperDigit(c / 16 % 16);
      HexUpperDigit(c % 16);
    }
  }
}
