/** Base64: the streaming encoder with its 32-bit accumulator, against the encoding by groups of
    three bytes. */
module Base64 {
  import opened Arithmetic
  import opened Sequences
  import opened Strings
  import opened UrlCoding

  const U32: nat := 0x1_0000_0000

  /** The alphabet: A to Z, a to z, 0 to 9, plus and slash. */
  function Letter(n: int): (c: char)
    requires 0 <= n < 64
    ensures c != '='
  {
    if n < 26 then ('A' as int + n) as char
    else if n < 52 then ('a' as int + (n - 26)) as char
    else if n < 62 then ('0' as int + (n - 52)) as char
    else if n == 62 then '+' else '/'
  }

  /** The value of a letter. */
  function Value(c: char): (v: nat)
    ensures v < 64
  {
    if 'A' <= c <= 'Z' then c as int - 'A' as int
    else if 'a' <= c <= 'z' then c as int - 'a' as int + 26
    else if '0' <= c <= '9' then c as int - '0' as int + 52
    else if c == '+' then 62 else if c == '/' then 63 else 0
  }

  lemma {:induction false} ValueOfLetter(n: nat)
    requires n < 64
    ensures Value(Letter(n)) == n
  {
  }

  function ByteAt(s: string, i: nat): (b: int)
    requires IsByteString(s) && i < |s|
    ensures 0 <= b < 256
  {
    assert s[i] in s;
    s[i] as int
  }

  // ----- groups

  /** Section 4 of RFC 4648: three bytes are four letters, and a shorter last group is padded. */
  function Group(a: int, b: int, c: int): string
    requires 0 <= a < 256 && 0 <= b < 256 && 0 <= c < 256
  {
    [Letter(a / 4), Letter(a % 4 * 16 + b / 16), Letter(b % 16 * 4 + c / 64), Letter(c % 64)]
  }

  function Encoded(s: string): string
    requires IsByteString(s)
    decreases |s|
  {
    if |s| < 3 then LastGroup(s)
    else Group(ByteAt(s, 0), ByteAt(s, 1), ByteAt(s, 2)) + Encoded(s[3..])
  }

  function LastGroup(s: string): string
    requires |s| < 3 && IsByteString(s)
  {
    if s == [] then []
    else
      var a := ByteAt(s, 0);
      if |s| == 1 then [Letter(a / 4), Letter(a % 4 * 16), '=', '=']
      else
        var b := ByteAt(s, 1);
        [Letter(a / 4), Letter(a % 4 * 16 + b / 16), Letter(b % 16 * 4), '=']
  }

  /** The decoder of the standard, four letters at a time. */
  function Decoded(t: string): string
    decreases |t|
  {
    if |t| < 4 then []
    else
      var w, x, y, z := Value(t[0]), Value(t[1]), Value(t[2]), Value(t[3]);
      if t[2] == '=' then [Byte(w * 4 + x / 16)]
      else if t[3] == '=' then [Byte(w * 4 + x / 16), Byte(x % 16 * 16 + y / 4)]
      else [Byte(w * 4 + x / 16), Byte(x % 16 * 16 + y / 4), Byte(y % 4 * 64 + z)] + Decoded(t[4..])
  }

  lemma {:induction false} ByteValues(a: int, b: int, c: int)
    requires 0 <= a < 256 && 0 <= b < 256 && 0 <= c < 256
    ensures a / 4 * 4 + (a % 4 * 16 + b / 16) / 16 == a
    ensures (a % 4 * 16 + b / 16) % 16 * 16 + (b % 16 * 4 + c / 64) / 4 == b
    ensures (b % 16 * 4 + c / 64) % 4 * 64 + c % 64 == c
  {
    assert (a % 4 * 16 + b / 16) / 16 == a % 4 && (a % 4 * 16 + b / 16) % 16 == b / 16;
    assert (b % 16 * 4 + c / 64) / 4 == b % 16 && (b % 16 * 4 + c / 64) % 4 == c / 64;
  }

  lemma {:induction false} GroupDecodes(a: int, b: int, c: int)
    requires 0 <= a < 256 && 0 <= b < 256 && 0 <= c < 256
    ensures var t := Group(a, b, c);
            && Value(t[0]) * 4 + Value(t[1]) / 16 == a
            && Value(t[1]) % 16 * 16 + Value(t[2]) / 4 == b
            && Value(t[2]) % 4 * 64 + Value(t[3]) == c
  {
    ValueOfLetter(a / 4);
    ValueOfLetter(a % 4 * 16 + b / 16);
    ValueOfLetter(b % 16 * 4 + c / 64);
    ValueOfLetter(c % 64);
    ByteValues(a, b, c);
  }

  lemma {:induction false} ByteOfChar(s: string, i: nat)
    requires IsByteString(s) && i < |s|
    ensures Byte(ByteAt(s, i)) == s[i]
  {
  }

  lemma {:induction false} LastGroupDecodes(s: string)
    requires |s| < 3 && IsByteString(s)
    ensures Decoded(LastGroup(s)) == s
  {
    if s != [] {
      var a := ByteAt(s, 0);
      var b := if |s| == 2 then ByteAt(s, 1) else 0;
      var t := LastGroup(s);
      GroupDecodes(a, b, 0);
      assert t[0] == Group(a, b, 0)[0] && t[1] == Group(a, b, 0)[1];
      ByteOfChar(s, 0);
      if |s| == 2 {
        assert t[2] == Group(a, b, 0)[2];
        ByteOfChar(s, 1);
        assert Decoded(t) == [Byte(a), Byte(b)];
      } else {
        assert Decoded(t) == [Byte(a)];
      }
    }
  }

  lemma {:induction false} DecodesInFront(a: int, b: int, c: int, more: string)
    requires 0 <= a < 256 && 0 <= b < 256 && 0 <= c < 256
    ensures Decoded(Group(a, b, c) + more) == [Byte(a), Byte(b), Byte(c)] + Decoded(more)
  {
    var t := Group(a, b, c) + more;
    GroupDecodes(a, b, c);
    assert t[4..] == more && t[0] == Group(a, b, c)[0] && t[1] == Group(a, b, c)[1];
    assert t[2] == Group(a, b, c)[2] && t[3] == Group(a, b, c)[3];
  }

  lemma {:induction false} Tail(s: string)
    requires IsByteString(s) && |s| >= 3
    ensures IsByteString(s[3..]) && s == [s[0], s[1], s[2]] + s[3..]
  {
  }

  /** Main result: the standard's decoder gives back every byte string. */
  lemma {:induction false} DecodeUndoesEncode(s: string)
    requires IsByteString(s)
    ensures Decoded(Encoded(s)) == s
    decreases |s|
  {
    if |s| < 3 {
      LastGroupDecodes(s);
    } else {
      Tail(s);
      DecodeUndoesEncode(s[3..]);
      DecodesInFront(ByteAt(s, 0), ByteAt(s, 1), ByteAt(s, 2), Encoded(s[3..]));
      ByteOfChar(s, 0);
      ByteOfChar(s, 1);
      ByteOfChar(s, 2);
    }
  }

  /** There are four letters for every three bytes begun. */
  lemma {:induction false} EncodedLength(s: string)
    requires IsByteString(s)
    ensures |Encoded(s)| == (|s| + 2) / 3 * 4
    decreases |s|
  {
    if |s| >= 3 {
      EncodedLength(s[3..]);
      DivMod(|s| + 2, 3, (|s| - 1) / 3 + 1, (|s| - 1) % 3);
    }
  }

  // ----- the streaming encoder

  /** The value of a 32-bit integer after wrapping around. */
  function Wrap(x: int): (r: int)
    ensures -0x8000_0000 <= r < 0x8000_0000
  {
    var w := x % U32;
    if w < 0x8000_0000 then w else w - U32
  }

  /** `(val >> shift) & 0x3F`: an arithmetic shift, and the lowest six bits. */
  function Sextet(val: int, shift: nat): (n: int)
    requires shift in {0, 2, 4, 6}
    ensures 0 <= n < 64
  {
    (if shift == 0 then val else if shift == 2 then val / 4 else if shift == 4 then val / 16 else val / 64) % 64
  }

  /** The letters of a group that has only begun. */
  function Begun(s: string): string
    requires |s| < 3 && IsByteString(s)
  {
    if s == [] then []
    else
      var a := ByteAt(s, 0);
      if |s| == 1 then [Letter(a / 4)] else [Letter(a / 4), Letter(a % 4 * 16 + ByteAt(s, 1) / 16)]
  }

  lemma {:induction false} WrapKeepsLow(x: int)
    ensures Wrap(x) % 65536 == x % 65536
  {
    var q := x / U32 + if x % U32 < 0x8000_0000 then 0 else 1;
    assert Wrap(x) == x - q * U32;
    var h := x / 65536 - q * 65536;
    DivMod(Wrap(x), 65536, h, x % 65536);
  }

  /** The bits that wrap around are never looked at again: the last two bytes in the accumulator
      give their sextets at every shift in use. */
  lemma {:induction false} SextetsOf(val: int, prev: int, c: int, next: int)
    requires val % 256 == prev && 0 <= c < 256 && next == Wrap(Wrap(val * 256) + c)
    ensures next % 256 == c
    ensures Sextet(next, 2) == c / 4 && Sextet(next, 0) == c % 64
    ensures Sextet(next, 4) == prev % 4 * 16 + c / 16 && Sextet(next, 6) == prev % 16 * 4 + c / 64
  {
    var low := prev * 256;
    NextLow(val, prev, c, next, low);
    var high := next / 65536;
    Shifted2(next, high, prev, c);
    Shifted4(next, high, prev, c);
    Shifted6(next, high, prev, c);
  }

  lemma {:induction false} NextLow(val: int, prev: int, c: int, next: int, low: int)
    requires val % 256 == prev && 0 <= c < 256 && next == Wrap(Wrap(val * 256) + c) && low == prev * 256
    ensures next == next / 65536 * 65536 + low + c
  {
    var shifted := Wrap(val * 256);
    WrapKeepsLow(val * 256);
    WrapKeepsLow(shifted + c);
    DivMod(val * 256, 65536, val / 256, low);
    DivMod(shifted + c, 65536, shifted / 65536, low + c);
  }

  lemma {:induction false} Shifted2(next: int, high: int, prev: int, c: int)
    requires next == high * 65536 + prev * 256 + c && 0 <= prev < 256 && 0 <= c < 256
    ensures next / 4 % 64 == c / 4 && next % 64 == c % 64 && next % 256 == c
  {
    DivMod(next, 4, high * 16384 + prev * 64 + c / 4, c % 4);
    DivMod(next / 4, 64, high * 256 + prev, c / 4);
    DivMod(next, 64, high * 1024 + prev * 4 + c / 64, c % 64);
    DivMod(next, 256, high * 256 + prev, c);
  }

  lemma {:induction false} Shifted4(next: int, high: int, prev: int, c: int)
    requires next == high * 65536 + prev * 256 + c && 0 <= prev < 256 && 0 <= c < 256
    ensures next / 16 % 64 == prev % 4 * 16 + c / 16
  {
    DivMod(next, 16, high * 4096 + prev * 16 + c / 16, c % 16);
    DivMod(next / 16, 64, high * 64 + prev / 4, prev % 4 * 16 + c / 16);
  }

  lemma {:induction false} Shifted6(next: int, high: int, prev: int, c: int)
    requires next == high * 65536 + prev * 256 + c && 0 <= prev < 256 && 0 <= c < 256
    ensures next / 64 % 64 == prev % 16 * 4 + c / 64
  {
    DivMod(next, 64, high * 1024 + prev * 4 + c / 64, c % 64);
    DivMod(next / 64, 64, high * 16 + prev / 16, prev % 16 * 4 + c / 64);
  }

  lemma {:induction false} EncodedAppend(x: string, y: string, groups: nat)
    requires |x| == 3 * groups && IsByteString(x) && IsByteString(y) && IsByteString(x + y)
    ensures Encoded(x + y) == Encoded(x) + Encoded(y) && |Encoded(x)| == 4 * groups
    decreases groups
  {
    if groups == 0 {
      assert x + y == y;
    } else {
      assert (x + y)[3..] == x[3..] + y;
      assert ByteAt(x, 0) == ByteAt(x + y, 0) && ByteAt(x, 1) == ByteAt(x + y, 1) && ByteAt(x, 2) == ByteAt(x + y, 2);
      EncodedAppend(x[3..], y, groups - 1);
      Regroup(Group(ByteAt(x, 0), ByteAt(x, 1), ByteAt(x, 2)), Encoded(x[3..]), Encoded(y));
    }
  }

  /** Behind `i` bytes: `groups` whole groups and the letters of the one that has begun, the last
      byte in the accumulator, and the count of its bits that are still to be used. */
  ghost predicate Streaming(s: string, i: nat, groups: nat, val: int, valb: int, out: string)
  {
    && IsByteString(s) && 3 * groups <= i <= |s| && i - 3 * groups < 3
    && valb == -6 + 2 * (i - 3 * groups)
    && (i > 0 ==> val % 256 == ByteAt(s, i - 1))
    && out == Encoded(s[..3 * groups]) + Begun(s[3 * groups..i])
  }

  /** The inner loop: as many sextets as are complete. */
  method PushSextets(val: int, valb: int, out: string) returns (valb': int, out': string)
    requires valb in {2, 4, 6}
    ensures valb < 6 ==> valb' == valb - 6 && out' == out + [Letter(Sextet(val, valb))]
    ensures valb == 6 ==> valb' == -6 && out' == out + [Letter(Sextet(val, 6)), Letter(Sextet(val, 0))]
  {
    valb', out' := valb, out;
    while valb' >= 0
      invariant valb' in {valb, valb - 6, valb - 12}
      invariant valb' == valb ==> out' == out
      invariant valb' == valb - 6 ==> out' == out + [Letter(Sextet(val, valb))]
      invariant valb' == valb - 12 ==> valb == 6 && out' == out + [Letter(Sextet(val, 6)), Letter(Sextet(val, 0))]
      decreases valb' + 6
    {
      out' := out' + [Letter(Sextet(val, valb'))];
      valb' := valb' - 6;
    }
  }

  lemma {:induction false} GroupCompleted(s: string, i: nat, groups: nat)
    requires IsByteString(s) && i == 3 * groups + 2 < |s|
    ensures Encoded(s[..i + 1]) == Encoded(s[..i - 2]) + Group(ByteAt(s, i - 2), ByteAt(s, i - 1), ByteAt(s, i))
  {
    var x, y := s[..i - 2], s[i - 2..i + 1];
    assert x + y == s[..i + 1];
    EncodedAppend(x, y, groups);
    assert y[3..] == [] && Encoded(y) == Group(ByteAt(y, 0), ByteAt(y, 1), ByteAt(y, 2)) + [];
  }

  lemma {:induction false} FirstOfGroup(s: string, i: nat)
    requires IsByteString(s) && i < |s|
    ensures Begun(s[i..i]) == [] && Begun(s[i..i + 1]) == [Letter(ByteAt(s, i) / 4)]
  {
    assert s[i..i] == [] && s[i..i + 1] == [s[i]];
  }

  lemma {:induction false} SecondOfGroup(s: string, i: nat)
    requires IsByteString(s) && 0 < i < |s|
    ensures Begun(s[i - 1..i + 1]) == Begun(s[i - 1..i]) + [Letter(ByteAt(s, i - 1) % 4 * 16 + ByteAt(s, i) / 16)]
  {
    assert s[i - 1..i] == [s[i - 1]] && s[i - 1..i + 1] == [s[i - 1], s[i]];
  }

  lemma {:induction false} ThirdOfGroup(s: string, i: nat, groups: nat)
    requires IsByteString(s) && i == 3 * groups + 2 < |s|
    ensures Encoded(s[..i + 1])
         == Encoded(s[..i - 2]) + (Begun(s[i - 2..i]) + [Letter(ByteAt(s, i - 1) % 16 * 4 + ByteAt(s, i) / 64), Letter(ByteAt(s, i) % 64)])
    ensures Begun(s[i + 1..i + 1]) == []
  {
    GroupCompleted(s, i, groups);
    assert s[i - 2..i] == [s[i - 2], s[i - 1]] && s[i + 1..i + 1] == [];
  }

  lemma {:induction false} StreamFirst(s: string, i: nat, groups: nat, val: int, out: string, next: int)
    requires Streaming(s, i, groups, val, -6, out) && i < |s| && next == Wrap(Wrap(val * 256) + ByteAt(s, i))
    ensures Streaming(s, i + 1, groups, next, -4, out + [Letter(Sextet(next, 2))])
  {
    SextetsOf(val, val % 256, ByteAt(s, i), next);
    FirstOfGroup(s, i);
    Regroup(Encoded(s[..i]), Begun(s[i..i]), [Letter(Sextet(next, 2))]);
  }

  lemma {:induction false} StreamSecond(s: string, i: nat, groups: nat, val: int, out: string, next: int)
    requires Streaming(s, i, groups, val, -4, out) && i < |s| && next == Wrap(Wrap(val * 256) + ByteAt(s, i))
    ensures Streaming(s, i + 1, groups, next, -2, out + [Letter(Sextet(next, 4))])
  {
    SextetsOf(val, val % 256, ByteAt(s, i), next);
    SecondOfGroup(s, i);
    Regroup(Encoded(s[..i - 1]), Begun(s[i - 1..i]), [Letter(Sextet(next, 4))]);
  }

  lemma {:induction false} StreamThird(s: string, i: nat, groups: nat, val: int, out: string, next: int)
    requires Streaming(s, i, groups, val, -2, out) && i < |s| && next == Wrap(Wrap(val * 256) + ByteAt(s, i))
    ensures Streaming(s, i + 1, groups + 1, next, -6, out + [Letter(Sextet(next, 6)), Letter(Sextet(next, 0))])
  {
    SextetsOf(val, val % 256, ByteAt(s, i), next);
    ThirdOfGroup(s, i, groups);
    Regroup(Encoded(s[..i - 2]), Begun(s[i - 2..i]), [Letter(Sextet(next, 6)), Letter(Sextet(next, 0))]);
  }

  /** One byte more. */
  lemma {:induction false} StreamStep(s: string, i: nat, groups: nat, val: int, valb: int, out: string, next: int,
                                      valb': int, out': string)
    requires Streaming(s, i, groups, val, valb, out) && i < |s| && next == Wrap(Wrap(val * 256) + ByteAt(s, i))
    requires valb < -2 ==> valb' == valb + 2 && out' == out + [Letter(Sextet(next, valb + 8))]
    requires valb == -2 ==> valb' == -6 && out' == out + [Letter(Sextet(next, 6)), Letter(Sextet(next, 0))]
    ensures Streaming(s, i + 1, if valb == -2 then groups + 1 else groups, next, valb', out')
  {
    if valb == -6 {
      StreamFirst(s, i, groups, val, out, next);
    } else if valb == -4 {
      StreamSecond(s, i, groups, val, out, next);
    } else {
      StreamThird(s, i, groups, val, out, next);
    }
  }

  /** The bits left over in the accumulator. */
  lemma {:induction false} LastSextet(val: int, prev: int, shift: nat)
    requires val % 256 == prev && shift in {4, 6}
    ensures Sextet(Wrap(val * 256), shift) == if shift == 4 then prev % 4 * 16 else prev % 16 * 4
  {
    WrapTwice(val * 256);
    SextetsOf(val, prev, 0, Wrap(val * 256));
  }

  lemma {:induction false} WrapTwice(x: int)
    ensures Wrap(Wrap(x) + 0) == Wrap(x)
  {
    var w := x % U32;
    if w < 0x8000_0000 {
      DivMod(w, U32, 0, w);
    } else {
      DivMod(w - U32, U32, -1, w);
    }
  }

  lemma {:induction false} LastLetters(y: string, n: int)
    requires IsByteString(y) && 0 < |y| < 3 && 0 <= n < 64
    requires n == if |y| == 1 then ByteAt(y, 0) % 4 * 16 else ByteAt(y, 1) % 16 * 4
    ensures Encoded(y) == Begun(y) + [Letter(n)] + if |y| == 1 then "==" else "="
  {
    assert Encoded(y) == LastGroup(y);
  }

  lemma {:induction false} SplitAt(s: string, k: nat)
    requires k <= |s| && IsByteString(s)
    ensures s[..k] + s[k..] == s && s[k..|s|] == s[k..]
    ensures k < |s| ==> ByteAt(s[k..], |s| - k - 1) == ByteAt(s, |s| - 1)
  {
  }

  /** The letter of the bits left over and the padding complete the last group. */
  lemma {:induction false} LastStep(s: string, groups: nat, val: int, valb: int, out: string, n: int)
    requires Streaming(s, |s|, groups, val, valb, out) && 0 <= n < 64
    requires valb == -4 ==> n == ByteAt(s, |s| - 1) % 4 * 16
    requires valb == -2 ==> n == ByteAt(s, |s| - 1) % 16 * 4
    ensures |out| == 4 * groups + (valb + 6) / 2
    ensures Encoded(s) == if valb == -6 then out else out + [Letter(n)] + (if valb == -4 then "==" else "=")
  {
    var k := 3 * groups;
    var x, y := s[..k], s[k..];
    SplitAt(s, k);
    EncodedAppend(x, y, groups);
    if y != [] {
      LastLetters(y, n);
      RegroupFour(Encoded(x), Begun(y), [Letter(n)], if valb == -4 then "==" else "=");
    }
  }

  /** The padding loop. */
  method Pad(letters: string) returns (out: string)
    requires |letters| % 4 != 1
    ensures out == letters + (if |letters| % 4 == 0 then "" else if |letters| % 4 == 2 then "==" else "=")
  {
    out := letters;
    while |out| % 4 != 0
      invariant |letters| <= |out| <= |letters| + 2
      invariant |out| == |letters| ==> out == letters
      invariant |out| == |letters| + 1 ==> out == letters + "=" && |letters| % 4 != 0
      invariant |out| == |letters| + 2 ==> out == letters + "==" && |letters| % 4 == 2
      decreases |letters| + 2 - |out|
    {
      out := out + "=";
    }
  }

  /** `base64_encode`: the encoding by groups, for input of every length. */
  method Base64Encode(input: string) returns (out: string)
    requires IsByteString(input)
    ensures out == Encoded(input)
  {
    out := [];
    var val := 0;
    var valb := -6;
    ghost var groups := 0;
    for i := 0 to |input|
      invariant Streaming(input, i, groups, val, valb, out)
    {
      var next := Wrap(Wrap(val * 256) + ByteAt(input, i));
      var valb', out' := PushSextets(next, valb + 8, out);
      StreamStep(input, i, groups, val, valb, out, next, valb', out');
      groups := if valb == -2 then groups + 1 else groups;
      val, valb, out := next, valb', out';
    }
    out := Finish(input, groups, val, valb, out);
  }

  method Finish(ghost input: string, ghost groups: nat, val: int, valb: int, letters: string) returns (out: string)
    requires Streaming(input, |input|, groups, val, valb, letters)
    ensures out == Encoded(input)
  {
    out := letters;
    ghost var n := 0;
    if valb > -6 {
      LastSextet(val, val % 256, valb + 8);
      n := Sextet(Wrap(val * 256), valb + 8);
      out := out + [Letter(Sextet(Wrap(val * 256), valb + 8))];
    }
    LastStep(input, groups, val, valb, letters, n);
    DivMod(|out|, 4, groups, if valb == -6 then 0 else if valb == -4 then 2 else 3);
    out := Pad(out);
  }
}
