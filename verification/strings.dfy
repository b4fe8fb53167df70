/** Byte-string helpers shared by the HTTP codecs.

    A `string` stands for a `std::string`: a sequence of bytes, one `char` a byte.
  */
module Strings {

  const CRLF: string := "\r\n"

  /** Longer header lines are refused. */
  const HEADER_MAX_LENGTH: nat := 8192

  function Concat(parts: seq<string>): string
  {
    if parts == [] then [] else parts[0] + Concat(parts[1..])
  }

  /** `t` stands at index `i` of `s`. */
  predicate StartsAt(s: string, i: nat, t: string)
  {
    i + |t| <= |s| && s[i..i + |t|] == t
  }

  /** `t` stands somewhere in `s`. */
  ghost predicate Contains(s: string, t: string)
  {
    exists i: nat :: StartsAt(s, i, t)
  }

  /** The first index, from `i` on, at which `t` stands in `s`; `|s|` when there is none. */
  function FindFrom(s: string, i: nat, t: string): (r: nat)
    requires i <= |s| && |t| > 0
    ensures i <= r <= |s|
    ensures r < |s| ==> StartsAt(s, r, t)
    ensures forall j: nat :: i <= j < r ==> !StartsAt(s, j, t)
    decreases |s| - i
  {
    if i == |s| || StartsAt(s, i, t) then i else FindFrom(s, i + 1, t)
  }

  function Find(s: string, t: string): (r: nat)
    requires |t| > 0
    ensures r <= |s|
    ensures r < |s| ==> StartsAt(s, r, t)
    ensures forall j: nat :: j < r ==> !StartsAt(s, j, t)
  {
    FindFrom(s, 0, t)
  }

  /** `Find` returns the one index that meets its description. */
  lemma {:induction false} FindIs(s: string, t: string, p: nat)
    requires |t| > 0 && p <= |s|
    requires p < |s| ==> StartsAt(s, p, t)
    requires forall j: nat :: j < p ==> !StartsAt(s, j, t)
    ensures Find(s, t) == p
  {
    var r := Find(s, t);
    assert r < |s| ==> StartsAt(s, r, t);
  }

  /** Only the first character of `t` may begin `t`, so two occurrences of `t` never overlap. */
  predicate NeverOverlaps(t: string)
  {
    |t| > 0 && t[0] !in t[1..]
  }

  /** A text that cannot overlap itself is found exactly where it was spliced in,
      whatever follows it. */
  lemma {:induction false} FindAtSplice(p: string, t: string, q: string)
    requires NeverOverlaps(t) && !Contains(p, t)
    ensures Find(p + t + q, t) == |p|
  {
    var s := p + t + q;
    assert s[|p|..|p| + |t|] == t;
    forall j: nat | j < |p|
      ensures !StartsAt(s, j, t)
    {
      if j + |t| <= |p| {
        assert p[j..j + |t|] == s[j..j + |t|];
        assert !StartsAt(p, j, t);
      } else {
        assert s[j..j + |t|][|p| - j] == s[|p|] == t[0];
        assert t[|p| - j] == t[1..][|p| - j - 1];
      }
    }
    FindIs(s, t, |p|);
  }

  /** What a search over a buffer sees when the buffer holds only the first part of the text:
      the same place when the whole occurrence is inside, and otherwise nothing. */
  lemma {:induction false} FindInPrefix(buf: string, unfed: string, t: string)
    requires |t| > 0
    ensures var p := Find(buf + unfed, t);
            Find(buf, t) == if p + |t| <= |buf| then p else |buf|
  {
    var s := buf + unfed;
    var p := Find(s, t);
    forall j: nat | j + |t| <= |buf|
      ensures StartsAt(buf, j, t) == StartsAt(s, j, t)
    {
      assert buf[j..j + |t|] == s[j..j + |t|];
    }
    if p + |t| <= |buf| {
      FindIs(buf, t, p);
    } else {
      forall j: nat | j < |buf|
        ensures !StartsAt(buf, j, t)
      {
        assert j + |t| <= |buf| ==> !StartsAt(s, j, t);
      }
      FindIs(buf, t, |buf|);
    }
  }

  /** A tail of a text without `t` is without `t`. */
  lemma {:induction false} TailContains(s: string, k: nat, t: string)
    requires k <= |s| && !Contains(s, t)
    ensures !Contains(s[k..], t)
  {
    forall i: nat
      ensures !StartsAt(s[k..], i, t)
    {
      assert !StartsAt(s, k + i, t);
      if k + i + |t| <= |s| {
        assert s[k..][i..i + |t|] == s[k + i..k + i + |t|];
      }
    }
  }

  /** A text without the first character of `t` is without `t`. */
  lemma {:induction false} AbsentCharacter(s: string, t: string)
    requires |t| > 0 && t[0] !in s
    ensures !Contains(s, t)
  {
    forall i: nat
      ensures !StartsAt(s, i, t)
    {
      if i + |t| <= |s| {
        assert s[i..i + |t|][0] == s[i];
      }
    }
  }

  // ----- blanks and case

  predicate IsBlank(c: char) { c == ' ' || c == '\t' }

  /** The white space of a regular expression's `\s` and of C's `isspace`. */
  predicate IsSpace(c: char)
  {
    c == ' ' || c == '\t' || c == '\n' || c == '\r' || c as int == 11 || c as int == 12
  }

  function SkipSpace(s: string): (r: string)
    ensures |r| <= |s|
  {
    if s != [] && IsSpace(s[0]) then SkipSpace(s[1..]) else s
  }

  function ToLower(c: char): char
  {
    if 'A' <= c <= 'Z' then c - 'A' + 'a' else c
  }

  predicate StartsWithNoCase(s: string, t: string)
  {
    |t| <= |s| && forall i :: 0 <= i < |t| ==> ToLower(s[i]) == ToLower(t[i])
  }

  // ----- trimming and splitting

  function TrimLeft(s: string): (r: string)
    ensures |r| <= |s|
  {
    if s != [] && IsBlank(s[0]) then TrimLeft(s[1..]) else s
  }

  function TrimRight(s: string): (r: string)
    ensures |r| <= |s|
  {
    if s != [] && IsBlank(s[|s| - 1]) then TrimRight(s[..|s| - 1]) else s
  }

  function Trim(s: string): string
  {
    TrimRight(TrimLeft(s))
  }

  /** Nothing to trim: the ends are not blanks. */
  predicate Trimmed(s: string)
  {
    s == [] || (!IsBlank(s[0]) && !IsBlank(s[|s| - 1]))
  }

  lemma {:induction false} TrimOfTrimmed(s: string)
    requires Trimmed(s)
    ensures Trim(s) == s
    ensures Trim([' '] + s) == s
  {
    assert ([' '] + s)[1..] == s;
    assert TrimLeft([' '] + s) == TrimLeft(s);
  }

  /** The piece a split keeps of one field: the trimmed field, or nothing when it is blank. */
  function Piece(field: string): seq<string>
  {
    if Trim(field) == [] then [] else [Trim(field)]
  }

  /** Index of the first `d` in `s` from `i` on, or `|s|`. */
  function FirstIndex(s: string, d: char): (r: nat)
    ensures r <= |s|
    ensures d !in s[..r]
    ensures r < |s| ==> s[r] == d
  {
    if s == [] || s[0] == d then 0 else
      var r := 1 + FirstIndex(s[1..], d);
      assert s[..r] == [s[0]] + s[1..][..r - 1];
      r
  }

  /** The non-blank fields of `s` between separators `d`, trimmed, in order. */
  function Pieces(s: string, d: char): seq<string>
    decreases |s|
  {
    var i := FirstIndex(s, d);
    if i == |s| then Piece(s) else Piece(s[..i]) + Pieces(s[i + 1..], d)
  }

  lemma {:induction false} FirstIndexIs(p: string, d: char, q: string)
    requires d !in p
    ensures FirstIndex(p + [d] + q, d) == |p|
  {
    var s := p + [d] + q;
    var r := FirstIndex(s, d);
    assert s[|p|] == d;
    assert forall i :: 0 <= i < |p| ==> s[i] == p[i];
    assert forall i :: 0 <= i < r ==> s[..r][i] == s[i];
  }

  lemma {:induction false} PiecesSplice(p: string, d: char, q: string)
    requires d !in p
    ensures Pieces(p + [d] + q, d) == Piece(p) + Pieces(q, d)
  {
    var s := p + [d] + q;
    FirstIndexIs(p, d, q);
    assert s[..|p|] == p;
    assert s[|p| + 1..] == q;
  }

  lemma {:induction false} PiecesNone(p: string, d: char)
    requires d !in p
    ensures Pieces(p, d) == Piece(p)
  {
    assert FirstIndex(p, d) == |p|;
  }

  // ----- the loops themselves

  lemma {:induction false} TrimLeftStep(s: string, i: nat, end: nat)
    requires i < end <= |s| && IsBlank(s[i])
    ensures TrimLeft(s[i..end]) == TrimLeft(s[i + 1..end])
  {
    assert s[i..end][1..] == s[i + 1..end];
  }

  lemma {:induction false} TrimRightStep(s: string, i: nat, end: nat)
    requires i < end <= |s| && IsBlank(s[end - 1])
    ensures TrimRight(s[i..end]) == TrimRight(s[i..end - 1])
  {
    assert s[i..end][..end - i - 1] == s[i..end - 1];
  }

  lemma {:induction false} TrimRightDone(s: string, i: nat, end: nat)
    requires i < end <= |s| && !IsBlank(s[end - 1])
    ensures TrimRight(s[i..end]) == s[i..end] != []
  {
  }

  /** `trim`: note that the left bound runs up to the end of the whole text, not of the field. */
  method TrimRange(s: string, beg: nat, end: nat) returns (left: nat, right: nat)
    requires beg <= end <= |s|
    ensures left < right ==> beg <= left < right <= end && s[left..right] == Trim(s[beg..end])
    ensures left >= right ==> Trim(s[beg..end]) == []
  {
    left := SkipLeft(s, beg, end);
    right := end;
    while right > 0 && IsBlank(s[right - 1])
      invariant right <= end
      invariant left <= right ==> TrimRight(s[left..right]) == Trim(s[beg..end])
      invariant right < left ==> Trim(s[beg..end]) == []
    {
      if left < right {
        TrimRightStep(s, left, right);
      }
      right := right - 1;
    }
    if left < right {
      TrimRightDone(s, left, right);
    }
  }

  method SkipLeft(s: string, beg: nat, end: nat) returns (left: nat)
    requires beg <= end <= |s|
    ensures beg <= left <= |s|
    ensures left <= end ==> s[left..end] == TrimLeft(s[beg..end])
    ensures end < left ==> TrimLeft(s[beg..end]) == []
  {
    left := beg;
    while left < |s| && IsBlank(s[left])
      invariant beg <= left <= |s|
      invariant left <= end ==> TrimLeft(s[beg..end]) == TrimLeft(s[left..end])
      invariant end < left ==> TrimLeft(s[beg..end]) == []
    {
      if left < end {
        TrimLeftStep(s, left, end);
      }
      left := left + 1;
    }
  }

  method CallWithField(s: string, beg: nat, end: nat, calls: seq<string>) returns (calls': seq<string>)
    requires beg <= end <= |s|
    ensures calls' == calls + Piece(s[beg..end])
  {
    var left, right := TrimRange(s, beg, end);
    calls' := if left < right then calls + [s[left..right]] else calls;
  }

  lemma {:induction false} PiecesFrom(s: string, beg: nat, i: nat, d: char)
    requires beg <= i < |s| && s[i] == d && forall k :: beg <= k < i ==> s[k] != d
    ensures Pieces(s[beg..], d) == Piece(s[beg..i]) + Pieces(s[i + 1..], d)
  {
    assert s[beg..] == s[beg..i] + [d] + s[i + 1..];
    PiecesSplice(s[beg..i], d, s[i + 1..]);
  }

  lemma {:induction false} PiecesAtEnd(s: string, beg: nat, d: char)
    requires beg <= |s| && forall k :: beg <= k < |s| ==> s[k] != d
    ensures Pieces(s[beg..], d) == if |s| == 0 then [] else Piece(s[beg..|s|])
  {
    assert s[beg..|s|] == s[beg..];
    PiecesNone(s[beg..], d);
  }

  ghost predicate SplitSoFar(s: string, d: char, beg: nat, pieces: seq<string>)
  {
    beg <= |s| && Pieces(s, d) == pieces + Pieces(s[beg..], d)
  }

  lemma {:induction false} SplitStep(s: string, d: char, beg: nat, i: nat, pieces: seq<string>)
    requires beg <= i < |s| && s[i] == d && forall k :: beg <= k < i ==> s[k] != d
    requires SplitSoFar(s, d, beg, pieces)
    ensures SplitSoFar(s, d, i + 1, pieces + Piece(s[beg..i]))
  {
    PiecesFrom(s, beg, i, d);
    assert pieces + Piece(s[beg..i]) + Pieces(s[i + 1..], d)
        == pieces + (Piece(s[beg..i]) + Pieces(s[i + 1..], d));
  }

  /** `split`: calls back with every non-blank trimmed field; here the calls are collected. */
  method Split(s: string, d: char) returns (pieces: seq<string>)
    ensures pieces == Pieces(s, d)
  {
    pieces := [];
    var i, beg := 0, 0;
    assert s[0..] == s;
    while i < |s|
      invariant 0 <= beg <= i <= |s|
      invariant forall k :: beg <= k < i ==> s[k] != d
      invariant SplitSoFar(s, d, beg, pieces)
    {
      if s[i] == d {
        ghost var before := pieces;
        pieces := CallWithField(s, beg, i, pieces);
        SplitStep(s, d, beg, i, before);
        beg := i + 1;
      }
      i := i + 1;
    }
    PiecesAtEnd(s, beg, d);
    if i > 0 {
      pieces := CallWithField(s, beg, i, pieces);
    }
  }
}
