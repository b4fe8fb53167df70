/** Small facts that fix the tables and orders of the string codecs. */
module CodingVectors {
  import opened Strings
  import opened UrlCoding
  import opened Params
  import Base64

  /** The alphabet of section 4 of RFC 4648, in order. */
  lemma {:induction false} LetterIs(n: nat)
    requires n < 64
    ensures n < 26 ==> Base64.Letter(n) == "ABCDEFGHIJKLMNOPQRSTUVWXYZ"[n]
    ensures 26 <= n < 52 ==> Base64.Letter(n) == "abcdefghijklmnopqrstuvwxyz"[n - 26]
    ensures 52 <= n < 62 ==> Base64.Letter(n) == "0123456789"[n - 52]
    ensures n >= 62 ==> Base64.Letter(n) == "+/"[n - 62]
  {
    if n < 26 {
      LetterRow(n);
    } else if n < 52 {
      LowerRow(n - 26);
    } else if n < 62 {
      DigitRow(n - 52);
    }
  }

  lemma {:induction false} LetterRow(i: nat)
    requires i < 26
    ensures "ABCDEFGHIJKLMNOPQRSTUVWXYZ"[i] as int == 65 + i
  {
  }

  lemma {:induction false} LowerRow(i: nat)
    requires i < 26
    ensures "abcdefghijklmnopqrstuvwxyz"[i] as int == 97 + i
  {
  }

  lemma {:induction false} DigitRow(i: nat)
    requires i < 10
    ensures "0123456789"[i] as int == 48 + i
  {
  }

  /** The test vectors of section 10 of RFC 4648 for one, two and three bytes. */
  lemma {:induction false} Vectors()
    ensures Base64.Encoded("") == "" && Base64.Encoded("f") == "Zg==" && Base64.Encoded("fo") == "Zm8="
    ensures Base64.Encoded("foo") == "Zm9v" && Base64.Encoded("foob") == "Zm9vYg=="
  {
    assert Base64.Encoded("f") == Base64.LastGroup("f") && Base64.Encoded("fo") == Base64.LastGroup("fo");
    assert "foo"[3..] == "" && "foob"[3..] == "b";
    assert Base64.Encoded("foo") == Base64.Group(102, 111, 111) + "";
    assert Base64.Encoded("foob") == Base64.Group(102, 111, 111) + Base64.LastGroup("b");
  }

  // ----- parameters

  /** Keys are in the order of a dictionary: the first different byte decides, and a beginning
      comes before the whole. */
  lemma {:induction false} LessExactly(common: string, a: string, b: string)
    requires a == "" || b == "" || a[0] != b[0]
    ensures Less(common + a, common + b) <==> b != "" && (a == "" || a[0] < b[0])
    decreases |common|
  {
    if common != "" {
      assert (common + a)[1..] == common[1..] + a && (common + b)[1..] == common[1..] + b;
      LessExactly(common[1..], a, b);
    } else {
      assert common + a == a && common + b == b;
    }
  }

  lemma {:induction false} LastPiece(middle: string, val: string)
    requires val != "" && Trimmed(val) && '=' !in val
    ensures Pieces(middle + "=" + val, '=') != [] && Pieces(middle + "=" + val, '=')[|Pieces(middle + "=" + val, '=')| - 1] == val
    decreases |middle|
  {
    var i := FirstIndex(middle, '=');
    TrimOfTrimmed(val);
    PiecesNone(val, '=');
    if i == |middle| {
      assert middle[..i] == middle;
      PiecesSplice(middle, '=', val);
    } else {
      var front, back := middle[..i], middle[i + 1..];
      assert middle + "=" + val == front + ['='] + (back + "=" + val);
      PiecesSplice(front, '=', back + "=" + val);
      LastPiece(back, val);
    }
  }

  /** A field with several equal signs: the first piece is the key, the last the value, and what is
      between is dropped. */
  lemma {:induction false} ManyEqualSigns(key: string, middle: string, val: string)
    requires key != "" && Trimmed(key) && '=' !in key && val != "" && Trimmed(val) && '=' !in val
    ensures KeyValue(key + "=" + (middle + "=" + val)) == (key, val)
  {
    TrimOfTrimmed(key);
    PiecesSplice(key, '=', middle + "=" + val);
    LastPiece(middle, val);
  }

  /** Without an equal sign the whole field is the key. */
  lemma {:induction false} NoEqualSign(key: string)
    requires key != "" && Trimmed(key) && '=' !in key
    ensures KeyValue(key) == (key, "") && KeyValue(key + "=") == (key, "")
  {
    TrimOfTrimmed(key);
    PiecesNone(key, '=');
    PiecesSplice(key, '=', "");
    PiecesNone("", '=');
    assert key + ['='] + "" == key + "=";
  }

  /** Only a pair of quotes around the whole is taken off. */
  lemma {:induction false} QuotesComeOff(s: string)
    ensures Unquoted("\"" + s + "\"") == s
    ensures s == "" || s[0] != '"' || s[|s| - 1] != '"' || s == "\"" ==> Unquoted(s) == s
  {
    var q := "\"" + s + "\"";
    assert q[1..|q| - 1] == s;
  }

  // ----- the order of equal keys

  /** A new entry stands behind all entries with a smaller or the same key, and in front of those
      with a larger one; nothing else moves. */
  lemma {:induction false} EmplacedAt(m: Params, key: string, val: string) returns (k: nat)
    ensures k <= |m| && Emplace(m, key, val) == m[..k] + [(key, val)] + m[k..]
    ensures (forall i :: 0 <= i < k ==> !Less(key, m[i].0)) && (k < |m| ==> Less(key, m[k].0))
  {
    if m == [] || Less(key, m[0].0) {
      k := 0;
      assert m[..0] == [] && m[0..] == m && [] + [(key, val)] == [(key, val)];
    } else {
      var j := EmplacedAt(m[1..], key, val);
      k := j + 1;
      InFront(m, j, k, [(key, val)]);
    }
  }

  lemma {:induction false} InFront(m: Params, j: nat, k: nat, more: Params)
    requires m != [] && k == j + 1 <= |m|
    ensures [m[0]] + (m[1..][..j] + more + m[1..][j..]) == m[..k] + more + m[k..]
  {
    assert m[..k] == [m[0]] + m[1..][..j] && m[k..] == m[1..][j..];
  }
}
