/** `Params`: a multimap from strings to strings, filled from `key=value` fields. */
module Params {
  import opened Strings

  /** The entries in iteration order: keys ascending, equal keys in order of insertion. */
  type Params = seq<(string, string)>

  /** `std::string`'s order, byte by byte. */
  predicate Less(a: string, b: string)
  {
    b != [] && (a == [] || a[0] < b[0] || (a[0] == b[0] && Less(a[1..], b[1..])))
  }

  /** `emplace`: the new entry goes behind every entry with the same or a smaller key. */
  function Emplace(m: Params, key: string, val: string): Params
  {
    if m == [] || Less(key, m[0].0) then [(key, val)] + m else [m[0]] + Emplace(m[1..], key, val)
  }

  predicate SortedByKey(m: Params)
  {
    forall i, j :: 0 <= i < j < |m| ==> !Less(m[j].0, m[i].0)
  }

  lemma {:induction false} EmplaceAtEnd(m: Params, key: string, val: string)
    requires forall i :: 0 <= i < |m| ==> !Less(key, m[i].0)
    ensures Emplace(m, key, val) == m + [(key, val)]
  {
    if m != [] {
      EmplaceAtEnd(m[1..], key, val);
    }
  }

  /** `find`: the index of the first entry with this key, or `|m|`. */
  function FindKey(m: Params, key: string): (r: nat)
    ensures r <= |m|
    ensures r < |m| ==> m[r].0 == key
  {
    if m == [] || m[0].0 == key then 0 else 1 + FindKey(m[1..], key)
  }

  /** The first piece is the key and the last of the others, if any, the value. */
  function KeyValue(kv: string): (string, string)
  {
    var pieces := Pieces(kv, '=');
    if pieces == [] then ([], [])
    else (pieces[0], if |pieces| == 1 then [] else pieces[|pieces| - 1])
  }

  function Entered(m: Params, kv: string, conv: string -> string): Params
  {
    var (key, val) := KeyValue(kv);
    if key == [] then m else Emplace(m, conv(key), conv(val))
  }

  /** What the parsing callback makes of the fields `kvs`, skipping the ones in the cache. */
  function Collected(m: Params, cache: set<string>, kvs: seq<string>, conv: string -> string): Params
    decreases |kvs|
  {
    if kvs == [] then m
    else if kvs[0] in cache then Collected(m, cache, kvs[1..], conv)
    else Collected(Entered(m, kvs[0], conv), cache + {kvs[0]}, kvs[1..], conv)
  }

  function Parsed(s: string, sep: char, conv: string -> string): Params
  {
    Collected([], {}, Pieces(s, sep), conv)
  }

  /** The nested splitting loops of `parse_query_text` and `parse_disposition_params`. */
  method ParseFields(s: string, sep: char, conv: string -> string) returns (m: Params)
    ensures m == Parsed(s, sep, conv)
  {
    m := [];
    var cache: set<string> := {};
    var kvs := Split(s, sep);
    for i := 0 to |kvs|
      invariant Parsed(s, sep, conv) == Collected(m, cache, kvs[i..], conv)
    {
      assert kvs[i..][1..] == kvs[i + 1..];
      if kvs[i] !in cache {
        cache := cache + {kvs[i]};
        var pieces := Split(kvs[i], '=');
        var key, val: string := [], [];
        for j := 0 to |pieces|
          invariant j == 0 ==> key == [] && val == []
          invariant j > 0 ==> key == pieces[0] && val == if j == 1 then [] else pieces[j - 1]
        {
          PiecesNonEmpty(kvs[i], '=');
          if key == [] {
            key := pieces[j];
          } else {
            val := pieces[j];
          }
        }
        if key != [] {
          m := Emplace(m, conv(key), conv(val));
        }
      }
    }
  }

  lemma {:induction false} PiecesNonEmpty(s: string, d: char)
    ensures forall i :: 0 <= i < |Pieces(s, d)| ==> Pieces(s, d)[i] != []
    decreases |s|
  {
    var i := FirstIndex(s, d);
    if i < |s| {
      PiecesNonEmpty(s[i + 1..], d);
    }
  }

  /** `trim_double_quotes_copy` */
  function Unquoted(s: string): string
  {
    if |s| >= 2 && s[0] == '"' && s[|s| - 1] == '"' then s[1..|s| - 1] else s
  }

  /** A field `key=value` falls apart into its two trimmed halves. */
  lemma {:induction false} KeyValueOf(key: string, val: string)
    requires key != [] && Trimmed(key) && '=' !in key
    requires Trimmed(val) && '=' !in val
    ensures KeyValue(key + "=" + val) == (key, val)
  {
    PiecesSplice(key, '=', val);
    PiecesNone(val, '=');
    TrimOfTrimmed(key);
    TrimOfTrimmed(val);
  }
}
