/** Query strings: `params_to_query_str` and `parse_query_text`. */
module QueryText {
  import opened Sequences
  import opened Strings
  import opened Params
  import opened UrlCoding

  function Field(p: (string, string)): string
  {
    p.0 + "=" + Encoded(p.1)
  }

  /** `params_to_query_str` */
  function Query(m: Params): string
  {
    if m == [] then []
    else if |m| == 1 then Field(m[0])
    else Field(m[0]) + "&" + Query(m[1..])
  }

  method ParamsToQueryStr(m: Params) returns (query: string)
    ensures query == Query(m)
  {
    query := [];
    for i := 0 to |m|
      invariant query == Query(m[..i])
    {
      QueryGrows(m[..i], m[i]);
      assert m[..i] + [m[i]] == m[..i + 1];
      if i != 0 {
        query := query + "&";
      }
      query := query + m[i].0;
      query := query + "=";
      var escaped := EncodeQueryParam(m[i].1);
      query := query + escaped;
    }
    assert m[..|m|] == m;
  }

  /** One more field, behind an ampersand unless it is the first. */
  lemma {:induction false} QueryGrows(m: Params, p: (string, string))
    ensures Query(m + [p]) == (if m == [] then [] else Query(m) + "&") + p.0 + "=" + Encoded(p.1)
  {
    if m == [] {
      assert m + [p] == [p];
    } else {
      QueryAppends(m, p);
      RegroupFour(Query(m) + "&", p.0, "=", Encoded(p.1));
    }
  }

  lemma {:induction false} QueryAppends(m: Params, p: (string, string))
    requires m != []
    ensures Query(m + [p]) == Query(m) + "&" + Field(p)
  {
    var rest := m[1..];
    assert (m + [p])[0] == m[0] && (m + [p])[1..] == rest + [p];
    if rest == [] {
      assert rest + [p] == [p];
    } else {
      QueryAppends(rest, p);
      assert |m + [p]| > 1;
      RegroupFour(Field(m[0]) + "&", Query(rest), "&", Field(p));
    }
  }

  function PlusDecoded(t: string): string
  {
    Decoded(t, true)
  }

  function QueryParams(s: string): Params
  {
    Parsed(s, '&', PlusDecoded)
  }

  method ParseQueryText(s: string) returns (m: Params)
    ensures m == QueryParams(s)
  {
    m := ParseFields(s, '&', PlusDecoded);
  }

  /** A key that is written unescaped and read back as itself, and a value of bytes. */
  predicate Plain(p: (string, string))
  {
    && p.0 != [] && Trimmed(p.0) && '&' !in p.0 && '=' !in p.0 && '%' !in p.0 && '+' !in p.0
    && IsByteString(p.1)
  }

  predicate PlainParams(m: Params)
  {
    SortedByKey(m) && forall i :: 0 <= i < |m| ==> Plain(m[i])
  }

  /** The entries of `m` whose pair has not occurred in `seen` or before. */
  function Distinct(m: Params, seen: set<(string, string)>): (r: Params)
    decreases |m|
  {
    if m == [] then []
    else if m[0] in seen then Distinct(m[1..], seen)
    else [m[0]] + Distinct(m[1..], seen + {m[0]})
  }

  predicate NoDuplicates(m: Params)
  {
    forall i, j :: 0 <= i < j < |m| ==> m[i] != m[j]
  }

  lemma {:induction false} PlainDecodes(key: string)
    requires '%' !in key && '+' !in key
    ensures Decoded(key, true) == key
  {
    if key != [] {
      PlainDecodes(key[1..]);
      assert DecodeStep(key, 0, true) == ([key[0]], 1);
      assert key == [key[0]] + key[1..];
    }
  }

  lemma {:induction false} EncodedShape(v: string)
    ensures Trimmed(Encoded(v)) && '=' !in Encoded(v) && '&' !in Encoded(v)
  {
    EncodedAlphabet(v);
    var e := Encoded(v);
    if e != [] {
      assert e[0] in e && e[|e| - 1] in e;
    }
  }

  lemma {:induction false} FieldShape(p: (string, string))
    requires Plain(p)
    ensures '&' !in Field(p) && Piece(Field(p)) == [Field(p)]
    ensures KeyValue(Field(p)) == (p.0, Encoded(p.1))
    ensures Decoded(p.0, true) == p.0 && Decoded(Encoded(p.1), true) == p.1
  {
    var f, e := Field(p), Encoded(p.1);
    EncodedShape(p.1);
    assert f[0] == p.0[0];
    assert f[|f| - 1] == if e == [] then '=' else e[|e| - 1];
    TrimOfTrimmed(f);
    KeyValueOf(p.0, e);
    PlainDecodes(p.0);
    DecodeUndoesEncode(p.1, true);
  }

  function Fields(m: Params): (r: seq<string>)
    ensures |r| == |m|
  {
    if m == [] then [] else [Field(m[0])] + Fields(m[1..])
  }

  lemma {:induction false} PiecesOfQuery(m: Params)
    requires forall i :: 0 <= i < |m| ==> Plain(m[i])
    ensures Pieces(Query(m), '&') == Fields(m)
  {
    if m != [] {
      FieldShape(m[0]);
      PiecesOfQuery(m[1..]);
      if |m| == 1 {
        PiecesNone(Field(m[0]), '&');
      } else {
        PiecesSplice(Field(m[0]), '&', Query(m[1..]));
      }
    }
  }

  /** The cache of texts that were seen stands for the set of pairs that were seen. */
  ghost predicate CacheOf(cache: set<string>, seen: set<(string, string)>)
  {
    && (forall p :: p in seen ==> Plain(p) && Field(p) in cache)
    && (forall f :: f in cache ==> exists p :: p in seen && f == Field(p))
  }

  /** Two pairs with the same text are the same pair. */
  lemma {:induction false} FieldInjective(p: (string, string), q: (string, string))
    requires Plain(p) && Plain(q) && Field(p) == Field(q)
    ensures p == q
  {
    FieldShape(p);
    FieldShape(q);
  }

  lemma {:induction false} NewInCache(cache: set<string>, seen: set<(string, string)>, p: (string, string))
    requires CacheOf(cache, seen) && Plain(p) && p !in seen
    ensures Field(p) !in cache && CacheOf(cache + {Field(p)}, seen + {p})
  {
    forall q | q in seen && Field(q) == Field(p)
      ensures q == p
    {
      FieldInjective(q, p);
    }
  }

  lemma {:induction false} EnteredAtEnd(done: Params, p: (string, string))
    requires Plain(p) && forall i :: 0 <= i < |done| ==> !Less(p.0, done[i].0)
    ensures Entered(done, Field(p), PlusDecoded) == done + [p]
  {
    FieldShape(p);
    EmplaceAtEnd(done, p.0, p.1);
  }

  /** `m` can be appended to `done` entry by entry. */
  ghost predicate Follows(done: Params, m: Params)
  {
    forall i, j :: 0 <= i < |done| && 0 <= j < |m| ==> !Less(m[j].0, done[i].0)
  }

  /** One turn of the parsing callback: a text in the cache is skipped, another one appended. */
  lemma {:induction false} CollectedStep(done: Params, cache: set<string>, seen: set<(string, string)>, m: Params)
    requires m != [] && Plain(m[0]) && CacheOf(cache, seen)
    requires forall i :: 0 <= i < |done| ==> !Less(m[0].0, done[i].0)
    ensures Collected(done, cache, Fields(m), PlusDecoded)
         == if m[0] in seen then Collected(done, cache, Fields(m[1..]), PlusDecoded)
            else Collected(done + [m[0]], cache + {Field(m[0])}, Fields(m[1..]), PlusDecoded)
    ensures m[0] !in seen ==> CacheOf(cache + {Field(m[0])}, seen + {m[0]})
  {
    assert Fields(m)[0] == Field(m[0]) && Fields(m)[1..] == Fields(m[1..]);
    if m[0] !in seen {
      NewInCache(cache, seen, m[0]);
      EnteredAtEnd(done, m[0]);
    }
  }

  lemma {:induction false} FollowsTail(done: Params, m: Params)
    requires m != [] && PlainParams(m) && Follows(done, m)
    ensures PlainParams(m[1..]) && Follows(done, m[1..]) && Follows(done + [m[0]], m[1..])
  {
  }

  lemma {:induction false} CollectedFields(done: Params, cache: set<string>, seen: set<(string, string)>, m: Params)
    requires PlainParams(m) && Follows(done, m) && CacheOf(cache, seen)
    ensures Collected(done, cache, Fields(m), PlusDecoded) == done + Distinct(m, seen)
    decreases |m|
  {
    if m != [] {
      var p, rest := m[0], m[1..];
      CollectedStep(done, cache, seen, m);
      FollowsTail(done, m);
      if p in seen {
        CollectedFields(done, cache, seen, rest);
      } else {
        CollectedFields(done + [p], cache + {Field(p)}, seen + {p}, rest);
        ghost var later := Distinct(rest, seen + {p});
        assert Distinct(m, seen) == [p] + later;
        Regroup(done, [p], later);
      }
    }
  }

  lemma {:induction false} DistinctKeeps(m: Params, seen: set<(string, string)>)
    ensures |Distinct(m, seen)| <= |m|
    ensures Distinct(m, seen) == m <==> NoDuplicates(m) && forall i :: 0 <= i < |m| ==> m[i] !in seen
    decreases |m|
  {
    if m != [] && m[0] in seen {
      DistinctKeeps(m[1..], seen);
    } else if m != [] {
      var p, rest := m[0], m[1..];
      DistinctKeeps(rest, seen + {p});
      assert m == [p] + rest;
      assert Distinct(m, seen) == m <==> Distinct(rest, seen + {p}) == rest;
    }
  }

  /** Reading a written query gives the distinct entries in order, so the round trip is exact
      just when no entry is written twice. */
  lemma {:induction false} QueryRoundTrip(m: Params)
    requires PlainParams(m)
    ensures QueryParams(Query(m)) == Distinct(m, {})
    ensures QueryParams(Query(m)) == m <==> NoDuplicates(m)
  {
    PiecesOfQuery(m);
    CollectedFields([], {}, {}, m);
    DistinctKeeps(m, {});
  }
}
