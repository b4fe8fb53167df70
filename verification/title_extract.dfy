/** What the generator takes from a `<game>` element, and what a search tells about it. */
module TitleExtract {
  import opened Wrappers
  import opened TitleDb

  /** The languages of the synopses, in the order of their places. */
  const LANG_ORDER: seq<string> := ["JA", "EN", "FR", "DE", "IT", "ES", "ZHCN", "KO", "NL", "PT", "RU", "ZHTW"]

  /** The string fields, stripped and encoded. */
  datatype Strings = Strings(developer: Bytes, publisher: Bytes, genre: Bytes, region: Bytes, languages: Bytes,
                             ratingType: Bytes, ratingValue: Bytes, ratingDescriptors: Bytes, wifiFeatures: Bytes)

  /** A `<locale>` element: its language, and its cleaned synopsis, empty when there is none. */
  datatype Locale = Locale(lang: string, synopsis: Bytes)

  datatype Element = Element(id: Option<seq<nat>>, strings: Strings, year: int, month: int, day: int,
                             wifi: int, input: int, locales: seq<Locale>)

  /** The text is the last synopsis in this language, or nothing when there is none. */
  ghost predicate LastSynopsis(locales: seq<Locale>, lang: string, text: Bytes)
  {
    if text == [] then !HasSynopsis(locales, lang)
    else exists k :: IsLast(locales, k, lang, text)
  }

  ghost predicate IsLast(locales: seq<Locale>, k: int, lang: string, text: Bytes)
  {
    && 0 <= k < |locales| && locales[k] == Locale(lang, text)
    && forall m :: k < m < |locales| && locales[m].lang == lang ==> locales[m].synopsis == []
  }

  ghost predicate HasSynopsis(locales: seq<Locale>, lang: string)
  {
    exists k :: 0 <= k < |locales| && locales[k].lang == lang && locales[k].synopsis != []
  }

  // ----- extraction

  /** `LANG_ORDER.index`, or the number of languages. */
  method IndexOf(lang: string) returns (j: nat)
    ensures j <= 12 && (j < 12 ==> LANG_ORDER[j] == lang)
    ensures j == 12 ==> lang !in LANG_ORDER
    ensures forall i :: 0 <= i < j ==> LANG_ORDER[i] != lang
  {
    j := 0;
    while j < 12 && LANG_ORDER[j] != lang
      invariant j <= 12 && forall i :: 0 <= i < j ==> LANG_ORDER[i] != lang
    {
      j := j + 1;
    }
  }

  lemma {:induction false} NoLanguageTwice(i: nat, j: nat)
    requires i < 12 && j < 12 && LANG_ORDER[i] == LANG_ORDER[j]
    ensures i == j
  {
    LettersDiffer(i);
    LettersDiffer(j);
  }

  /** The language's number can be told from its first letters. */
  lemma {:induction false} LettersDiffer(i: nat)
    requires i < 12
    ensures i == Number(LANG_ORDER[i])
  {
  }

  function Number(lang: string): nat
    requires |lang| >= 2
  {
    match lang[0]
    case 'J' => 0
    case 'E' => if lang[1] == 'N' then 1 else 5
    case 'F' => 2
    case 'D' => 3
    case 'I' => 4
    case 'Z' => if |lang| == 4 && lang[2] == 'C' then 6 else 11
    case 'K' => 7
    case 'N' => 8
    case 'P' => 9
    case _ => 10
  }

  lemma {:induction false} OneMoreLocale(locales: seq<Locale>, k: nat, lang: string, text: Bytes)
    requires k < |locales| && LastSynopsis(locales[..k], lang, text)
    ensures LastSynopsis(locales[..k + 1], lang,
                         if locales[k].lang == lang && locales[k].synopsis != [] then locales[k].synopsis else text)
  {
    var before, after := locales[..k], locales[..k + 1];
    assert forall i :: 0 <= i < k ==> after[i] == before[i];
    if locales[k].lang == lang && locales[k].synopsis != [] {
      assert IsLast(after, k, lang, locales[k].synopsis);
    } else if text != [] {
      var i :| IsLast(before, i, lang, text);
      assert IsLast(after, i, lang, text);
    }
  }

  ghost predicate Placed(locales: seq<Locale>, synopses: seq<Bytes>)
  {
    |synopses| == 12 && forall j :: 0 <= j < 12 ==> LastSynopsis(locales, LANG_ORDER[j], synopses[j])
  }

  method PlaceSynopses(locales: seq<Locale>) returns (synopses: seq<Bytes>)
    ensures Placed(locales, synopses)
  {
    synopses := seq(12, j => []);
    for k := 0 to |locales|
      invariant Placed(locales[..k], synopses)
    {
      ghost var was := synopses;
      var j := IndexOf(locales[k].lang);
      if j < 12 && locales[k].synopsis != [] {
        synopses := synopses[j := locales[k].synopsis];
      }
      forall i | 0 <= i < 12
        ensures LastSynopsis(locales[..k + 1], LANG_ORDER[i], synopses[i])
      {
        OneMoreLocale(locales, k, LANG_ORDER[i], was[i]);
        if j < 12 && LANG_ORDER[i] == LANG_ORDER[j] {
          NoLanguageTwice(i, j);
        }
      }
    }
    assert locales[..|locales|] == locales;
  }

  function TextsOf(s: Strings): (r: seq<Bytes>)
    ensures |r| == 9
  {
    [s.developer, s.publisher, s.genre, s.region, s.languages,
     s.ratingType, s.ratingValue, s.ratingDescriptors, s.wifiFeatures]
  }

  /** `n` is `x` brought into the range from 0 to `max`. */
  predicate Clamped(n: int, x: int, max: int)
  {
    0 <= n <= max && (0 <= x <= max ==> n == x) && (x < 0 ==> n == 0) && (x > max ==> n == max)
  }

  predicate NumbersClamped(f: Fields, e: Element)
  {
    && Clamped(f.year, e.year, 65535) && Clamped(f.month, e.month, 255) && Clamped(f.day, e.day, 255)
    && Clamped(f.wifi, e.wifi, 255) && Clamped(f.input, e.input, 255)
  }

  ghost predicate IsExtracted(f: Fields, e: Element)
  {
    && FieldsOk(f) && NumbersClamped(f, e)
    && f.texts[..9] == TextsOf(e.strings) && Placed(e.locales, f.texts[9..])
  }

  function Clamp(x: int, max: nat): (n: nat)
    ensures Clamped(n, x, max)
  {
    if x < 0 then 0 else if x > max then max else x
  }

  /** `extract` */
  method Extract(e: Element) returns (f: Fields)
    ensures IsExtracted(f, e)
  {
    var synopses := PlaceSynopses(e.locales);
    f := Fields(Clamp(e.year, 65535), Clamp(e.month, 255), Clamp(e.day, 255), Clamp(e.wifi, 255), Clamp(e.input, 255),
                TextsOf(e.strings) + synopses);
  }

  // ----- what a search tells

  /** The element's id is one of four ASCII characters, and these are its bytes. */
  predicate HasId(e: Element, id: Bytes)
  {
    e.id.Some? && |e.id.value| == 4 && |id| == 4 && forall i :: 0 <= i < 4 ==> e.id.value[i] < 128 && id[i] == e.id.value[i]
  }

  /** The last element with the id. */
  predicate IsLastWith(elements: seq<Element>, k: nat, id: Bytes)
  {
    k < |elements| && HasId(elements[k], id) && forall m :: k < m < |elements| ==> !HasId(elements[m], id)
  }

  /** The first language, in order, that has a synopsis. */
  ghost predicate FirstLanguage(locales: seq<Locale>, j: nat)
  {
    j < 12 && HasSynopsis(locales, LANG_ORDER[j]) && forall m :: 0 <= m < j ==> !HasSynopsis(locales, LANG_ORDER[m])
  }

  /** The synopsis in the language asked for when there is one, else the English one, else the one
      in the first language that has any. */
  ghost predicate SynopsisTold(synopsis: Bytes, locales: seq<Locale>, language: int)
  {
    if 0 <= language < 12 && HasSynopsis(locales, LANG_ORDER[language]) then LastSynopsis(locales, LANG_ORDER[language], synopsis)
    else if HasSynopsis(locales, "EN") then LastSynopsis(locales, "EN", synopsis)
    else
      && (forall j: nat :: FirstLanguage(locales, j) ==> LastSynopsis(locales, LANG_ORDER[j], synopsis))
      && ((forall j :: 0 <= j < 12 ==> !HasSynopsis(locales, LANG_ORDER[j])) ==> synopsis == [])
  }

  ghost predicate Tells(info: TitleInfo, e: Element, language: int)
  {
    && Clamped(info.year, e.year, 65535) && Clamped(info.month, e.month, 255) && Clamped(info.day, e.day, 255)
    && Clamped(info.wifi, e.wifi, 255) && Clamped(info.input, e.input, 255)
    && info.texts == [e.strings.developer, e.strings.publisher, e.strings.genre, e.strings.region, e.strings.languages,
                      e.strings.ratingType, e.strings.ratingValue, e.strings.ratingDescriptors, e.strings.wifiFeatures]
    && SynopsisTold(info.synopsis, e.locales, language)
  }

  lemma {:induction false} SynopsisFollows(synopsis: Bytes, texts: seq<Bytes>, locales: seq<Locale>, language: int)
    requires SynopsisIs(synopsis, texts, language) && Placed(locales, texts[9..])
    ensures SynopsisTold(synopsis, locales, language)
  {
    var placed := texts[9..];
    forall j | 0 <= j < 12
      ensures LastSynopsis(locales, LANG_ORDER[j], texts[9 + j])
      ensures texts[9 + j] != [] <==> HasSynopsis(locales, LANG_ORDER[j])
    {
      assert placed[j] == texts[9 + j];
      if texts[9 + j] != [] {
        var k :| IsLast(locales, k, LANG_ORDER[j], texts[9 + j]);
        assert locales[k].synopsis != [];
      }
    }
    assert LANG_ORDER[1] == "EN" && texts[9 + 1] == texts[10];
    if texts[10] == [] {
      forall j: nat | FirstLanguage(locales, j)
        ensures texts[9 + j] != [] && NoneUpTo(texts, 9 + j)
      {
        assert forall m :: 9 <= m < 9 + j ==> texts[m] == texts[9 + (m - 9)];
      }
      if forall j :: 0 <= j < 12 ==> !HasSynopsis(locales, LANG_ORDER[j]) {
        assert forall m :: 9 <= m < 21 ==> texts[m] == texts[9 + (m - 9)];
        assert NoneUpTo(texts, 21);
      }
    }
  }

  lemma {:induction false} InfoTells(info: TitleInfo, f: Fields, e: Element, language: int)
    requires InfoIs(info, f, language) && IsExtracted(f, e)
    ensures Tells(info, e, language)
  {
    SynopsisFollows(info.synopsis, f.texts, e.locales, language);
  }

  ghost predicate AreExtracted(games: seq<Game>, elements: seq<Element>)
  {
    && |games| == |elements|
    && forall k :: 0 <= k < |games| ==> games[k].id == elements[k].id && IsExtracted(games[k].fields, elements[k])
  }

  method ExtractAll(elements: seq<Element>) returns (games: seq<Game>)
    ensures AreExtracted(games, elements)
  {
    games := [];
    for k := 0 to |elements|
      invariant AreExtracted(games, elements[..k])
    {
      var fields := Extract(elements[k]);
      games := games + [Game(elements[k].id, fields)];
    }
    assert elements[..|elements|] == elements;
  }

  /** The game with the id, among extracted ones. */
  lemma {:induction false} SameId(g: Game, e: Element, id: Bytes)
    requires g.id == e.id
    ensures Kept(g) && Encode(g.id.value) == id <==> HasId(e, id)
  {
    if Kept(g) {
      var code := Encode(g.id.value);
      if HasId(e, id) {
        assert forall i :: 0 <= i < 4 ==> code[i] == id[i];
        assert code == id;
      }
    }
  }

  lemma {:induction false} LastIs(games: seq<Game>, elements: seq<Element>, id: Bytes)
    requires |games| == |elements| && forall k :: 0 <= k < |games| ==> games[k].id == elements[k].id
    ensures LastWith(games, id) < 0 ==> forall k :: 0 <= k < |elements| ==> !HasId(elements[k], id)
    ensures LastWith(games, id) >= 0 ==> IsLastWith(elements, LastWith(games, id), id)
    decreases |games|
  {
    if games != [] {
      var n := |games| - 1;
      SameId(games[n], elements[n], id);
      if !HasId(elements[n], id) {
        LastIs(games[..n], elements[..n], id);
        assert forall k :: 0 <= k < n ==> elements[..n][k] == elements[k];
      }
    }
  }

  /** Main result, from the elements to the search: it finds an id just when some element has it,
      and then tells what the last such element says, with the synopsis in the language asked for,
      else in English, else in the first language there is. */
  method ExtractAndSearch(elements: seq<Element>, gameId: Bytes, language: int) returns (file: Option<Bytes>,
                          info: Option<TitleInfo>)
    ensures file.Some? ==> (info.None? <==> forall k :: 0 <= k < |elements| ==> !HasId(elements[k], gameId))
    ensures file.Some? ==> forall k: nat :: IsLastWith(elements, k, gameId) ==> info.Some? && Tells(info.value, elements[k], language)
  {
    var games := ExtractAll(elements);
    file, info := GenerateAndSearch(games, gameId, language);
    LastIs(games, elements, gameId);
    ghost var k := LastWith(games, gameId);
    if file.Some? && k >= 0 {
      InfoTells(info.value, games[k].fields, elements[k], language);
      assert HasId(elements[k], gameId);
      assert forall m: nat :: IsLastWith(elements, m, gameId) ==> m == k;
    }
  }
}
