/** The title database: the file format that the generator writes and the frontend searches. */
module TitleDb {
  import opened Wrappers
  import opened Sequences

  const HEADER_SIZE: nat := 8
  const RECORD_SIZE: nat := 178
  const STRING_FIELDS: nat := 9
  const LANGUAGES: nat := 12
  const ENGLISH: nat := 1
  const TEXTS: nat := 21
  const U32: nat := 0x1_0000_0000

  type Byte = b: nat | b < 256 witness 0

  type Bytes = seq<Byte>

  /** A text's place in the blob. */
  datatype Ref = Ref(offset: nat, length: nat)

  /** What is kept of a game: the numbers, clamped to their width, and the encoded texts, those of
      the string fields first and then a synopsis for each language. */
  datatype Fields = Fields(year: nat, month: nat, day: nat, wifi: nat, input: nat, texts: seq<Bytes>)

  predicate FieldsOk(f: Fields)
  {
    f.year < 65536 && f.month < 256 && f.day < 256 && f.wifi < 256 && f.input < 256 && |f.texts| == TEXTS
  }

  datatype Entry = Entry(id: Bytes, fields: Fields)

  predicate EntryOk(e: Entry) { |e.id| == 4 && FieldsOk(e.fields) }

  predicate EntriesOk(entries: seq<Entry>)
  {
    forall i :: 0 <= i < |entries| ==> EntryOk(entries[i])
  }

  // ----- little-endian numbers

  function Le(n: nat, width: nat): (r: Bytes)
    ensures |r| == width
  {
    if width == 0 then [] else [n % 256] + Le(n / 256, width - 1)
  }

  function FromLe(s: Bytes): nat
  {
    if s == [] then 0 else s[0] + 256 * FromLe(s[1..])
  }

  function Limit(width: nat): nat
  {
    if width == 0 then 1 else 256 * Limit(width - 1)
  }

  lemma {:induction false} LeBack(n: nat, width: nat)
    requires n < Limit(width)
    ensures FromLe(Le(n, width)) == n
  {
    if width > 0 {
      LeBack(n / 256, width - 1);
      assert Le(n, width)[1..] == Le(n / 256, width - 1);
    }
  }

  lemma {:induction false} Le4Back(n: nat)
    requires n < U32
    ensures FromLe(Le(n, 4)) == n
  {
    assert Limit(1) == 256 && Limit(2) == 65536 && Limit(3) == 16777216 && Limit(4) == U32;
    LeBack(n, 4);
  }

  lemma {:induction false} Le2Back(n: nat)
    requires n < 65536
    ensures FromLe(Le(n, 2)) == n
  {
    assert Limit(1) == 256 && Limit(2) == 65536;
    LeBack(n, 2);
  }

  // ----- the layout

  function Sum(texts: seq<Bytes>): nat
  {
    if texts == [] then 0 else |texts[0]| + Sum(texts[1..])
  }

  function Concat(parts: seq<Bytes>): (r: Bytes)
    ensures |r| == Sum(parts)
  {
    if parts == [] then [] else parts[0] + Concat(parts[1..])
  }

  /** The places of texts that are put one behind the other from `base` on. */
  function Refs(texts: seq<Bytes>, base: nat): (r: seq<Ref>)
    ensures |r| == |texts|
  {
    if texts == [] then [] else [Ref(base, |texts[0]|)] + Refs(texts[1..], base + |texts[0]|)
  }

  function PackRefs(refs: seq<Ref>): (r: Bytes)
    ensures |r| == 8 * |refs|
  {
    if refs == [] then [] else Le(refs[0].offset, 4) + Le(refs[0].length, 4) + PackRefs(refs[1..])
  }

  function PackNumbers(f: Fields): (r: Bytes)
    requires FieldsOk(f)
    ensures |r| == 6
  {
    Le(f.year, 2) + [f.month, f.day, f.wifi, f.input]
  }

  function Record(e: Entry, base: nat): (r: Bytes)
    requires EntryOk(e)
    ensures |r| == RECORD_SIZE
  {
    e.id + PackNumbers(e.fields) + PackRefs(Refs(e.fields.texts, base))
  }

  function Index(entries: seq<Entry>, base: nat): (r: Bytes)
    requires EntriesOk(entries)
    ensures |r| == RECORD_SIZE * |entries|
  {
    if entries == [] then []
    else Record(entries[0], base) + Index(entries[1..], base + Sum(entries[0].fields.texts))
  }

  function Blob(entries: seq<Entry>): Bytes
  {
    if entries == [] then [] else Concat(entries[0].fields.texts) + Blob(entries[1..])
  }

  const MAGIC: Bytes := [84, 68, 66, 51]

  function File(entries: seq<Entry>): Bytes
    requires EntriesOk(entries)
  {
    MAGIC + Le(|entries|, 4) + Index(entries, 0) + Blob(entries)
  }

  /** Every place fits into the 32-bit fields. */
  predicate RefsFit(refs: seq<Ref>)
  {
    forall i :: 0 <= i < |refs| ==> refs[i].offset < U32 && refs[i].length < U32
  }

  predicate AllFit(entries: seq<Entry>, base: nat)
  {
    entries != [] ==>
      RefsFit(Refs(entries[0].fields.texts, base)) && AllFit(entries[1..], base + Sum(entries[0].fields.texts))
  }

  // ----- reading it back

  /** Text `j` stands where its place says, behind `front` and whatever `back` follows. */
  lemma {:induction false} TextAt(front: Bytes, texts: seq<Bytes>, back: Bytes, j: nat)
    requires j < |texts|
    ensures var r := Refs(texts, |front|)[j];
            var blob := front + Concat(texts) + back;
            r.offset + r.length <= |blob| && blob[r.offset..r.offset + r.length] == texts[j]
    decreases j
  {
    var blob := front + Concat(texts) + back;
    if j == 0 {
      assert blob == front + (texts[0] + (Concat(texts[1..]) + back));
    } else {
      assert blob == (front + texts[0]) + Concat(texts[1..]) + back;
      TextAt(front + texts[0], texts[1..], back, j - 1);
    }
  }

  lemma {:induction false} PackedAt(refs: seq<Ref>, j: nat)
    requires j < |refs|
    ensures PackRefs(refs)[8 * j..8 * j + 4] == Le(refs[j].offset, 4)
    ensures PackRefs(refs)[8 * j + 4..8 * j + 8] == Le(refs[j].length, 4)
    decreases j
  {
    var head, rest := Le(refs[0].offset, 4) + Le(refs[0].length, 4), PackRefs(refs[1..]);
    if j == 0 {
      assert PackRefs(refs)[0..4] == Le(refs[0].offset, 4);
      assert PackRefs(refs)[4..8] == Le(refs[0].length, 4);
    } else {
      PackedAt(refs[1..], j - 1);
      Behind(head, rest, 8 * (j - 1), 8 * (j - 1) + 4);
      Behind(head, rest, 8 * (j - 1) + 4, 8 * (j - 1) + 8);
    }
  }

  lemma {:induction false} Behind(head: Bytes, rest: Bytes, i: nat, j: nat)
    requires i <= j <= |rest|
    ensures (head + rest)[|head| + i..|head| + j] == rest[i..j]
  {
  }

  lemma {:induction false} Inside(head: Bytes, mid: Bytes, tail: Bytes, i: nat, j: nat)
    requires i <= j <= |mid|
    ensures (head + mid + tail)[|head| + i..|head| + j] == mid[i..j]
  {
  }

  // ----- the reader

  /** `memcmp` on ids. */
  function Compare(a: Bytes, b: Bytes): int
    requires |a| == |b|
  {
    if a == [] then 0
    else if a[0] != b[0] then a[0] as int - b[0] as int
    else Compare(a[1..], b[1..])
  }

  lemma {:induction false} CompareOrder(a: Bytes, b: Bytes, c: Bytes)
    requires |a| == |b| == |c|
    ensures Compare(a, b) == 0 <==> a == b
    ensures Compare(a, b) == -Compare(b, a)
    ensures Compare(a, b) < 0 && Compare(b, c) < 0 ==> Compare(a, c) < 0
    decreases |a|
  {
    if a != [] {
      CompareOrder(a[1..], b[1..], c[1..]);
      assert a == b <==> a[0] == b[0] && a[1..] == b[1..];
    }
  }

  /** The first different byte decides. */
  lemma {:induction false} CompareAt(a: Bytes, b: Bytes, k: nat)
    requires |a| == |b| && k < |a| && a[..k] == b[..k] && a[k] != b[k]
    ensures Compare(a, b) < 0 <==> a[k] < b[k]
    decreases k
  {
    if k > 0 {
      assert a[..k][0] == a[0] && b[..k][0] == b[0];
      assert a[1..][..k - 1] == a[..k][1..] && b[1..][..k - 1] == b[..k][1..];
      CompareAt(a[1..], b[1..], k - 1);
    }
  }

  /** A loaded file. */
  datatype Db = Db(file: Bytes, count: nat)
  {
    predicate Ok() { HEADER_SIZE + RECORD_SIZE * count <= |file| }

    function TextBase(): nat { HEADER_SIZE + RECORD_SIZE * count }

    function Rec(i: nat): (r: Bytes)
      requires Ok() && i < count
      ensures |r| == RECORD_SIZE
    {
      file[HEADER_SIZE + RECORD_SIZE * i..HEADER_SIZE + RECORD_SIZE * i + RECORD_SIZE]
    }

    function Id(i: nat): (r: Bytes)
      requires Ok() && i < count
      ensures |r| == 4
    {
      Rec(i)[..4]
    }

    predicate Holds(ref: Ref)
    {
      TextBase() + ref.offset + ref.length <= |file|
    }

    function TextOf(ref: Ref): Bytes
      requires Holds(ref)
    {
      file[TextBase() + ref.offset..TextBase() + ref.offset + ref.length]
    }

    /** All places lead into the file, and the ids ascend. */
    ghost predicate Searchable()
    {
      && Ok()
      && (forall i, j :: 0 <= i < count && 0 <= j < TEXTS ==> Holds(RefAt(Rec(i), j)))
      && (forall i, j :: 0 <= i < j < count ==> Compare(Id(i), Id(j)) < 0)
    }
  }

  /** The place number `j` in a record. */
  function RefAt(rec: Bytes, j: nat): Ref
    requires |rec| == RECORD_SIZE && j < TEXTS
  {
    Ref(FromLe(rec[10 + 8 * j..14 + 8 * j]), FromLe(rec[14 + 8 * j..18 + 8 * j]))
  }

  /** What a search returns: the numbers, the texts of the string fields in their order, and one synopsis. */
  datatype TitleInfo = TitleInfo(year: nat, month: nat, day: nat, wifi: nat, input: nat, texts: seq<Bytes>, synopsis: Bytes)

  function FirstNonEmpty(texts: seq<Bytes>): Bytes
  {
    if texts == [] then [] else if texts[0] != [] then texts[0] else FirstNonEmpty(texts[1..])
  }

  /** The synopsis in the language asked for, else in English, else in the first language that has one. */
  function Select(synopses: seq<Bytes>, language: int): Bytes
    requires |synopses| == LANGUAGES
  {
    if 0 <= language < LANGUAGES && synopses[language] != [] then synopses[language]
    else if synopses[ENGLISH] != [] then synopses[ENGLISH]
    else FirstNonEmpty(synopses)
  }

  function InfoOf(f: Fields, language: int): TitleInfo
    requires FieldsOk(f)
  {
    TitleInfo(f.year, f.month, f.day, f.wifi, f.input, f.texts[..STRING_FIELDS], Select(f.texts[STRING_FIELDS..], language))
  }

  /** No text from place 9 up to place `k`: no synopsis in the languages before number `k - 9`. */
  predicate NoneUpTo(texts: seq<Bytes>, k: nat)
  {
    forall m :: 9 <= m < k && m < |texts| ==> texts[m] == []
  }

  /** The synopsis of 21 texts for a language: its own when there is one, else that at place 10,
      else the first there is. */
  predicate SynopsisIs(synopsis: Bytes, texts: seq<Bytes>, language: int)
  {
    && |texts| == 21
    && if 0 <= language < 12 && texts[9 + language] != [] then synopsis == texts[9 + language]
       else if texts[10] != [] then synopsis == texts[10]
       else
         && (forall k :: 9 <= k < 21 && texts[k] != [] && NoneUpTo(texts, k) ==> synopsis == texts[k])
         && (NoneUpTo(texts, 21) ==> synopsis == [])
  }

  predicate InfoIs(info: TitleInfo, f: Fields, language: int)
  {
    && info.year == f.year && info.month == f.month && info.day == f.day && info.wifi == f.wifi && info.input == f.input
    && |f.texts| == 21 && info.texts == f.texts[..9] && SynopsisIs(info.synopsis, f.texts, language)
  }

  lemma {:induction false} FirstNonEmptyIs(texts: seq<Bytes>, k: nat)
    requires k <= |texts| && (forall m :: 0 <= m < k ==> texts[m] == []) && (k < |texts| ==> texts[k] != [])
    ensures FirstNonEmpty(texts) == if k < |texts| then texts[k] else []
  {
    if k > 0 {
      assert forall m :: 0 <= m < k - 1 ==> texts[1..][m] == texts[m + 1];
      FirstNonEmptyIs(texts[1..], k - 1);
    }
  }

  lemma {:induction false} SelectedIs(texts: seq<Bytes>, language: int)
    requires |texts| == TEXTS
    ensures SynopsisIs(Select(texts[9..], language), texts, language)
  {
    var synopses := texts[9..];
    assert forall k :: 0 <= k < 12 ==> synopses[k] == texts[9 + k];
    forall k | 9 <= k < 21 && texts[k] != [] && NoneUpTo(texts, k)
      ensures FirstNonEmpty(synopses) == texts[k]
    {
      FirstNonEmptyIs(synopses, k - 9);
    }
    if NoneUpTo(texts, 21) {
      FirstNonEmptyIs(synopses, 12);
    }
  }

  lemma {:induction false} InfoOfIs(f: Fields, language: int)
    requires FieldsOk(f)
    ensures InfoIs(InfoOf(f, language), f, language)
  {
    SelectedIs(f.texts, language);
  }

  /** Record `i` carries these fields. */
  ghost predicate Carries(db: Db, i: nat, f: Fields)
    requires db.Searchable() && i < db.count
  {
    var rec := db.Rec(i);
    && FieldsOk(f) && FromLe(rec[4..6]) == f.year && rec[6] == f.month && rec[7] == f.day && rec[8] == f.wifi && rec[9] == f.input
    && forall j :: 0 <= j < TEXTS ==> db.TextOf(RefAt(rec, j)) == f.texts[j]
  }

  /** `LoadTitleDatabase`: nothing unless the header is right and the whole index is there. */
  method LoadTitleDatabase(file: Bytes) returns (db: Option<Db>)
    ensures db.None? <==> |file| < HEADER_SIZE || file[..4] != MAGIC
                          || HEADER_SIZE + RECORD_SIZE * FromLe(file[4..8]) > |file|
    ensures db.Some? ==> db.value == Db(file, FromLe(file[4..8]))
  {
    if |file| < HEADER_SIZE { return None; }
    if file[..4] != MAGIC { return None; }
    var count := FromLe(file[4..8]);
    if HEADER_SIZE + RECORD_SIZE * count > |file| { return None; }
    return Some(Db(file, count));
  }

  method SelectSynopsis(db: Db, i: nat, language: int, ghost f: Fields) returns (text: Bytes)
    requires db.Searchable() && i < db.count && Carries(db, i, f)
    ensures text == Select(f.texts[STRING_FIELDS..], language) && SynopsisIs(text, f.texts, language)
  {
    SelectedIs(f.texts, language);
    var rec := db.Rec(i);
    ghost var synopses := f.texts[STRING_FIELDS..];
    assert forall k :: 0 <= k < LANGUAGES ==> synopses[k] == f.texts[STRING_FIELDS + k];
    if 0 <= language < LANGUAGES {
      var exact := db.TextOf(RefAt(rec, STRING_FIELDS + language));
      if exact != [] { return exact; }
    }
    var english := db.TextOf(RefAt(rec, STRING_FIELDS + ENGLISH));
    if english != [] { return english; }
    assert synopses[0..] == synopses;
    for k := 0 to LANGUAGES
      invariant FirstNonEmpty(synopses) == FirstNonEmpty(synopses[k..])
    {
      var candidate := db.TextOf(RefAt(rec, STRING_FIELDS + k));
      if candidate != [] { return candidate; }
      assert synopses[k..][1..] == synopses[k + 1..];
    }
    return [];
  }

  method ReadInfo(db: Db, i: nat, language: int, ghost f: Fields) returns (info: TitleInfo)
    requires db.Searchable() && i < db.count && Carries(db, i, f)
    ensures info == InfoOf(f, language)
  {
    var rec := db.Rec(i);
    var texts := [];
    for j := 0 to STRING_FIELDS
      invariant texts == f.texts[..j]
    {
      texts := texts + [db.TextOf(RefAt(rec, j))];
    }
    var synopsis := SelectSynopsis(db, i, language, f);
    return TitleInfo(FromLe(rec[4..6]), rec[6], rec[7], rec[8], rec[9], texts, synopsis);
  }

  /** `GetTitleInfo`: the binary search finds the record with the id, if there is one. `all` are
      the fields that the records carry. */
  method GetTitleInfo(db: Db, gameId: Bytes, language: int, ghost all: seq<Fields>) returns (info: Option<TitleInfo>)
    requires db.Searchable() && |all| == db.count && forall i :: 0 <= i < db.count ==> Carries(db, i, all[i])
    ensures info.None? <==> forall i :: 0 <= i < db.count ==> db.Id(i) != gameId
    ensures forall i :: 0 <= i < db.count && db.Id(i) == gameId ==>
      FieldsOk(all[i]) && info == Some(InfoOf(all[i], language)) && InfoIs(info.value, all[i], language)
  {
    if |gameId| != 4 { return None; }
    var lo: nat, hi: nat := 0, db.count;
    while lo < hi
      invariant lo <= hi <= db.count
      invariant forall i :: 0 <= i < lo ==> Compare(db.Id(i), gameId) < 0
      invariant forall i :: hi <= i < db.count ==> Compare(db.Id(i), gameId) > 0
      decreases hi - lo
    {
      var mid := lo + (hi - lo) / 2;
      var cmp := Compare(db.Id(mid), gameId);
      NeighboursOf(db, mid, gameId);
      if cmp < 0 {
        lo := mid + 1;
      } else if cmp > 0 {
        hi := mid;
      } else {
        var found := ReadInfo(db, mid, language, all[mid]);
        InfoOfIs(all[mid], language);
        return Some(found);
      }
    }
    forall i | 0 <= i < db.count
      ensures db.Id(i) != gameId
    {
      CompareOrder(db.Id(i), gameId, gameId);
    }
    return None;
  }

  /** What the comparison with one record says about all the others. */
  lemma {:induction false} NeighboursOf(db: Db, mid: nat, gameId: Bytes)
    requires db.Searchable() && mid < db.count && |gameId| == 4
    ensures Compare(db.Id(mid), gameId) < 0 ==> forall i :: 0 <= i < mid ==> Compare(db.Id(i), gameId) < 0
    ensures Compare(db.Id(mid), gameId) > 0 ==> forall i :: mid < i < db.count ==> Compare(db.Id(i), gameId) > 0
    ensures Compare(db.Id(mid), gameId) == 0 ==> forall i :: 0 <= i < db.count ==> (db.Id(i) == gameId <==> i == mid)
  {
    var m := db.Id(mid);
    CompareOrder(m, gameId, m);
    forall i | 0 <= i < mid
      ensures Compare(m, gameId) < 0 ==> Compare(db.Id(i), gameId) < 0
      ensures db.Id(i) != m
    {
      CompareOrder(db.Id(i), m, gameId);
    }
    forall i | mid < i < db.count
      ensures Compare(m, gameId) > 0 ==> Compare(db.Id(i), gameId) > 0
      ensures db.Id(i) != m
    {
      CompareOrder(gameId, m, db.Id(i));
      CompareOrder(db.Id(i), gameId, m);
      CompareOrder(m, db.Id(i), m);
    }
  }

  // ----- what was written is what is read

  lemma {:induction false} IndexAt(entries: seq<Entry>, base: nat, i: nat)
    requires EntriesOk(entries) && i < |entries|
    ensures Index(entries, base)[RECORD_SIZE * i..RECORD_SIZE * i + RECORD_SIZE] == Record(entries[i], base + |Blob(entries[..i])|)
    decreases i
  {
    var head, next := Record(entries[0], base), base + Sum(entries[0].fields.texts);
    if i == 0 {
      assert entries[..0] == [];
    } else {
      IndexAt(entries[1..], next, i - 1);
      Behind(head, Index(entries[1..], next), RECORD_SIZE * (i - 1), RECORD_SIZE * (i - 1) + RECORD_SIZE);
      assert entries[..i][1..] == entries[1..][..i - 1];
    }
  }

  lemma {:induction false} BlobSplit(entries: seq<Entry>, i: nat)
    requires i < |entries|
    ensures Blob(entries) == Blob(entries[..i]) + Concat(entries[i].fields.texts) + Blob(entries[i + 1..])
    decreases i
  {
    if i == 0 {
      assert entries[..0] == [];
      assert [] + Concat(entries[0].fields.texts) == Concat(entries[0].fields.texts);
    } else {
      var rest := entries[1..];
      BlobSplit(rest, i - 1);
      assert entries[..i][1..] == rest[..i - 1] && rest[i..] == entries[i + 1..] && rest[i - 1] == entries[i];
      BlobRegroup(Concat(entries[0].fields.texts), Blob(rest[..i - 1]), Concat(entries[i].fields.texts), Blob(entries[i + 1..]));
    }
  }

  lemma {:induction false} BlobRegroup(x: Bytes, y: Bytes, z: Bytes, w: Bytes)
    ensures x + (y + z + w) == x + y + z + w
  {
    RegroupFour(x, y, z, w);
  }

  lemma {:induction false} FitAt(entries: seq<Entry>, base: nat, i: nat)
    requires AllFit(entries, base) && i < |entries|
    ensures RefsFit(Refs(entries[i].fields.texts, base + |Blob(entries[..i])|))
    decreases i
  {
    if i == 0 {
      assert entries[..0] == [];
    } else {
      FitAt(entries[1..], base + Sum(entries[0].fields.texts), i - 1);
      assert entries[..i][1..] == entries[1..][..i - 1];
    }
  }

  predicate Ascending(entries: seq<Entry>)
    requires EntriesOk(entries)
  {
    forall i, j :: 0 <= i < j < |entries| ==> Compare(entries[i].id, entries[j].id) < 0
  }

  lemma {:induction false} RecordIs(entries: seq<Entry>, i: nat)
    requires EntriesOk(entries) && i < |entries|
    ensures var db := Db(File(entries), |entries|);
            db.Ok() && db.Rec(i) == Record(entries[i], |Blob(entries[..i])|)
  {
    IndexAt(entries, 0, i);
    Inside(MAGIC + Le(|entries|, 4), Index(entries, 0), Blob(entries), RECORD_SIZE * i, RECORD_SIZE * i + RECORD_SIZE);
  }

  /** The id and the numbers of a record. */
  lemma {:induction false} RecordFields(e: Entry, base: nat)
    requires EntryOk(e)
    ensures var rec := Record(e, base);
            && rec[..4] == e.id && FromLe(rec[4..6]) == e.fields.year && rec[6] == e.fields.month
            && rec[7] == e.fields.day && rec[8] == e.fields.wifi && rec[9] == e.fields.input
  {
    Le2Back(e.fields.year);
    assert Record(e, base)[4..6] == Le(e.fields.year, 2);
  }

  lemma {:induction false} RecordRef(e: Entry, base: nat, j: nat)
    requires EntryOk(e) && j < TEXTS && RefsFit(Refs(e.fields.texts, base))
    ensures RefAt(Record(e, base), j) == Refs(e.fields.texts, base)[j]
  {
    var refs, head := Refs(e.fields.texts, base), e.id + PackNumbers(e.fields);
    var packed, k := PackRefs(refs), 8 * j;
    PackedAt(refs, j);
    Behind(head, packed, k, k + 4);
    Behind(head, packed, k + 4, k + 8);
    assert (head + packed)[10 + k..14 + k] == Le(refs[j].offset, 4);
    assert (head + packed)[14 + k..18 + k] == Le(refs[j].length, 4);
    Le4Back(refs[j].offset);
    Le4Back(refs[j].length);
  }

  /** The place in a record leads to its text in the blob. */
  lemma {:induction false} BlobText(entries: seq<Entry>, i: nat, j: nat, ref: Ref)
    requires i < |entries| && j < |entries[i].fields.texts| && ref == Refs(entries[i].fields.texts, |Blob(entries[..i])|)[j]
    ensures ref.offset + ref.length <= |Blob(entries)|
    ensures Blob(entries)[ref.offset..ref.offset + ref.length] == entries[i].fields.texts[j]
  {
    BlobSplit(entries, i);
    TextAt(Blob(entries[..i]), entries[i].fields.texts, Blob(entries[i + 1..]), j);
  }

  lemma {:induction false} FileText(entries: seq<Entry>, ref: Ref)
    requires EntriesOk(entries) && ref.offset + ref.length <= |Blob(entries)|
    ensures var db := Db(File(entries), |entries|);
            db.Ok() && db.Holds(ref) && db.TextOf(ref) == Blob(entries)[ref.offset..ref.offset + ref.length]
  {
    Behind(MAGIC + Le(|entries|, 4) + Index(entries, 0), Blob(entries), ref.offset, ref.offset + ref.length);
  }

  lemma {:induction false} TextIs(entries: seq<Entry>, i: nat, j: nat)
    requires EntriesOk(entries) && AllFit(entries, 0) && i < |entries| && j < TEXTS
    ensures var db := Db(File(entries), |entries|);
            && db.Ok()
            && var ref := RefAt(db.Rec(i), j); db.Holds(ref) && db.TextOf(ref) == entries[i].fields.texts[j]
  {
    var base := |Blob(entries[..i])|;
    var ref := Refs(entries[i].fields.texts, base)[j];
    RecordIs(entries, i);
    FitAt(entries, 0, i);
    RecordRef(entries[i], base, j);
    BlobText(entries, i, j, ref);
    FileText(entries, ref);
  }

  /** Main result: a written file can be searched, and its records carry the ids and the fields
      that were written. */
  lemma {:induction false} WrittenIsRead(entries: seq<Entry>)
    requires EntriesOk(entries) && Ascending(entries) && AllFit(entries, 0) && |entries| < U32
    ensures var file, db := File(entries), Db(File(entries), |entries|);
            && |file| >= HEADER_SIZE && file[..4] == MAGIC && FromLe(file[4..8]) == |entries|
            && db.Searchable()
            && forall i :: 0 <= i < |entries| ==> db.Id(i) == entries[i].id && Carries(db, i, entries[i].fields)
  {
    var file, db := File(entries), Db(File(entries), |entries|);
    assert file[4..8] == Le(|entries|, 4);
    Le4Back(|entries|);
    forall i | 0 <= i < |entries|
      ensures db.Id(i) == entries[i].id
    {
      RecordIs(entries, i);
      RecordFields(entries[i], |Blob(entries[..i])|);
    }
    forall i, j | 0 <= i < |entries| && 0 <= j < TEXTS
      ensures db.Holds(RefAt(db.Rec(i), j)) && db.TextOf(RefAt(db.Rec(i), j)) == entries[i].fields.texts[j]
    {
      TextIs(entries, i, j);
    }
    forall i | 0 <= i < |entries|
      ensures Carries(db, i, entries[i].fields)
    {
      RecordIs(entries, i);
      RecordFields(entries[i], |Blob(entries[..i])|);
    }
  }

  function Two(lo: nat, hi: nat): nat { lo + 256 * hi }

  function Four(a: nat, b: nat, c: nat, d: nat): nat { a + 256 * b + 65536 * c + 16777216 * d }

  lemma {:induction false} FromFour(s: Bytes)
    requires |s| == 4
    ensures FromLe(s) == Four(s[0], s[1], s[2], s[3])
  {
    var s1 := s[1..];
    var s2, s3 := s1[1..], s1[1..][1..];
    assert s1[0] == s[1] && s2[0] == s[2] && s3[0] == s[3] && s3[1..] == [];
    assert FromLe(s3) == s[3] && FromLe(s2) == Two(s[2], s[3]);
    assert FromLe(s1) == Two(s[1], FromLe(s2));
  }

  lemma {:induction false} FromTwo(s: Bytes)
    requires |s| == 2
    ensures FromLe(s) == Two(s[0], s[1])
  {
    assert s[1..][0] == s[1] && s[1..][1..] == [];
    assert FromLe(s[1..]) == s[1];
  }

  /** Four bytes from `p` on, the lowest first. */
  function Word(file: Bytes, p: nat): nat
    requires p + 4 <= |file|
  {
    Four(file[p], file[p + 1], file[p + 2], file[p + 3])
  }

  lemma {:induction false} WordIs(file: Bytes, p: nat, end: nat)
    requires p + 4 == end <= |file|
    ensures FromLe(file[p..end]) == Word(file, p)
  {
    FromFour(file[p..end]);
  }

  lemma {:induction false} RecordBytes(file: Bytes, rec: Bytes, p: nat, f: Fields)
    requires p + 178 <= |file| && rec == file[p..p + 178] && f.year == FromLe(rec[4..6])
    ensures rec[..4] == file[p..p + 4] && f.year == Two(file[p + 4], file[p + 5])
    ensures rec[6] == file[p + 6] && rec[7] == file[p + 7] && rec[8] == file[p + 8] && rec[9] == file[p + 9]
  {
    FromTwo(rec[4..6]);
    assert rec[4] == file[p + 4] && rec[5] == file[p + 5];
    assert rec[4..6][0] == rec[4] && rec[4..6][1] == rec[5];
    assert rec[..4] == file[p..p + 4];
  }

  lemma {:induction false} RefBytes(file: Bytes, rec: Bytes, p: nat, j: nat, q: nat)
    requires p + 178 <= |file| && rec == file[p..p + 178] && j < 21 && q == p + 10 + 8 * j
    ensures q + 8 <= |file| && RefAt(rec, j) == Ref(Word(file, q), Word(file, q + 4))
  {
    assert rec[10 + 8 * j..14 + 8 * j] == file[q..q + 4];
    assert rec[14 + 8 * j..18 + 8 * j] == file[q + 4..q + 8];
    WordIs(file, q, q + 4);
    WordIs(file, q + 4, q + 8);
  }

  lemma {:induction false} HeaderLayout(entries: seq<Entry>)
    requires EntriesOk(entries) && |entries| < U32
    ensures var file := File(entries); |file| >= 8 && file[..4] == [84, 68, 66, 51] && Word(file, 4) == |entries|
  {
    var file := File(entries);
    assert file[4..8] == Le(|entries|, 4);
    Le4Back(|entries|);
    WordIs(file, 4, 8);
  }

  lemma {:induction false} RecordPlace(db: Db, i: nat, p: nat)
    requires db.Ok() && i < db.count && p == 8 + 178 * i
    ensures p + 178 <= db.TextBase() && db.Rec(i) == db.file[p..p + 178]
  {
  }

  /** The file byte by byte, in the layout that the generator documents: a record of 178 bytes for
      each entry behind 8 bytes of header, and the texts behind all records. */
  lemma {:induction false} RecordLayout(entries: seq<Entry>, i: nat, p: nat)
    requires EntriesOk(entries) && i < |entries| && p == 8 + 178 * i
    ensures var file, f := File(entries), entries[i].fields;
            && p + 178 <= |file| && file[p..p + 4] == entries[i].id && Two(file[p + 4], file[p + 5]) == f.year
            && file[p + 6] == f.month && file[p + 7] == f.day && file[p + 8] == f.wifi && file[p + 9] == f.input
  {
    var file, db := File(entries), Db(File(entries), |entries|);
    RecordIs(entries, i);
    RecordPlace(db, i, p);
    RecordFields(entries[i], |Blob(entries[..i])|);
    RecordBytes(file, db.Rec(i), p, entries[i].fields);
  }

  predicate StandsAt(file: Bytes, base: nat, ref: Ref, text: Bytes)
  {
    base + ref.offset + ref.length <= |file| && file[base + ref.offset..base + ref.offset + ref.length] == text
  }

  lemma {:induction false} StandsBehind(entries: seq<Entry>, i: nat, j: nat, rec: Bytes, base: nat)
    requires EntriesOk(entries) && AllFit(entries, 0) && i < |entries| && j < TEXTS
    requires base == 8 + 178 * |entries| && |rec| == RECORD_SIZE
    requires Db(File(entries), |entries|).Ok() && rec == Db(File(entries), |entries|).Rec(i)
    ensures StandsAt(File(entries), base, RefAt(rec, j), entries[i].fields.texts[j])
  {
    TextIs(entries, i, j);
  }

  lemma {:induction false} TextLayout(entries: seq<Entry>, i: nat, p: nat, j: nat, q: nat, base: nat)
    requires EntriesOk(entries) && AllFit(entries, 0)
    requires i < |entries| && p == 8 + 178 * i && j < 21 && q == p + 10 + 8 * j && base == 8 + 178 * |entries|
    ensures q + 8 <= |File(entries)|
    ensures var file := File(entries); StandsAt(file, base, Ref(Word(file, q), Word(file, q + 4)), entries[i].fields.texts[j])
  {
    var file, db := File(entries), Db(File(entries), |entries|);
    RecordPlace(db, i, p);
    StandsBehind(entries, i, j, db.Rec(i), base);
    RefBytes(file, db.Rec(i), p, j, q);
  }

  /** The places tile the blob: each begins where the one before it ends. */
  lemma {:induction false} RefsTile(texts: seq<Bytes>, base: nat, j: nat)
    requires j < |texts|
    ensures var refs := Refs(texts, base);
            && refs[j].length == |texts[j]|
            && (j == 0 ==> refs[j].offset == base)
            && (j + 1 < |texts| ==> refs[j + 1].offset == refs[j].offset + refs[j].length)
            && (j + 1 == |texts| ==> refs[j].offset + refs[j].length == base + Sum(texts))
    decreases j
  {
    if j > 0 {
      RefsTile(texts[1..], base + |texts[0]|, j - 1);
    } else if |texts| == 1 {
      assert Sum(texts[1..]) == 0;
    }
  }

  // ----- the writer

  /** A `<game>` element: its stripped id, if it has one, and what was extracted from it. */
  datatype Game = Game(id: Option<seq<nat>>, fields: Fields)

  predicate Kept(g: Game)
  {
    g.id.Some? && |g.id.value| == 4 && forall i :: 0 <= i < 4 ==> g.id.value[i] < 128
  }

  function Encode(text: seq<nat>): (b: Bytes)
    requires forall i :: 0 <= i < |text| ==> text[i] < 128
    ensures |b| == |text| && forall i :: 0 <= i < |b| ==> b[i] == text[i]
  {
    if text == [] then [] else [text[0]] + Encode(text[1..])
  }

  /** The last kept game with this id, or -1. */
  function LastWith(games: seq<Game>, id: Bytes): (k: int)
    ensures -1 <= k < |games|
    ensures k >= 0 ==> Kept(games[k]) && Encode(games[k].id.value) == id
  {
    if games == [] then -1
    else
      var n := |games| - 1;
      if Kept(games[n]) && Encode(games[n].id.value) == id then n else LastWith(games[..n], id)
  }

  ghost predicate IsLastWins(entries: map<Bytes, Fields>, games: seq<Game>)
  {
    && (forall id :: id in entries <==> LastWith(games, id) >= 0)
    && (forall id :: id in entries ==> entries[id] == games[LastWith(games, id)].fields)
  }

  lemma {:induction false} LastWithGrows(games: seq<Game>, k: nat, id: Bytes)
    requires k < |games|
    ensures LastWith(games[..k + 1], id)
         == if Kept(games[k]) && Encode(games[k].id.value) == id then k else LastWith(games[..k], id)
  {
    assert games[..k + 1][..k] == games[..k];
  }

  /** The dictionary: the last entry with an id wins. */
  method CollectEntries(games: seq<Game>) returns (entries: map<Bytes, Fields>)
    ensures IsLastWins(entries, games)
  {
    entries := map[];
    for k := 0 to |games|
      invariant IsLastWins(entries, games[..k])
    {
      forall id: Bytes
        ensures LastWith(games[..k + 1], id)
             == if Kept(games[k]) && Encode(games[k].id.value) == id then k else LastWith(games[..k], id)
      {
        LastWithGrows(games, k, id);
      }
      if Kept(games[k]) {
        entries := entries[Encode(games[k].id.value) := games[k].fields];
      }
    }
    assert games[..|games|] == games;
  }

  method PushString(blob: Bytes, text: Bytes) returns (blob': Bytes, ref: Ref)
    ensures blob' == blob + text && ref == Ref(|blob|, |text|)
  {
    return blob + text, Ref(|blob|, |text|);
  }

  lemma {:induction false} RefsAppend(texts: seq<Bytes>, t: Bytes, base: nat)
    ensures Refs(texts + [t], base) == Refs(texts, base) + [Ref(base + Sum(texts), |t|)]
    ensures Concat(texts + [t]) == Concat(texts) + t
    decreases |texts|
  {
    if texts == [] {
      assert texts + [t] == [t] && [t][1..] == [];
      assert t + [] == t;
    } else {
      assert (texts + [t])[0] == texts[0] && (texts + [t])[1..] == texts[1..] + [t];
      RefsAppend(texts[1..], t, base + |texts[0]|);
    }
  }

  lemma {:induction false} PackAppend(refs: seq<Ref>, r: Ref)
    ensures PackRefs(refs + [r]) == PackRefs(refs) + (Le(r.offset, 4) + Le(r.length, 4))
    decreases |refs|
  {
    if refs == [] {
      assert refs + [r] == [r] && [r][1..] == [];
    } else {
      assert (refs + [r])[0] == refs[0] && (refs + [r])[1..] == refs[1..] + [r];
      PackAppend(refs[1..], r);
    }
  }

  /** The first `j` texts were put behind `before`, and their places packed. */
  ghost predicate Packed(texts: seq<Bytes>, j: nat, before: Bytes, packed: Bytes, blob: Bytes)
  {
    && j <= |texts| && RefsFit(Refs(texts[..j], |before|))
    && packed == PackRefs(Refs(texts[..j], |before|)) && blob == before + Concat(texts[..j])
  }

  lemma {:induction false} PackedMore(texts: seq<Bytes>, j: nat, before: Bytes, packed: Bytes, blob: Bytes, ref: Ref)
    requires Packed(texts, j, before, packed, blob) && j < |texts| && ref == Ref(|blob|, |texts[j]|)
    ensures ref == Refs(texts, |before|)[j]
    ensures ref.offset < U32 && ref.length < U32 ==>
      Packed(texts, j + 1, before, packed + (Le(ref.offset, 4) + Le(ref.length, 4)), blob + texts[j])
  {
    assert texts[..j + 1] == texts[..j] + [texts[j]];
    RefsAppend(texts[..j], texts[j], |before|);
    RefsPrefix(texts, |before|, j);
    PackAppend(Refs(texts[..j], |before|), ref);
    Regroup(before, Concat(texts[..j]), texts[j]);
  }

  /** One record and its texts; packing a number that is too large fails. */
  method WriteRecord(e: Entry, blob: Bytes) returns (ok: bool, record: Bytes, blob': Bytes)
    requires EntryOk(e)
    ensures ok <==> RefsFit(Refs(e.fields.texts, |blob|))
    ensures ok ==> record == Record(e, |blob|) && blob' == blob + Concat(e.fields.texts)
  {
    var texts := e.fields.texts;
    var packed: Bytes := [];
    blob' := blob;
    assert texts[..0] == [] && blob + [] == blob;
    for j := 0 to TEXTS
      invariant Packed(texts, j, blob, packed, blob')
    {
      ghost var was := blob';
      var ref;
      blob', ref := PushString(blob', texts[j]);
      PackedMore(texts, j, blob, packed, was, ref);
      if ref.offset >= U32 || ref.length >= U32 {
        return false, [], blob';
      }
      packed := packed + (Le(ref.offset, 4) + Le(ref.length, 4));
    }
    assert texts[..TEXTS] == texts;
    return true, e.id + PackNumbers(e.fields) + packed, blob';
  }

  lemma {:induction false} RefsPrefix(texts: seq<Bytes>, base: nat, j: nat)
    requires j < |texts|
    ensures Refs(texts, base)[j] == Refs(texts[..j + 1], base)[j]
    decreases j
  {
    if j > 0 {
      assert texts[..j + 1][1..] == texts[1..][..j];
      RefsPrefix(texts[1..], base + |texts[0]|, j - 1);
    }
  }

  lemma {:induction false} FirstOfMore(entries: seq<Entry>, e: Entry)
    ensures entries != [] ==> (entries + [e])[0] == entries[0] && (entries + [e])[1..] == entries[1..] + [e]
    ensures entries == [] ==> entries + [e] == [e] && [e][1..] == []
  {
  }

  lemma {:induction false} BlobAppend(entries: seq<Entry>, e: Entry)
    ensures Blob(entries + [e]) == Blob(entries) + Concat(e.fields.texts)
    decreases |entries|
  {
    FirstOfMore(entries, e);
    if entries == [] {
      assert Blob([e]) == Concat(e.fields.texts) + [];
    } else {
      BlobAppend(entries[1..], e);
      Regroup(Concat(entries[0].fields.texts), Blob(entries[1..]), Concat(e.fields.texts));
    }
  }

  /** The places of all records tile the blob: the first begins at its start, each begins where
      the one before it ends, from record to record too, and the last ends at its end. */
  lemma {:induction false} PlacesTile(entries: seq<Entry>, i: nat, j: nat)
    requires EntriesOk(entries) && i < |entries| && j < TEXTS
    ensures var refs := Refs(entries[i].fields.texts, |Blob(entries[..i])|);
            var end := refs[j].offset + refs[j].length;
            && (i == 0 && j == 0 ==> refs[0].offset == 0)
            && (j + 1 < TEXTS ==> refs[j + 1].offset == end)
            && (j + 1 == TEXTS && i + 1 < |entries| ==>
                  Refs(entries[i + 1].fields.texts, |Blob(entries[..i + 1])|)[0].offset == end)
            && (j + 1 == TEXTS && i + 1 == |entries| ==> end == |Blob(entries)|)
  {
    RefsTile(entries[i].fields.texts, |Blob(entries[..i])|, j);
    assert entries[..i + 1] == entries[..i] + [entries[i]];
    BlobAppend(entries[..i], entries[i]);
    if i == 0 {
      assert entries[..0] == [];
      RefsTile(entries[0].fields.texts, 0, 0);
    }
    if i + 1 < |entries| {
      RefsTile(entries[i + 1].fields.texts, |Blob(entries[..i + 1])|, 0);
    } else {
      assert entries[..i + 1] == entries;
    }
  }

  lemma {:induction false} IndexAppend(entries: seq<Entry>, e: Entry, base: nat, at: nat)
    requires EntriesOk(entries) && EntryOk(e) && EntriesOk(entries + [e]) && at == base + |Blob(entries)|
    ensures Index(entries + [e], base) == Index(entries, base) + Record(e, at)
    decreases |entries|
  {
    FirstOfMore(entries, e);
    if entries == [] {
      assert Index([e], base) == Record(e, base) + [];
    } else {
      var next := base + Sum(entries[0].fields.texts);
      IndexAppend(entries[1..], e, next, at);
      Regroup(Record(entries[0], base), Index(entries[1..], next), Record(e, at));
    }
  }

  lemma {:induction false} FitAppend(entries: seq<Entry>, e: Entry, base: nat, at: nat)
    requires at == base + |Blob(entries)|
    ensures AllFit(entries + [e], base) <==> AllFit(entries, base) && RefsFit(Refs(e.fields.texts, at))
    decreases |entries|
  {
    FirstOfMore(entries, e);
    if entries != [] {
      FitAppend(entries[1..], e, base + Sum(entries[0].fields.texts), at);
    } else {
      assert AllFit([], base + Sum(e.fields.texts));
    }
  }

  lemma {:induction false} FitPrefix(entries: seq<Entry>, base: nat, i: nat)
    requires AllFit(entries, base) && i <= |entries|
    ensures AllFit(entries[..i], base)
    decreases i
  {
    if i > 0 {
      assert entries[..i][1..] == entries[1..][..i - 1];
      FitPrefix(entries[1..], base + Sum(entries[0].fields.texts), i - 1);
    }
  }

  /** The writer: index and blob side by side, then the file. It fails just when some number does
      not fit into its 32-bit field. */
  method WriteFile(entries: seq<Entry>) returns (file: Option<Bytes>)
    requires EntriesOk(entries)
    ensures file.Some? <==> AllFit(entries, 0) && |entries| < U32
    ensures file.Some? ==> file.value == File(entries)
  {
    var index: Bytes, blob: Bytes := [], [];
    assert entries[..0] == [];
    for i := 0 to |entries|
      invariant AllFit(entries[..i], 0) && index == Index(entries[..i], 0) && blob == Blob(entries[..i])
    {
      assert entries[..i + 1] == entries[..i] + [entries[i]];
      BlobAppend(entries[..i], entries[i]);
      IndexAppend(entries[..i], entries[i], 0, |blob|);
      FitAppend(entries[..i], entries[i], 0, |blob|);
      var ok, record, blob' := WriteRecord(entries[i], blob);
      if !ok {
        if AllFit(entries, 0) {
          FitPrefix(entries, 0, i + 1);
        }
        return None;
      }
      index, blob := index + record, blob';
    }
    assert entries[..|entries|] == entries;
    if |entries| >= U32 { return None; }
    return Some(MAGIC + Le(|entries|, 4) + index + blob);
  }

  // ----- sorting the ids

  predicate AscendingIds(ids: seq<Bytes>)
  {
    && (forall i :: 0 <= i < |ids| ==> |ids[i]| == 4)
    && forall i, j :: 0 <= i < j < |ids| ==> Compare(ids[i], ids[j]) < 0
  }

  method Insert(ids: seq<Bytes>, id: Bytes) returns (ids': seq<Bytes>)
    requires AscendingIds(ids) && |id| == 4 && id !in ids
    ensures AscendingIds(ids') && forall x :: x in ids' <==> x == id || x in ids
  {
    var k := 0;
    while k < |ids| && Compare(ids[k], id) < 0
      invariant k <= |ids| && forall i :: 0 <= i < k ==> Compare(ids[i], id) < 0
    {
      k := k + 1;
    }
    ids' := ids[..k] + [id] + ids[k..];
    forall i | k <= i < |ids|
      ensures Compare(id, ids[i]) < 0
    {
      CompareOrder(id, ids[k], ids[i]);
      CompareOrder(id, ids[i], id);
    }
  }

  /** `sorted` */
  method Sorted(keys: set<Bytes>) returns (ids: seq<Bytes>)
    requires forall id :: id in keys ==> |id| == 4
    ensures AscendingIds(ids) && forall id :: id in ids <==> id in keys
  {
    ids := [];
    var todo := keys;
    while todo != {}
      invariant todo <= keys && AscendingIds(ids) && forall id :: id in ids <==> id in keys - todo
      decreases |todo|
    {
      var id :| id in todo;
      ids := Insert(ids, id);
      todo := todo - {id};
    }
  }

  /** The entries in the order of their ids are those of the last games with these ids. */
  ghost predicate IsContent(entries: seq<Entry>, games: seq<Game>)
  {
    && EntriesOk(entries) && Ascending(entries)
    && (forall i :: 0 <= i < |entries| ==> LastWith(games, entries[i].id) >= 0)
    && (forall i :: 0 <= i < |entries| ==> entries[i].fields == games[LastWith(games, entries[i].id)].fields)
    && (forall id :: LastWith(games, id) >= 0 ==> exists i :: 0 <= i < |entries| && entries[i].id == id)
  }

  /** The entries in the order of the sorted ids. */
  method InOrder(kept: map<Bytes, Fields>, ids: seq<Bytes>) returns (entries: seq<Entry>)
    requires forall i :: 0 <= i < |ids| ==> ids[i] in kept
    ensures |entries| == |ids| && forall k :: 0 <= k < |ids| ==> entries[k] == Entry(ids[k], kept[ids[k]])
  {
    entries := [];
    for i := 0 to |ids|
      invariant |entries| == i
      invariant forall k :: 0 <= k < i ==> entries[k] == Entry(ids[k], kept[ids[k]])
    {
      entries := entries + [Entry(ids[i], kept[ids[i]])];
    }
  }

  lemma {:induction false} ContentIs(games: seq<Game>, kept: map<Bytes, Fields>, ids: seq<Bytes>, entries: seq<Entry>)
    requires forall k :: 0 <= k < |games| ==> FieldsOk(games[k].fields)
    requires IsLastWins(kept, games) && AscendingIds(ids) && forall id :: id in ids <==> id in kept
    requires |entries| == |ids| && forall k :: 0 <= k < |ids| ==> ids[k] in kept && entries[k] == Entry(ids[k], kept[ids[k]])
    ensures IsContent(entries, games)
  {
    forall id | LastWith(games, id) >= 0
      ensures exists i :: 0 <= i < |entries| && entries[i].id == id
    {
      var i :| 0 <= i < |ids| && ids[i] == id;
      assert entries[i].id == id;
    }
  }

  /** `main`, from the extracted games to the file. */
  method Generate(games: seq<Game>) returns (file: Option<Bytes>, ghost content: seq<Entry>)
    requires forall k :: 0 <= k < |games| ==> FieldsOk(games[k].fields)
    ensures IsContent(content, games)
    ensures file.Some? <==> AllFit(content, 0) && |content| < U32
    ensures file.Some? ==> file.value == File(content)
  {
    var kept := CollectEntries(games);
    var ids := Sorted(kept.Keys);
    assert forall i :: 0 <= i < |ids| ==> ids[i] in ids;
    var entries := InOrder(kept, ids);
    ContentIs(games, kept, ids, entries);
    file := WriteFile(entries);
    content := entries;
  }

  /** Main result, from end to end: in a file that was generated from some games, the search finds
      an id just when some kept game has it, and gives the fields of the last such game. */
  method GenerateAndSearch(games: seq<Game>, gameId: Bytes, language: int) returns (file: Option<Bytes>, info: Option<TitleInfo>)
    requires forall k :: 0 <= k < |games| ==> FieldsOk(games[k].fields)
    ensures file.Some? ==> (info.Some? <==> LastWith(games, gameId) >= 0)
    ensures file.Some? && info.Some? ==> InfoIs(info.value, games[LastWith(games, gameId)].fields, language)
  {
    ghost var content;
    file, content := Generate(games);
    info := None;
    if file.Some? {
      info := SearchFile(file.value, content, gameId, language);
      ContentHas(content, games, gameId);
    }
  }

  /** Loading a written file and searching it. */
  method SearchFile(file: Bytes, ghost content: seq<Entry>, gameId: Bytes, language: int) returns (info: Option<TitleInfo>)
    requires EntriesOk(content) && Ascending(content) && AllFit(content, 0) && |content| < U32 && file == File(content)
    ensures info.None? <==> forall i :: 0 <= i < |content| ==> content[i].id != gameId
    ensures forall i :: 0 <= i < |content| && content[i].id == gameId ==> info.Some? && InfoIs(info.value, content[i].fields, language)
  {
    WrittenIsRead(content);
    var db := LoadTitleDatabase(file);
    ghost var all := seq(|content|, i requires 0 <= i < |content| => content[i].fields);
    info := GetTitleInfo(db.value, gameId, language, all);
    assert forall i :: 0 <= i < |content| ==> content[i].id == db.value.Id(i) && all[i] == content[i].fields;
  }

  lemma {:induction false} ContentHas(content: seq<Entry>, games: seq<Game>, id: Bytes)
    requires IsContent(content, games)
    ensures LastWith(games, id) < 0 ==> forall i :: 0 <= i < |content| ==> content[i].id != id
    ensures LastWith(games, id) >= 0 ==>
      exists i :: 0 <= i < |content| && content[i].id == id && content[i].fields == games[LastWith(games, id)].fields
  {
  }
}
