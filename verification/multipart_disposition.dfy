/** Which names survive being written into a disposition line and read back. */
module MultipartDisposition {
  import opened Strings
  import opened UrlCoding
  import opened Params
  import opened MultipartParser
  import opened MultipartWriter

  // ----- what splitting can yield

  lemma {:induction false} TrimOnlyDrops(s: string, d: char)
    ensures |Trim(s)| <= |s| && (d in Trim(s) ==> d in s)
  {
    LeftOnlyDrops(s, d);
    RightOnlyDrops(TrimLeft(s), d);
  }

  lemma {:induction false} LeftOnlyDrops(s: string, d: char)
    ensures d in TrimLeft(s) ==> d in s
  {
    if s != [] && IsBlank(s[0]) {
      LeftOnlyDrops(s[1..], d);
    }
  }

  lemma {:induction false} RightOnlyDrops(s: string, d: char)
    ensures d in TrimRight(s) ==> d in s
  {
    if s != [] && IsBlank(s[|s| - 1]) {
      RightOnlyDrops(s[..|s| - 1], d);
    }
  }

  lemma {:induction false} PieceOnlyDrops(field: string, p: string, d: char)
    requires p in Piece(field)
    ensures |p| <= |field| && (d in p ==> d in field)
  {
    TrimOnlyDrops(field, d);
  }

  /** Every piece is a part of the text without the separator. */
  lemma {:induction false} PieceOf(s: string, sep: char, p: string, d: char)
    requires p in Pieces(s, sep)
    ensures |p| <= |s| && sep !in p && (d in p ==> d in s)
    decreases |s|
  {
    var i := FirstIndex(s, sep);
    if i == |s| {
      assert s[..i] == s;
      PieceOnlyDrops(s, p, d);
      PieceOnlyDrops(s, p, sep);
    } else if p in Piece(s[..i]) {
      PieceOnlyDrops(s[..i], p, d);
      PieceOnlyDrops(s[..i], p, sep);
    } else {
      PieceOf(s[i + 1..], sep, p, d);
    }
  }

  /** A first piece and a different one behind it fit into the text with a separator between them. */
  lemma {:induction false} TwoPiecesFit(s: string, sep: char)
    requires |Pieces(s, sep)| >= 2
    ensures var ps := Pieces(s, sep); |ps[0]| + 1 + |ps[|ps| - 1]| <= |s|
    decreases |s|
  {
    var i, ps := FirstIndex(s, sep), Pieces(s, sep);
    var rest := Pieces(s[i + 1..], sep);
    if Piece(s[..i]) == [] {
      TwoPiecesFit(s[i + 1..], sep);
    } else {
      PieceOnlyDrops(s[..i], ps[0], sep);
      assert ps[|ps| - 1] == rest[|rest| - 1];
      PieceOf(s[i + 1..], sep, ps[|ps| - 1], sep);
    }
  }

  // ----- what the parameters can be

  /** No value holds a separator, and an extended file name leaves room for its key. */
  predicate EntryFits(e: (string, string), size: nat)
  {
    && '=' !in e.1 && ';' !in e.1
    && (e.0 == "filename*" && e.1 != [] ==> |e.1| + 10 <= size)
  }

  predicate EntriesFit(m: Params, size: nat)
  {
    forall i :: 0 <= i < |m| ==> EntryFits(m[i], size)
  }

  lemma {:induction false} EmplaceFits(m: Params, key: string, val: string, size: nat)
    requires EntriesFit(m, size) && EntryFits((key, val), size)
    ensures EntriesFit(Emplace(m, key, val), size)
    decreases |m|
  {
    if m != [] && !Less(key, m[0].0) {
      EmplaceFits(m[1..], key, val, size);
    }
  }

  lemma {:induction false} EnteredFits(m: Params, kv: string, size: nat)
    requires EntriesFit(m, size) && ';' !in kv && |kv| <= size
    ensures EntriesFit(Entered(m, kv, Unquoted), size)
  {
    var ps := Pieces(kv, '=');
    var (key, val) := KeyValue(kv);
    if key != [] {
      if |ps| >= 2 {
        PieceOf(kv, '=', ps[|ps| - 1], ';');
        TwoPiecesFit(kv, '=');
      }
      assert |Unquoted(key)| <= |key| && |Unquoted(val)| <= |val|;
      EmplaceFits(m, Unquoted(key), Unquoted(val), size);
    }
  }

  lemma {:induction false} CollectedFits(m: Params, cache: set<string>, kvs: seq<string>, size: nat)
    requires EntriesFit(m, size) && forall kv :: kv in kvs ==> ';' !in kv && |kv| <= size
    ensures EntriesFit(Collected(m, cache, kvs, Unquoted), size)
    decreases |kvs|
  {
    if kvs != [] {
      if kvs[0] in cache {
        CollectedFits(m, cache, kvs[1..], size);
      } else {
        EnteredFits(m, kvs[0], size);
        CollectedFits(Entered(m, kvs[0], Unquoted), cache + {kvs[0]}, kvs[1..], size);
      }
    }
  }

  lemma {:induction false} FieldsFit(s: string)
    ensures forall kv :: kv in Pieces(s, ';') ==> ';' !in kv && |kv| <= |s|
  {
    forall kv | kv in Pieces(s, ';')
      ensures ';' !in kv && |kv| <= |s|
    {
      PieceOf(s, ';', kv, ';');
    }
  }

  lemma {:induction false} ParsedFits(text: string)
    ensures EntriesFit(Parsed(text, ';', Unquoted), |text|)
  {
    FieldsFit(text);
    CollectedFits([], {}, Pieces(text, ';'), |text|);
  }

  /** Behind a plain name, only the file name's field can bring an extended one. */
  lemma {:induction false} BehindPlainName(name: string, filename: string)
    requires PlainValue(name)
    ensures EntriesFit(Parsed(NameField(name) + "; " + FilenameField(filename), ';', Unquoted), |filename| + 12)
  {
    var f1, f2 := NameField(name), [' '] + FilenameField(filename);
    NameFieldReads(name);
    assert f1 + "; " + FilenameField(filename) == f1 + [';'] + f2;
    PiecesSplice(f1, ';', f2);
    var rest := Pieces(f2, ';');
    assert Piece(f1) + rest == [f1] + rest && ([f1] + rest)[1..] == rest;
    FieldsFit(f2);
    assert |f2| == |filename| + 12;
    CollectedFits([("name", name)], {} + {f1}, rest, |f2|);
  }

  lemma {:induction false} DecodedIsShorter(s: string, plusIsSpace: bool)
    ensures |Decoded(s, plusIsSpace)| <= |s|
    decreases |s|
  {
    if s != [] {
      var step := DecodeStep(s, 0, plusIsSpace);
      DecodedIsShorter(s[step.1..], plusIsSpace);
    }
  }

  // ----- the line

  lemma {:induction false} DispositionOf(text: string)
    requires text != [] && !IsSpace(text[0])
    ensures !StartsWithNoCase(DISPOSITION + text, "content-type:")
    ensures Disposition(DISPOSITION + text) == if '\r' in text || '\n' in text then [] else [text]
  {
    DispositionHead(text);
    FormDataHead(text);
    assert (FORM_DATA + text)[0] == 'f';
    SkipOneSpace(FORM_DATA + text);
    SkipOneSpace(text);
  }

  /** A name with a separator is not read back, and neither is such a file name. */
  lemma {:induction false} FitsDiffer(m: Params, name: string, filename: string, size: nat)
    requires EntriesFit(m, size) && WithDisposition(NO_FILE, m) == (true, FormData(name, filename, []))
    ensures '=' !in name && ';' !in name
    ensures size <= |filename| + 12 ==> '=' !in filename && ';' !in filename
  {
    var n, f, x := FindKey(m, "name"), FindKey(m, "filename"), FindKey(m, "filename*");
    assert n < |m| && EntryFits(m[n], size);
    if x < |m| {
      assert EntryFits(m[x], size);
      DecodedIsShorter(ExtendedValue(m[x].1)[0], false);
    } else if f < |m| {
      assert EntryFits(m[f], size);
    }
  }

  lemma {:induction false} TextReadsBack(item: Item)
    requires WithDisposition(NO_FILE, Parsed(DispositionText(item), ';', Unquoted))
          == (true, FormData(item.name, item.filename, []))
    requires '\r' !in DispositionText(item) && '\n' !in DispositionText(item)
    ensures PlainValue(item.name) && PlainValue(item.filename)
  {
    var text, name, filename := DispositionText(item), item.name, item.filename;
    assert forall c :: c in name ==> c in NameField(name);
    assert forall c :: c in NameField(name) ==> c in text;
    ParsedFits(text);
    FitsDiffer(Parsed(text, ';', Unquoted), name, filename, |text|);
    if filename != [] {
      assert forall c :: c in filename ==> c in FilenameField(filename);
      assert forall c :: c in FilenameField(filename) ==> c in text;
      BehindPlainName(name, filename);
      FitsDiffer(Parsed(text, ';', Unquoted), name, filename, |filename| + 12);
    }
  }

  /** The disposition line that is written for an item reads back as its name and file name exactly
      when neither holds a `=`, a `;` or an end of line. */
  lemma {:induction false} ReadsBackExactly(item: Item)
    ensures HeaderLine(NO_FILE, DispositionLine(item)) == (true, FormData(item.name, item.filename, []))
       <==> PlainValue(item.name) && PlainValue(item.filename)
  {
    var text := DispositionText(item);
    if PlainValue(item.name) && PlainValue(item.filename) {
      ReadDisposition(item);
    } else {
      assert text[0] == 'n';
      DispositionOf(text);
      if HeaderLine(NO_FILE, DispositionLine(item)) == (true, FormData(item.name, item.filename, [])) {
        TextReadsBack(item);
      }
    }
  }

  /** A file name that the format allows and the parser cuts off. */
  lemma {:induction false} SeparatorIsLost()
    ensures HeaderLine(NO_FILE, DispositionLine(Item("f", [], "a=b", []))) != (true, FormData("f", "a=b", []))
  {
    var item := Item("f", [], "a=b", []);
    assert item.filename[1] == '=';
    ReadsBackExactly(item);
  }
}
