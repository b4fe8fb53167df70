/** Extended file names, and the header lines that the parser refuses. */
module MultipartExtended {
  import opened Strings
  import opened UrlCoding
  import opened Params
  import opened MultipartParser
  import opened MultipartWriter
  import opened MultipartDisposition

  // ----- text that a field can carry without quotes

  predicate Clean(s: string)
  {
    '=' !in s && ';' !in s && '"' !in s && '\r' !in s && '\n' !in s
  }

  predicate OneLine(s: string)
  {
    '\r' !in s && '\n' !in s
  }

  lemma {:induction false} CleanJoin(a: string, b: string)
    requires Clean(a) && Clean(b)
    ensures Clean(a + b)
  {
    assert forall c :: c in a + b ==> c in a || c in b;
  }

  lemma {:induction false} OneLineJoin(a: string, b: string)
    requires OneLine(a) && OneLine(b)
    ensures OneLine(a + b)
  {
    assert forall c :: c in a + b ==> c in a || c in b;
  }

  /** A charset and a text behind it, as section 3.2 of RFC 5987 writes a value. */
  function ValueText(charset: string, text: string): string
  {
    charset + "''" + text
  }

  predicate BareValue(charset: string, text: string)
  {
    && Clean(charset) && charset != [] && !IsBlank(charset[0])
    && Clean(text) && text != [] && !IsBlank(text[|text| - 1])
  }

  lemma {:induction false} ValueIsBare(charset: string, text: string)
    requires BareValue(charset, text)
    ensures Clean(ValueText(charset, text)) && Trimmed(ValueText(charset, text)) && ValueText(charset, text) != []
  {
    CleanJoin(charset, "''");
    CleanJoin(charset + "''", text);
    var val := ValueText(charset, text);
    assert val[0] == charset[0] && val[|val| - 1] == text[|text| - 1];
  }

  // ----- the fields of the line

  function ExtendedField(val: string): string
  {
    "filename*=" + val
  }

  lemma {:induction false} ExtendedFieldText(val: string)
    requires Clean(val)
    ensures ExtendedField(val) == "filename*" + "=" + val
    ensures ';' !in ExtendedField(val) && OneLine(ExtendedField(val))
  {
    assert OneLine("filename*=") && ';' !in "filename*=";
    OneLineJoin("filename*=", val);
  }

  lemma {:induction false} ExtendedFieldReads(m: Params, val: string)
    requires Clean(val) && Trimmed(val) && val != []
    ensures Piece([' '] + ExtendedField(val)) == [ExtendedField(val)]
    ensures Entered(m, ExtendedField(val), Unquoted) == Emplace(m, "filename*", val)
  {
    ExtendedFieldText(val);
    assert Trimmed("filename*") && '=' !in "filename*";
    KeyValueOf("filename*", val);
    assert Unquoted("filename*") == "filename*";
    assert Unquoted(val) == val by { assert val[0] in val; }
    var kv := ExtendedField(val);
    assert kv[0] == 'f' && kv[|kv| - 1] == val[|val| - 1];
    TrimOfTrimmed(kv);
  }

  /** Name and extended file name. */
  function TwoFields(name: string, val: string): string
  {
    NameField(name) + "; " + ExtendedField(val)
  }

  /** Name, plain file name and extended file name. */
  function ThreeFields(name: string, plain: string, val: string): string
  {
    NameField(name) + "; " + FilenameField(plain) + "; " + ExtendedField(val)
  }

  lemma {:induction false} PiecesOfTwo(name: string, val: string)
    requires PlainValue(name) && Clean(val) && Trimmed(val) && val != []
    ensures Pieces(TwoFields(name, val), ';') == [NameField(name)] + [ExtendedField(val)]
  {
    var f1, f2 := NameField(name), ExtendedField(val);
    NameFieldReads(name);
    ExtendedFieldText(val);
    ExtendedFieldReads([], val);
    assert TwoFields(name, val) == f1 + [';'] + ([' '] + f2);
    PiecesSplice(f1, ';', [' '] + f2);
    PiecesNone([' '] + f2, ';');
  }

  lemma {:induction false} PiecesOfThree(name: string, plain: string, val: string)
    requires PlainValue(name) && PlainValue(plain) && Clean(val) && Trimmed(val) && val != []
    ensures Pieces(ThreeFields(name, plain, val), ';') == [NameField(name)] + ([FilenameField(plain)] + [ExtendedField(val)])
  {
    var f1, f2, f3 := NameField(name), FilenameField(plain), ExtendedField(val);
    NameFieldReads(name);
    FilenameFieldReads(plain, name);
    ExtendedFieldText(val);
    ExtendedFieldReads([], val);
    SplitThree(f1, f2, f3);
  }

  lemma {:induction false} SplitThree(f1: string, f2: string, f3: string)
    requires Piece(f1) == [f1] && Piece([' '] + f2) == [f2] && Piece([' '] + f3) == [f3]
    requires ';' !in f1 && ';' !in f2 && ';' !in f3
    ensures Pieces(f1 + "; " + f2 + "; " + f3, ';') == [f1] + ([f2] + [f3])
  {
    assert f1 + "; " + f2 + "; " + f3 == f1 + [';'] + (([' '] + f2) + [';'] + ([' '] + f3));
    PiecesSplice(f1, ';', ([' '] + f2) + [';'] + ([' '] + f3));
    PiecesSplice([' '] + f2, ';', [' '] + f3);
    PiecesNone([' '] + f3, ';');
  }

  lemma {:induction false} ParsedTwo(name: string, val: string)
    requires PlainValue(name) && Clean(val) && Trimmed(val) && val != []
    ensures Parsed(TwoFields(name, val), ';', Unquoted) == [("filename*", val), ("name", name)]
  {
    var f1, f2 := NameField(name), ExtendedField(val);
    PiecesOfTwo(name, val);
    assert f1[0] == 'n' && f2[0] == 'f';
    CollectTwo(f1, f2);
    NameFieldReads(name);
    ExtendedFieldReads([("name", name)], val);
    assert Less("filename*", "name");
  }

  lemma {:induction false} ParsedThree(name: string, plain: string, val: string)
    requires PlainValue(name) && PlainValue(plain) && Clean(val) && Trimmed(val) && val != []
    ensures Parsed(ThreeFields(name, plain, val), ';', Unquoted)
         == [("filename", plain), ("filename*", val), ("name", name)]
  {
    var f1, f2, f3 := NameField(name), FilenameField(plain), ExtendedField(val);
    PiecesOfThree(name, plain, val);
    assert f1[0] == 'n' && f2[0] == 'f' && f3[0] == 'f' && f2[8] == '=' && f3[8] == '*';
    CollectThree(f1, f2, f3);
    NameFieldReads(name);
    FilenameFieldReads(plain, name);
    ExtendedFieldReads([("filename", plain), ("name", name)], val);
    BetweenKeys(plain, val, name);
  }

  lemma {:induction false} CollectThree(f1: string, f2: string, f3: string)
    requires f1 != f2 && f1 != f3 && f2 != f3
    ensures Collected([], {}, [f1] + ([f2] + [f3]), Unquoted)
         == Entered(Entered(Entered([], f1, Unquoted), f2, Unquoted), f3, Unquoted)
  {
    var m := Entered([], f1, Unquoted);
    var m2 := Entered(m, f2, Unquoted);
    assert ([f1] + ([f2] + [f3]))[1..] == [f2] + [f3] && ([f2] + [f3])[1..] == [f3] && [f3][1..] == [];
    assert Collected(m, {} + {f1}, [f2] + [f3], Unquoted) == Collected(m2, {} + {f1} + {f2}, [f3], Unquoted);
    assert Collected(m2, {} + {f1} + {f2}, [f3], Unquoted)
        == Collected(Entered(m2, f3, Unquoted), {} + {f1} + {f2} + {f3}, [], Unquoted);
  }

  lemma {:induction false} BetweenKeys(plain: string, val: string, name: string)
    ensures Emplace([("filename", plain), ("name", name)], "filename*", val)
         == [("filename", plain), ("filename*", val), ("name", name)]
  {
    var m: Params := [("filename", plain), ("name", name)];
    assert "filename" + "*" == "filename*";
    PrefixNotLess("filename", "*");
    assert Less("filename*", "name");
    assert m[1..] == [("name", name)];
    assert Emplace(m[1..], "filename*", val) == [("filename*", val)] + [("name", name)];
  }

  lemma {:induction false} PrefixNotLess(a: string, b: string)
    ensures !Less(a + b, a)
  {
    if a != [] {
      assert (a + b)[1..] == a[1..] + b;
      PrefixNotLess(a[1..], b);
    }
  }

  // ----- the line

  lemma {:induction false} NameFieldOneLine(name: string)
    requires PlainValue(name)
    ensures OneLine(NameField(name)) && OneLine(FilenameField(name))
  {
    OneLineJoin("\"", name);
    OneLineJoin("\"" + name, "\"");
    OneLineJoin("name=", Quoted(name));
    OneLineJoin("filename=", Quoted(name));
  }

  lemma {:induction false} TwoFieldsOneLine(name: string, val: string)
    requires PlainValue(name) && Clean(val)
    ensures OneLine(TwoFields(name, val)) && TwoFields(name, val) != [] && TwoFields(name, val)[0] == 'n'
  {
    NameFieldOneLine(name);
    ExtendedFieldText(val);
    OneLineJoin(NameField(name), "; ");
    OneLineJoin(NameField(name) + "; ", ExtendedField(val));
  }

  lemma {:induction false} ThreeFieldsOneLine(name: string, plain: string, val: string)
    requires PlainValue(name) && PlainValue(plain) && Clean(val)
    ensures OneLine(ThreeFields(name, plain, val)) && ThreeFields(name, plain, val) != []
    ensures ThreeFields(name, plain, val)[0] == 'n'
  {
    NameFieldOneLine(name);
    NameFieldOneLine(plain);
    ExtendedFieldText(val);
    OneLineJoin(NameField(name), "; ");
    OneLineJoin(NameField(name) + "; ", FilenameField(plain));
    OneLineJoin(NameField(name) + "; " + FilenameField(plain), "; ");
    OneLineJoin(NameField(name) + "; " + FilenameField(plain) + "; ", ExtendedField(val));
  }

  lemma {:induction false} LineOfTwo(name: string, val: string)
    requires PlainValue(name) && Clean(val) && Trimmed(val) && val != []
    ensures HeaderLine(NO_FILE, DISPOSITION + TwoFields(name, val))
         == WithDisposition(NO_FILE, [("filename*", val), ("name", name)])
  {
    TwoFieldsOneLine(name, val);
    DispositionPrefix(TwoFields(name, val));
    ParsedTwo(name, val);
  }

  lemma {:induction false} LineOfThree(name: string, plain: string, val: string)
    requires PlainValue(name) && PlainValue(plain) && Clean(val) && Trimmed(val) && val != []
    ensures HeaderLine(NO_FILE, DISPOSITION + ThreeFields(name, plain, val))
         == WithDisposition(NO_FILE, [("filename", plain), ("filename*", val), ("name", name)])
  {
    ThreeFieldsOneLine(name, plain, val);
    DispositionPrefix(ThreeFields(name, plain, val));
    ParsedThree(name, plain, val);
  }

  lemma {:induction false} KeysOfTwo(val: string, name: string)
    ensures var m: Params := [("filename*", val), ("name", name)];
            FindKey(m, "name") == 1 && FindKey(m, "filename") == 2 && FindKey(m, "filename*") == 0
  {
    var m: Params := [("filename*", val), ("name", name)];
    FoundAt(m, "name", 1);
    FoundAt(m, "filename*", 0);
    NotFound(m, "filename");
  }

  lemma {:induction false} KeysOfThree(plain: string, val: string, name: string)
    ensures var m: Params := [("filename", plain), ("filename*", val), ("name", name)];
            FindKey(m, "name") == 2 && FindKey(m, "filename") == 0 && FindKey(m, "filename*") == 1
  {
    var m: Params := [("filename", plain), ("filename*", val), ("name", name)];
    FoundAt(m, "name", 2);
    FoundAt(m, "filename", 0);
    FoundAt(m, "filename*", 1);
  }

  // ----- percent-coded names

  lemma {:induction false} CodedIsClean(s: string)
    requires forall c :: c in s ==> Unreserved(c) || c == '%'
    ensures Clean(s) && (s != [] ==> !IsBlank(s[|s| - 1]))
  {
    if s != [] {
      assert s[|s| - 1] in s;
    }
  }

  lemma {:induction false} EncodedNotEmpty(fn: string)
    requires fn != []
    ensures Encoded(fn) != []
  {
    assert EncodedChar(fn[0]) != [];
  }

  lemma {:induction false} EncodedIsBare(fn: string)
    requires fn != []
    ensures BareValue("UTF-8", Encoded(fn))
  {
    EncodedAlphabet(fn);
    CodedIsClean(Encoded(fn));
    EncodedNotEmpty(fn);
  }

  lemma {:induction false} Utf8Value(text: string)
    requires Clean(text) && text != []
    ensures ExtendedValue(ValueText("UTF-8", text)) == [text] && Clean(ValueText("UTF-8", text))
  {
    var val := ValueText("UTF-8", text);
    CleanJoin("UTF-8", "''");
    CleanJoin("UTF-8" + "''", text);
    forall i | 0 <= i < 7
      ensures ToLower(val[i]) == ToLower("utf-8''"[i])
    {
      assert val[i] == "UTF-8''"[i];
    }
    assert val[7..] == text;
  }

  /** A file name in percent-coded UTF-8 is read back as the very bytes, whatever they are. */
  lemma {:induction false} ExtendedNameReadsBack(name: string, fn: string)
    requires PlainValue(name) && fn != [] && IsByteString(fn)
    ensures HeaderLine(NO_FILE, DISPOSITION + (NameField(name) + "; " + ("filename*=" + ("UTF-8" + "''" + Encoded(fn)))))
         == (true, FormData(name, fn, []))
  {
    var val := ValueText("UTF-8", Encoded(fn));
    EncodedIsBare(fn);
    ValueIsBare("UTF-8", Encoded(fn));
    LineOfTwo(name, val);
    KeysOfTwo(val, name);
    Utf8Value(Encoded(fn));
    DecodeUndoesEncode(fn, false);
  }

  /** It takes the place of a plain file name in the same line. */
  lemma {:induction false} ExtendedNameOverrides(name: string, plain: string, fn: string)
    requires PlainValue(name) && PlainValue(plain) && fn != [] && IsByteString(fn)
    ensures HeaderLine(NO_FILE, DISPOSITION + (NameField(name) + "; " + FilenameField(plain) + "; "
                                               + ("filename*=" + ("UTF-8" + "''" + Encoded(fn)))))
         == (true, FormData(name, fn, []))
  {
    var val := ValueText("UTF-8", Encoded(fn));
    EncodedIsBare(fn);
    ValueIsBare("UTF-8", Encoded(fn));
    LineOfThree(name, plain, val);
    KeysOfThree(plain, val, name);
    Utf8Value(Encoded(fn));
    DecodeUndoesEncode(fn, false);
  }

  /** A charset other than UTF-8, in whatever case, makes the parser refuse the line. */
  lemma {:induction false} OtherCharsetRefused(name: string, charset: string, text: string)
    requires PlainValue(name) && BareValue(charset, text)
    requires !StartsWithNoCase(charset + "''" + text, "utf-8''")
    ensures !HeaderLine(NO_FILE, DISPOSITION + (NameField(name) + "; " + ("filename*=" + (charset + "''" + text)))).0
  {
    var val := ValueText(charset, text);
    ValueIsBare(charset, text);
    LineOfTwo(name, val);
    KeysOfTwo(val, name);
  }

  // ----- refusals

  /** A line that is neither a disposition nor a content type is refused. */
  lemma {:induction false} OtherLinesRefused(file: FormData, line: string)
    requires !StartsWithNoCase(line, "content-type:")
    requires !StartsWithNoCase(line, "content-disposition:")
    ensures HeaderLine(file, line) == (false, file)
  {
  }

  /** So is a disposition other than form data. */
  lemma {:induction false} OtherDispositionRefused(file: FormData, value: string)
    requires value != [] && !IsSpace(value[0]) && !StartsWithNoCase(value, "form-data;")
    ensures HeaderLine(file, "Content-Disposition: " + value) == (false, file)
  {
    var line := "Content-Disposition: " + value;
    assert line[8] == 'D' && "content-type:"[8] == 't';
    assert line[20..] == " " + value;
    SkipOneSpace(value);
  }
}
