/** Command lines written out from what their author means, and what the scan reports of them. */
module GetoptRender {
  import opened Wrappers
  import opened Sequences
  import opened Strings
  import opened GetoptScan
  import opened Getopt

  // ----- the option string

  /** Whether an option takes an argument. */
  datatype Arg = No | Required | Optional

  /** The options of a program, each a letter and whether it takes an argument. */
  type Table = seq<(char, Arg)>

  predicate GoodTable(table: Table)
  {
    forall i :: 0 <= i < |table| ==> table[i].0 != ':' && table[i].0 != ';'
  }

  function Colons(arg: Arg): string
  {
    match arg
    case No => ""
    case Required => ":"
    case Optional => "::"
  }

  function TableText(table: Table): string
  {
    if table == [] then "" else [table[0].0] + Colons(table[0].1) + TableText(table[1..])
  }

  /** The first entry for a letter. */
  function Lookup(table: Table, c: char): Option<Arg>
  {
    if table == [] then None else if table[0].0 == c then Some(table[0].1) else Lookup(table[1..], c)
  }

  /** The option string: a leading colon asks for missing arguments to be told apart. */
  function Options(colon: bool, table: Table): string
  {
    (if colon then ":" else "") + TableText(table)
  }

  // ----- the command line

  /** How a cluster of options ends: behind the last letter, or with an option that takes an
      argument in the same element, in the next one, not at all because it may, or not at all
      because the line is at its end. */
  datatype Ending = Plain | Attached(c: char, text: string) | Separate(c: char, text: string) | Absent(c: char) | Missing(c: char)

  datatype Word = Operand(text: string) | Cluster(letters: string, ending: Ending)

  function Suffix(e: Ending): string
  {
    match e
    case Plain => ""
    case Attached(c, text) => [c] + text
    case Separate(c, _) => [c]
    case Absent(c) => [c]
    case Missing(c) => [c]
  }

  function Elements(w: Word): seq<string>
  {
    match w
    case Operand(text) => [text]
    case Cluster(letters, e) => ["-" + (letters + Suffix(e))] + if e.Separate? then [e.text] else []
  }

  /** All words, and behind them the arguments that `--` ends the options in front of, if any. */
  function LineText(words: seq<Word>, tail: Option<seq<string>>): seq<string>
  {
    if words != [] then Elements(words[0]) + LineText(words[1..], tail)
    else match tail
      case None => []
      case Some(rest) => ["--"] + rest
  }

  /** A letter inside a cluster is an option without an argument, or no option at all. */
  predicate LetterFits(table: Table, c: char)
  {
    Lookup(table, c) == Some(No) || Lookup(table, c) == None
  }

  predicate EndingFits(table: Table, e: Ending)
  {
    match e
    case Plain => true
    case Attached(c, text) => text != "" && (Lookup(table, c) == Some(Required) || Lookup(table, c) == Some(Optional))
    case Separate(c, _) => Lookup(table, c) == Some(Required)
    case Absent(c) => Lookup(table, c) == Some(Optional)
    case Missing(c) => Lookup(table, c) == Some(Required)
  }

  predicate WordFits(table: Table, w: Word)
  {
    match w
    case Operand(text) => text == "" || text == "-" || text[0] != '-'
    case Cluster(letters, e) =>
      && (forall c :: c in letters ==> LetterFits(table, c)) && EndingFits(table, e)
      && letters + Suffix(e) != "" && letters + Suffix(e) != "-"
  }

  /** Only the very end of the line can lack an argument. */
  predicate LineFits(table: Table, words: seq<Word>, tail: Option<seq<string>>)
  {
    forall i :: 0 <= i < |words| ==>
      WordFits(table, words[i])
      && (words[i].Cluster? && words[i].ending.Missing? ==> i == |words| - 1 && tail == None)
  }

  // ----- what should be reported

  /** The reports of the letters in front of an ending; an unknown one is remembered. */
  function LetterReports(table: Table, letters: string, optopt: char): seq<Outcome>
  {
    if letters == "" then []
    else if Lookup(table, letters[0]) == None then
      [Outcome('?' as int, None, letters[0])] + LetterReports(table, letters[1..], letters[0])
    else [Outcome(letters[0] as int, None, optopt)] + LetterReports(table, letters[1..], optopt)
  }

  function LastUnknown(table: Table, letters: string, optopt: char): char
  {
    if letters == "" then optopt
    else LastUnknown(table, letters[1..], if Lookup(table, letters[0]) == None then letters[0] else optopt)
  }

  function EndingReports(colon: bool, e: Ending, optopt: char): seq<Outcome>
  {
    match e
    case Plain => []
    case Attached(c, text) => [Outcome(c as int, Some(text), optopt)]
    case Separate(c, text) => [Outcome(c as int, Some(text), optopt)]
    case Absent(c) => [Outcome(c as int, None, optopt)]
    case Missing(c) => [Outcome(if colon then ':' as int else '?' as int, None, c)]
  }

  function LastOffender(table: Table, letters: string, e: Ending, optopt: char): char
  {
    if e.Missing? then e.c else LastUnknown(table, letters, optopt)
  }

  function ClusterReports(table: Table, colon: bool, letters: string, e: Ending, optopt: char): seq<Outcome>
  {
    LetterReports(table, letters, optopt) + EndingReports(colon, e, LastUnknown(table, letters, optopt))
  }

  /** What the author of the line means by it. */
  function Meant(ord: Ordering, table: Table, colon: bool, words: seq<Word>, tail: Option<seq<string>>, optopt: char): Scan
  {
    if words == [] then
      match tail
      case None => Scan([], [], [])
      case Some(rest) => Scan([], ["--"], rest)
    else
      match words[0]
      case Cluster(letters, e) =>
        var later := Meant(ord, table, colon, words[1..], tail, LastOffender(table, letters, e, optopt));
        Scan(ClusterReports(table, colon, letters, e, optopt) + later.outcomes,
             Elements(words[0]) + later.taken, later.operands)
      case Operand(text) =>
        if ord.RequireOrder? then Scan([], [], LineText(words, tail))
        else
          var later := Meant(ord, table, colon, words[1..], tail, optopt);
          if ord.ReturnInOrder? then Scan([Outcome(1, Some(text), optopt)] + later.outcomes, [text] + later.taken, later.operands)
          else Scan(later.outcomes, later.taken, [text] + later.operands)
  }

  // ----- reading the option string

  /** How an option string says whether a letter is an option and takes an argument. */
  predicate Coded(opts: string, c: char, arg: Option<Arg>)
  {
    var k := FirstIndex(opts, c);
    match arg
    case None => k == |opts|
    case Some(a) =>
      && k < |opts|
      && (CharAt(opts, k + 1) == ':' <==> a != No)
      && (CharAt(opts, k + 1) == ':' ==> (CharAt(opts, k + 2) == ':' <==> a == Optional))
  }

  lemma {:induction false} CodedBehind(p: string, opts: string, c: char, arg: Option<Arg>)
    requires c !in p && Coded(opts, c, arg)
    ensures Coded(p + opts, c, arg)
  {
    var k := FirstIndex(opts, c);
    if k < |opts| {
      assert opts == opts[..k] + [c] + opts[k + 1..];
      assert p + opts == (p + opts[..k]) + [c] + opts[k + 1..];
      FirstIndexIs(p + opts[..k], c, opts[k + 1..]);
    } else {
      assert opts[..k] == opts;
      assert c !in p + opts;
    }
  }

  lemma {:induction false} TableTextStart(table: Table)
    requires GoodTable(table)
    ensures CharAt(TableText(table), 0) != ':'
  {
  }

  lemma {:induction false} CodedFirst(table: Table)
    requires GoodTable(table) && table != []
    ensures Coded(TableText(table), table[0].0, Some(table[0].1))
  {
    var opts, rest := TableText(table), TableText(table[1..]);
    TableTextStart(table[1..]);
    assert FirstIndex(opts, table[0].0) == 0;
    var colons := Colons(table[0].1);
    assert opts == [table[0].0] + colons + rest;
    assert CharAt(opts, 1 + |colons|) == CharAt(rest, 0);
    assert colons != "" ==> opts[1] == colons[0];
    assert |colons| == 2 ==> opts[2] == colons[1];
  }

  lemma {:induction false} LookupIsCoded(table: Table, c: char)
    requires GoodTable(table) && c != ':'
    ensures Coded(TableText(table), c, Lookup(table, c))
  {
    if table != [] {
      if table[0].0 == c {
        CodedFirst(table);
      } else {
        LookupIsCoded(table[1..], c);
        var p := [table[0].0] + Colons(table[0].1);
        assert c !in Colons(table[0].1);
        CodedBehind(p, TableText(table[1..]), c, Lookup(table, c));
      }
    }
  }

  lemma {:induction false} NeverInTable(table: Table, c: char)
    requires GoodTable(table) && (c == ':' || c == ';')
    ensures Lookup(table, c) == None
  {
    if table != [] {
      NeverInTable(table[1..], c);
    }
  }

  lemma {:induction false} OptionsCoded(colon: bool, table: Table, c: char)
    requires GoodTable(table) && c != ':'
    ensures Coded(Options(colon, table), c, Lookup(table, c))
    ensures CharAt(Options(colon, table), 0) == ':' <==> colon
  {
    LookupIsCoded(table, c);
    TableTextStart(table);
    if colon {
      CodedBehind(":", TableText(table), c, Lookup(table, c));
    } else {
      assert "" + TableText(table) == TableText(table);
    }
  }

  // ----- reading one option

  lemma {:induction false} FlagRead(opts: string, args: seq<string>, p: Place)
    requires p.nextchar != [] && p.optind < |args| && p.nextchar[0] != ':' && p.nextchar[0] != ';'
    requires Coded(opts, p.nextchar[0], Some(No))
    ensures ShortOption(opts, args, p)
         == (Outcome(p.nextchar[0] as int, None, p.optopt),
             Place(if |p.nextchar| == 1 then p.optind + 1 else p.optind, p.nextchar[1..], p.optopt))
  {
  }

  lemma {:induction false} UnknownRead(opts: string, args: seq<string>, p: Place)
    requires p.nextchar != [] && p.optind < |args|
    requires p.nextchar[0] == ':' || p.nextchar[0] == ';' || Coded(opts, p.nextchar[0], None)
    ensures ShortOption(opts, args, p)
         == (Outcome('?' as int, None, p.nextchar[0]),
             Place(if |p.nextchar| == 1 then p.optind + 1 else p.optind, p.nextchar[1..], p.nextchar[0]))
  {
  }

  lemma {:induction false} LetterRead(colon: bool, table: Table, args: seq<string>, p: Place)
    requires GoodTable(table) && p.nextchar != [] && p.optind < |args| && LetterFits(table, p.nextchar[0])
    ensures var c, unknown := p.nextchar[0], Lookup(table, p.nextchar[0]) == None;
            ShortOption(Options(colon, table), args, p)
            == (if unknown then Outcome('?' as int, None, c) else Outcome(c as int, None, p.optopt),
                Place(if |p.nextchar| == 1 then p.optind + 1 else p.optind, p.nextchar[1..], if unknown then c else p.optopt))
  {
    var c := p.nextchar[0];
    if c == ':' || c == ';' {
      NeverInTable(table, c);
      UnknownRead(Options(colon, table), args, p);
    } else {
      OptionsCoded(colon, table, c);
      if Lookup(table, c) == None {
        UnknownRead(Options(colon, table), args, p);
      } else {
        FlagRead(Options(colon, table), args, p);
      }
    }
  }

  lemma {:induction false} EndingRead(colon: bool, table: Table, args: seq<string>, i: nat, e: Ending, optopt: char)
    requires GoodTable(table) && EndingFits(table, e) && !e.Plain? && i < |args|
    requires e.Separate? ==> i + 1 < |args| && args[i + 1] == e.text
    requires e.Missing? ==> i + 1 == |args|
    ensures ShortOption(Options(colon, table), args, Place(i, Suffix(e), optopt))
         == (EndingReports(colon, e, optopt)[0],
             Place(if e.Separate? then i + 2 else i + 1, [], if e.Missing? then e.c else optopt))
  {
    NeverInTable(table, ':');
    NeverInTable(table, ';');
    OptionsCoded(colon, table, e.c);
    if e.Attached? {
      assert Suffix(e)[1..] == e.text;
      AttachedRead(Options(colon, table), args, i, e.c, e.text, Lookup(table, e.c), optopt);
    } else if e.Absent? {
      AbsentRead(Options(colon, table), args, i, e.c, optopt);
    } else {
      RequiredRead(Options(colon, table), args, i, e.c, optopt);
    }
  }

  lemma {:induction false} AttachedRead(opts: string, args: seq<string>, i: nat, c: char, text: string, arg: Option<Arg>,
                                        optopt: char)
    requires i < |args| && c != ':' && c != ';' && text != "" && Coded(opts, c, arg) && arg != None && arg != Some(No)
    ensures ShortOption(opts, args, Place(i, [c] + text, optopt)) == (Outcome(c as int, Some(text), optopt), Place(i + 1, [], optopt))
  {
    assert ([c] + text)[1..] == text;
  }

  lemma {:induction false} AbsentRead(opts: string, args: seq<string>, i: nat, c: char, optopt: char)
    requires i < |args| && c != ':' && c != ';' && Coded(opts, c, Some(Optional))
    ensures ShortOption(opts, args, Place(i, [c], optopt)) == (Outcome(c as int, None, optopt), Place(i + 1, [], optopt))
  {
  }

  lemma {:induction false} RequiredRead(opts: string, args: seq<string>, i: nat, c: char, optopt: char)
    requires i < |args| && c != ':' && c != ';' && Coded(opts, c, Some(Required))
    ensures ShortOption(opts, args, Place(i, [c], optopt))
         == if i + 1 < |args| then (Outcome(c as int, Some(args[i + 1]), optopt), Place(i + 2, [], optopt))
            else (Outcome(if CharAt(opts, 0) == ':' then ':' as int else '?' as int, None, c), Place(i + 1, [], c))
  {
  }

  // ----- reading a cluster

  /** The scan `s` is these reports and elements, and then `later`. */
  ghost predicate Follows(s: Scan, reports: seq<Outcome>, taken: seq<string>, later: Scan)
  {
    s == Scan(reports + later.outcomes, taken + later.taken, later.operands)
  }

  lemma {:induction false} FollowsOn(s: Scan, o: Outcome, middle: Scan, reports: seq<Outcome>, taken: seq<string>, later: Scan)
    requires s == Then(o, [], middle) && Follows(middle, reports, taken, later)
    ensures Follows(s, [o] + reports, taken, later)
  {
    Regroup([o], reports, later.outcomes);
    assert [] + middle.taken == middle.taken;
  }

  lemma {:induction false} ReportsStep(table: Table, colon: bool, letters: string, e: Ending, optopt: char, o: Outcome,
                                       optopt': char)
    requires letters != ""
    requires var c, unknown := letters[0], Lookup(table, letters[0]) == None;
             && o == (if unknown then Outcome('?' as int, None, c) else Outcome(c as int, None, optopt))
             && optopt' == if unknown then c else optopt
    ensures ClusterReports(table, colon, letters, e, optopt) == [o] + ClusterReports(table, colon, letters[1..], e, optopt')
    ensures LastOffender(table, letters, e, optopt) == LastOffender(table, letters[1..], e, optopt')
  {
    var more := letters[1..];
    Regroup([o], LetterReports(table, more, optopt'), EndingReports(colon, e, LastUnknown(table, more, optopt')));
  }

  lemma {:induction false} EndingAlone(ord: Ordering, colon: bool, table: Table, args: seq<string>, i: nat, j: nat,
                                       e: Ending, optopt: char)
    requires GoodTable(table) && EndingFits(table, e) && !e.Plain? && i < |args|
    requires e.Separate? ==> i + 1 < |args| && args[i + 1] == e.text
    requires e.Missing? ==> i + 1 == |args|
    requires j == if e.Separate? then i + 2 else i + 1
    ensures var opts := Options(colon, table);
            var later := ScanFrom(ord, opts, args, Place(j, [], LastOffender(table, "", e, optopt)));
            Follows(ScanFrom(ord, opts, args, Place(i, Suffix(e), optopt)),
                    ClusterReports(table, colon, "", e, optopt), args[i..j], later)
  {
    EndingRead(colon, table, args, i, e, optopt);
    assert [] + EndingReports(colon, e, optopt) == EndingReports(colon, e, optopt) == [EndingReports(colon, e, optopt)[0]];
  }

  lemma {:induction false} LastLetter(ord: Ordering, opts: string, args: seq<string>, i: nat, s: string, optopt: char,
                                      o: Outcome, optopt': char)
    requires i < |args| && s != [] && ShortOption(opts, args, Place(i, s, optopt)) == (o, Place(i + 1, [], optopt'))
    ensures Follows(ScanFrom(ord, opts, args, Place(i, s, optopt)), [o], args[i..i + 1], ScanFrom(ord, opts, args, Place(i + 1, [], optopt')))
  {
  }

  lemma {:induction false} InnerLetter(ord: Ordering, opts: string, args: seq<string>, i: nat, s: string, optopt: char,
                                       o: Outcome, optopt': char)
    requires i < |args| && |s| > 1 && ShortOption(opts, args, Place(i, s, optopt)) == (o, Place(i, s[1..], optopt'))
    ensures ScanFrom(ord, opts, args, Place(i, s, optopt)) == Then(o, [], ScanFrom(ord, opts, args, Place(i, s[1..], optopt')))
  {
    assert args[i..i] == [];
  }

  lemma {:induction false} ClusterRead(ord: Ordering, colon: bool, table: Table, args: seq<string>, i: nat, j: nat,
                                       letters: string, e: Ending, optopt: char)
    requires GoodTable(table) && EndingFits(table, e) && i < |args|
    requires forall c :: c in letters ==> LetterFits(table, c)
    requires letters + Suffix(e) != ""
    requires e.Separate? ==> i + 1 < |args| && args[i + 1] == e.text
    requires e.Missing? ==> i + 1 == |args|
    requires j == if e.Separate? then i + 2 else i + 1
    ensures var opts := Options(colon, table);
            var later := ScanFrom(ord, opts, args, Place(j, [], LastOffender(table, letters, e, optopt)));
            Follows(ScanFrom(ord, opts, args, Place(i, letters + Suffix(e), optopt)),
                    ClusterReports(table, colon, letters, e, optopt), args[i..j], later)
    decreases |letters|
  {
    var opts, s := Options(colon, table), letters + Suffix(e);
    if letters == "" {
      assert s == Suffix(e);
      EndingAlone(ord, colon, table, args, i, j, e, optopt);
    } else {
      var more := letters[1..];
      assert s[0] == letters[0] && s[1..] == more + Suffix(e);
      LetterRead(colon, table, args, Place(i, s, optopt));
      var (o, p') := ShortOption(opts, args, Place(i, s, optopt));
      ReportsStep(table, colon, letters, e, optopt, o, p'.optopt);
      if s[1..] == "" {
        LastLetter(ord, opts, args, i, s, optopt, o, p'.optopt);
        NothingMore(table, colon, more, e, o, p'.optopt);
      } else {
        ClusterRead(ord, colon, table, args, i, j, more, e, p'.optopt);
        InnerLetter(ord, opts, args, i, s, optopt, o, p'.optopt);
        FollowsOn(ScanFrom(ord, opts, args, Place(i, s, optopt)), o, ScanFrom(ord, opts, args, p'),
                  ClusterReports(table, colon, more, e, p'.optopt), args[i..j],
                  ScanFrom(ord, opts, args, Place(j, [], LastOffender(table, letters, e, optopt))));
      }
    }
  }

  lemma {:induction false} NothingMore(table: Table, colon: bool, more: string, e: Ending, o: Outcome, optopt: char)
    requires more + Suffix(e) == ""
    ensures e.Plain? && [o] + ClusterReports(table, colon, more, e, optopt) == [o] && LastOffender(table, more, e, optopt) == optopt
  {
    assert more == "" && Suffix(e) == "";
  }

  // ----- reading the line

  lemma {:induction false} WordStarts(ord: Ordering, opts: string, args: seq<string>, i: nat, optopt: char)
    requires i < |args| && !IsOperand(args[i]) && args[i] != "--"
    ensures ScanFrom(ord, opts, args, Place(i, [], optopt)) == ScanFrom(ord, opts, args, Place(i, args[i][1..], optopt))
  {
  }

  lemma {:induction false} FirstElements(args: seq<string>, i: nat, first: seq<string>, rest: seq<string>)
    requires i <= |args| && args[i..] == first + rest
    ensures i + |first| <= |args| && args[i..i + |first|] == first && args[i + |first|..] == rest
    ensures forall k :: 0 <= k < |first| ==> args[i + k] == first[k]
  {
    assert forall k :: 0 <= k < |first| ==> args[i + k] == args[i..][k];
  }

  lemma {:induction false} LineFitsOn(table: Table, words: seq<Word>, tail: Option<seq<string>>)
    requires LineFits(table, words, tail) && words != []
    ensures LineFits(table, words[1..], tail) && WordFits(table, words[0])
    ensures words[0].Cluster? && words[0].ending.Missing? ==> words[1..] == [] && tail == None
  {
    assert forall i :: 0 <= i < |words| - 1 ==> words[1..][i] == words[i + 1];
  }

  lemma {:induction false} ClusterText(letters: string, e: Ending)
    requires letters + Suffix(e) != "" && letters + Suffix(e) != "-"
    ensures var arg := "-" + (letters + Suffix(e)); !IsOperand(arg) && arg != "--" && arg[1..] == letters + Suffix(e)
  {
    var arg := "-" + (letters + Suffix(e));
    assert arg[1..] == letters + Suffix(e);
    assert "--"[1..] == "-";
  }

  lemma {:induction false} TailRead(ord: Ordering, colon: bool, table: Table, args: seq<string>, i: nat,
                                    tail: Option<seq<string>>, optopt: char)
    requires i <= |args| && args[i..] == LineText([], tail)
    ensures ScanFrom(ord, Options(colon, table), args, Place(i, [], optopt)) == Meant(ord, table, colon, [], tail, optopt)
  {
    if tail != None {
      FirstElements(args, i, ["--"], tail.value);
    }
  }

  lemma {:induction false} ClusterWordRead(ord: Ordering, colon: bool, table: Table, args: seq<string>, i: nat,
                                           j: nat, w: Word, optopt: char)
    requires GoodTable(table) && w.Cluster? && WordFits(table, w)
    requires i + |Elements(w)| == j <= |args| && args[i..j] == Elements(w)
    requires w.ending.Missing? ==> i + 1 == |args|
    ensures var opts := Options(colon, table);
            var later := ScanFrom(ord, opts, args, Place(j, [], LastOffender(table, w.letters, w.ending, optopt)));
            Follows(ScanFrom(ord, opts, args, Place(i, [], optopt)),
                    ClusterReports(table, colon, w.letters, w.ending, optopt), Elements(w), later)
  {
    var opts := Options(colon, table);
    assert args[i] == args[i..j][0];
    assert w.ending.Separate? ==> args[i + 1] == args[i..j][1];
    ClusterText(w.letters, w.ending);
    WordStarts(ord, opts, args, i, optopt);
    ClusterRead(ord, colon, table, args, i, j, w.letters, w.ending, optopt);
  }

  lemma {:induction false} OperandRead(ord: Ordering, opts: string, args: seq<string>, i: nat, text: string, optopt: char)
    requires i < |args| && args[i] == text && (text == "" || text == "-" || text[0] != '-')
    ensures var s, later := ScanFrom(ord, opts, args, Place(i, [], optopt)), ScanFrom(ord, opts, args, Place(i + 1, [], optopt));
            s == match ord
                 case RequireOrder => Scan([], [], args[i..])
                 case ReturnInOrder => Scan([Outcome(1, Some(text), optopt)] + later.outcomes, [text] + later.taken, later.operands)
                 case Permute => Scan(later.outcomes, later.taken, [text] + later.operands)
  {
    assert IsOperand(text);
  }

  lemma {:induction false} ClusterStep(ord: Ordering, colon: bool, table: Table, args: seq<string>, i: nat, j: nat, w: Word,
                                       words: seq<Word>, tail: Option<seq<string>>, optopt: char, optopt': char)
    requires GoodTable(table) && w.Cluster? && WordFits(table, w) && words != [] && words[0] == w
    requires i + |Elements(w)| == j <= |args| && args[i..j] == Elements(w)
    requires w.ending.Missing? ==> i + 1 == |args|
    requires optopt' == LastOffender(table, w.letters, w.ending, optopt)
    requires ScanFrom(ord, Options(colon, table), args, Place(j, [], optopt'))
          == Meant(ord, table, colon, words[1..], tail, optopt')
    ensures ScanFrom(ord, Options(colon, table), args, Place(i, [], optopt)) == Meant(ord, table, colon, words, tail, optopt)
  {
    ClusterWordRead(ord, colon, table, args, i, j, w, optopt);
  }

  lemma {:induction false} OperandStep(ord: Ordering, colon: bool, table: Table, args: seq<string>, i: nat, j: nat, text: string,
                                       words: seq<Word>, tail: Option<seq<string>>, optopt: char)
    requires words != [] && words[0] == Operand(text) && WordFits(table, words[0])
    requires i + 1 == j <= |args| && args[i] == text && args[i..] == LineText(words, tail)
    requires ScanFrom(ord, Options(colon, table), args, Place(j, [], optopt))
          == Meant(ord, table, colon, words[1..], tail, optopt)
    ensures ScanFrom(ord, Options(colon, table), args, Place(i, [], optopt)) == Meant(ord, table, colon, words, tail, optopt)
  {
    OperandRead(ord, Options(colon, table), args, i, text, optopt);
  }

  lemma {:induction false} WordAt(table: Table, args: seq<string>, i: nat, j: nat, words: seq<Word>, tail: Option<seq<string>>)
    requires LineFits(table, words, tail) && words != []
    requires i <= |args| && args[i..] == LineText(words, tail) && j == i + |Elements(words[0])|
    ensures var w := words[0];
            && WordFits(table, w) && LineFits(table, words[1..], tail)
            && j <= |args| && args[i..j] == Elements(w) && args[i] == Elements(w)[0]
            && args[j..] == LineText(words[1..], tail)
            && (w.Cluster? && w.ending.Missing? ==> i + 1 == |args|)
  {
    LineFitsOn(table, words, tail);
    FirstElements(args, i, Elements(words[0]), LineText(words[1..], tail));
  }

  /** The scan of a line reports what is meant by it. */
  lemma {:induction false} LineRead(ord: Ordering, colon: bool, table: Table, args: seq<string>, i: nat,
                                    words: seq<Word>, tail: Option<seq<string>>, optopt: char)
    requires GoodTable(table) && LineFits(table, words, tail)
    requires i <= |args| && args[i..] == LineText(words, tail)
    ensures ScanFrom(ord, Options(colon, table), args, Place(i, [], optopt)) == Meant(ord, table, colon, words, tail, optopt)
    decreases |words|
  {
    if words == [] {
      TailRead(ord, colon, table, args, i, tail, optopt);
    } else {
      var w, j := words[0], i + |Elements(words[0])|;
      WordAt(table, args, i, j, words, tail);
      if w.Cluster? {
        var optopt' := LastOffender(table, w.letters, w.ending, optopt);
        LineRead(ord, colon, table, args, j, words[1..], tail, optopt');
        ClusterStep(ord, colon, table, args, i, j, w, words, tail, optopt, optopt');
      } else {
        LineRead(ord, colon, table, args, j, words[1..], tail, optopt);
        OperandStep(ord, colon, table, args, i, j, w.text, words, tail, optopt);
      }
    }
  }

  // ----- the whole option string

  lemma {:induction false} NoSemicolon(table: Table)
    requires GoodTable(table)
    ensures ';' !in TableText(table)
  {
    if table != [] {
      NoSemicolon(table[1..]);
      assert ';' !in Colons(table[0].1);
    }
  }

  lemma {:induction false} NoExtension(colon: bool, table: Table)
    requires GoodTable(table)
    ensures !HasWExtension(Options(colon, table))
  {
    NoSemicolon(table);
    var opts := Options(colon, table);
    assert ';' !in opts;
    assert forall i: nat :: i < |opts| ==> opts[i] in opts;
  }

  lemma {:induction false} MarkIsRead(mark: string, posixlyCorrect: bool, opts: string)
    requires mark == "" || mark == "-" || mark == "+"
    requires mark == "" ==> CharAt(opts, 0) != '-' && CharAt(opts, 0) != '+'
    ensures Unmarked(mark + opts) == opts
    ensures OrderingOf(mark + opts, posixlyCorrect)
         == if mark == "-" then ReturnInOrder else if mark == "+" || posixlyCorrect then RequireOrder else Permute
  {
    if mark == "" {
      assert "" + opts == opts;
    } else {
      assert (mark + opts)[1..] == opts;
    }
  }

  /** A whole line behind the program's name: a leading `-` reports operands where they stand, a
      leading `+` or the environment's flag ends the scan at the first, and otherwise they are put
      behind the options. */
  lemma {:induction false} ScanOfLine(mark: string, posixlyCorrect: bool, colon: bool, table: Table, program: string,
                                      words: seq<Word>, tail: Option<seq<string>>)
    requires GoodTable(table) && LineFits(table, words, tail)
    requires mark == "" || mark == "-" || mark == "+"
    requires mark == "" && !colon && table != [] ==> table[0].0 != '-' && table[0].0 != '+'
    ensures var optstring := mark + Options(colon, table);
            && !HasWExtension(Unmarked(optstring))
            && ScanFrom(OrderingOf(optstring, posixlyCorrect), Unmarked(optstring), [program] + LineText(words, tail), Place(1, [], '\0'))
            == Meant(if mark == "-" then ReturnInOrder else if mark == "+" || posixlyCorrect then RequireOrder else Permute,
                     table, colon, words, tail, '\0')
  {
    var opts, args := Options(colon, table), [program] + LineText(words, tail);
    FirstOfOptions(colon, table);
    MarkIsRead(mark, posixlyCorrect, opts);
    NoExtension(colon, table);
    assert args[1..] == LineText(words, tail);
    LineRead(OrderingOf(mark + opts, posixlyCorrect), colon, table, args, 1, words, tail, '\0');
  }

  lemma {:induction false} FirstOfOptions(colon: bool, table: Table)
    ensures CharAt(Options(colon, table), 0) == if colon then ':' else if table == [] then '\0' else table[0].0
  {
    assert "" + TableText(table) == TableText(table);
  }

  // ----- every line

  /** The letters in front of the first option that takes an argument. */
  function Front(table: Table, s: string): (n: nat)
    ensures n <= |s| && (forall i :: 0 <= i < n ==> LetterFits(table, s[i])) && (n < |s| ==> !LetterFits(table, s[n]))
  {
    if s == "" || !LetterFits(table, s[0]) then 0 else 1 + Front(table, s[1..])
  }

  /** How a cluster ends that is followed by `next`. */
  function EndingOf(table: Table, s: string, next: seq<string>): Ending
  {
    var n := Front(table, s);
    if n == |s| then Plain
    else if n + 1 < |s| then Attached(s[n], s[n + 1..])
    else if Lookup(table, s[n]) == Some(Optional) then Absent(s[n])
    else if next == [] then Missing(s[n])
    else Separate(s[n], next[0])
  }

  lemma {:induction false} ArgOfOther(arg: Option<Arg>)
    requires arg != None && arg != Some(No)
    ensures arg == Some(Required) || arg == Some(Optional)
  {
    match arg.value
    case No =>
    case Required =>
    case Optional =>
  }

  lemma {:induction false} ClusterOf(table: Table, s: string, next: seq<string>)
    requires s != "" && s != "-"
    ensures var w := Cluster(s[..Front(table, s)], EndingOf(table, s, next));
            && WordFits(table, w) && w.letters + Suffix(w.ending) == s
            && (w.ending.Missing? ==> next == []) && (w.ending.Separate? ==> next != [] && next[0] == w.ending.text)
  {
    var n, e := Front(table, s), EndingOf(table, s, next);
    assert forall c :: c in s[..n] ==> LetterFits(table, c);
    assert s[..n] + s[n..] == s;
    if n < |s| {
      assert s[n..] == [s[n]] + s[n + 1..];
      ArgOfOther(Lookup(table, s[n]));
      assert n + 1 == |s| ==> s[n + 1..] == [] && [s[n]] + [] == [s[n]];
    }
    assert Suffix(e) == s[n..];
  }

  lemma {:induction false} WordInFront(table: Table, w: Word, words: seq<Word>, tail: Option<seq<string>>)
    requires WordFits(table, w) && LineFits(table, words, tail)
    requires w.Cluster? && w.ending.Missing? ==> words == [] && tail == None
    ensures LineFits(table, [w] + words, tail) && LineText([w] + words, tail) == Elements(w) + LineText(words, tail)
  {
    assert ([w] + words)[1..] == words;
  }

  /** So the meaning of every argument list is settled: each is the text of a line. */
  lemma {:induction false} EveryLineIsWritten(table: Table, args: seq<string>) returns (words: seq<Word>,
                                              tail: Option<seq<string>>)
    ensures LineFits(table, words, tail) && LineText(words, tail) == args
    decreases |args|
  {
    if args == [] {
      words, tail := [], None;
    } else if args[0] == "--" {
      words, tail := [], Some(args[1..]);
      assert ["--"] + args[1..] == args;
    } else {
      var w := FirstWord(table, args);
      var n := |Elements(w)|;
      words, tail := EveryLineIsWritten(table, args[n..]);
      EmptyLine(words, tail);
      WordInFront(table, w, words, tail);
      assert args[..n] + args[n..] == args;
      words := [w] + words;
    }
  }

  lemma {:induction false} EmptyLine(words: seq<Word>, tail: Option<seq<string>>)
    ensures LineText(words, tail) == [] ==> words == [] && tail == None
  {
  }

  lemma {:induction false} FirstWord(table: Table, args: seq<string>) returns (w: Word)
    requires args != [] && args[0] != "--"
    ensures WordFits(table, w) && |Elements(w)| <= |args| && args[..|Elements(w)|] == Elements(w)
    ensures w.Cluster? && w.ending.Missing? ==> |args| == 1
  {
    var arg := args[0];
    if IsOperand(arg) {
      w := Operand(arg);
      assert |arg| == 1 && arg[0] == '-' ==> arg == "-";
    } else {
      var s := arg[1..];
      assert arg == "-" + s;
      assert s == "-" ==> arg == "--";
      ClusterOf(table, s, args[1..]);
      w := Cluster(s[..Front(table, s)], EndingOf(table, s, args[1..]));
      assert args[..1] == ["-" + s];
      if w.ending.Separate? {
        assert args[..2] == ["-" + s] + [args[1]];
      }
    }
  }

  /** The option string `o:` with an argument in the next element and with none left, and `:o:`. */
  lemma {:induction false} OneOption(text: string)
    ensures ScanFrom(Permute, "o:", ["prog", "-o", text], Place(1, [], '\0'))
         == Scan([Outcome('o' as int, Some(text), '\0')], ["-o", text], [])
    ensures ScanFrom(Permute, "o:", ["prog", "-o"], Place(1, [], '\0')) == Scan([Outcome('?' as int, None, 'o')], ["-o"], [])
    ensures ScanFrom(Permute, ":o:", ["prog", "-o"], Place(1, [], '\0')) == Scan([Outcome(':' as int, None, 'o')], ["-o"], [])
  {
    var table: Table := [('o', Required)];
    assert table[1..] == [];
    assert TableText(table) == "o" + ":" + TableText([]) == "o:";
    assert Options(false, table) == "" + "o:" == "o:" && Options(true, table) == ":" + "o:" == ":o:";
    assert "" + "o" == "o" && "-" + "o" == "-o" && ["-o"] + [text] == ["-o", text];
    assert ["prog", "-o", text][1..] == ["-o", text] && ["prog", "-o"][1..] == ["-o"];
    OneWord(false, table, ["prog", "-o", text], Cluster("", Separate('o', text)));
    OneWord(false, table, ["prog", "-o"], Cluster("", Missing('o')));
    OneWord(true, table, ["prog", "-o"], Cluster("", Missing('o')));
  }

  lemma {:induction false} OneWord(colon: bool, table: Table, args: seq<string>, w: Word)
    requires GoodTable(table) && WordFits(table, w) && w.Cluster? && w.letters == ""
    requires args != [] && args[1..] == Elements(w)
    ensures ScanFrom(Permute, Options(colon, table), args, Place(1, [], '\0'))
         == Scan(EndingReports(colon, w.ending, '\0'), Elements(w), [])
  {
    assert [w][1..] == [];
    assert LineText([w], None) == Elements(w) + [];
    LineRead(Permute, colon, table, args, 1, [w], None, '\0');
    var later := Meant(Permute, table, colon, [], None, LastOffender(table, "", w.ending, '\0'));
    assert later == Scan([], [], []);
    assert [] + EndingReports(colon, w.ending, '\0') + [] == EndingReports(colon, w.ending, '\0');
  }
}
