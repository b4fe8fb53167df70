/** What an option scanner should find: one pass over the arguments that moves nothing. */
module GetoptScan {
  import opened Wrappers
  import opened Strings

  datatype Ordering = RequireOrder | Permute | ReturnInOrder

  /** What one call reports: its result, and `optarg` and `optopt` behind it. */
  datatype Outcome = Outcome(code: int, optarg: Option<string>, optopt: char)

  /** Where the scan stands: the next argument, the rest of the option cluster at hand (empty
      between arguments), and the last offending character. */
  datatype Place = Place(optind: nat, nextchar: string, optopt: char)

  /** A C string read at an index: zero behind the end. */
  function CharAt(s: string, i: nat): char
  {
    if i < |s| then s[i] else '\0'
  }

  predicate IsOperand(arg: string)
  {
    CharAt(arg, 0) != '-' || |arg| == 1
  }

  /** The one option string whose `W` entry is an extension that is not modelled. */
  predicate HasWExtension(opts: string)
  {
    CharAt(opts, FirstIndex(opts, 'W') + 1) == ';' && 'W' in opts
  }

  /** The short option at the front of `p.nextchar`. */
  function ShortOption(opts: string, args: seq<string>, p: Place): (r: (Outcome, Place))
    requires p.nextchar != [] && p.optind < |args|
    ensures p.optind <= r.1.optind <= |args|
    ensures r.1.optind == p.optind ==> 0 < |r.1.nextchar| < |p.nextchar|
    ensures r.1.nextchar != [] ==> r.1.optind < |args|
  {
    var c, rest, k := p.nextchar[0], p.nextchar[1..], FirstIndex(opts, p.nextchar[0]);
    var i := if rest == [] then p.optind + 1 else p.optind;
    if k == |opts| || c == ':' || c == ';' then (Outcome('?' as int, None, c), Place(i, rest, c))
    else if CharAt(opts, k + 1) != ':' then (Outcome(c as int, None, p.optopt), Place(i, rest, p.optopt))
    else if rest != [] then (Outcome(c as int, Some(rest), p.optopt), Place(i + 1, [], p.optopt))
    else if CharAt(opts, k + 2) == ':' then (Outcome(c as int, None, p.optopt), Place(i, [], p.optopt))
    else if i == |args| then
      (Outcome(if CharAt(opts, 0) == ':' then ':' as int else '?' as int, None, c), Place(i, [], c))
    else (Outcome(c as int, Some(args[i]), p.optopt), Place(i + 1, [], p.optopt))
  }

  /** A whole scan: the reports, the arguments taken as options and their arguments, and the
      operands, each in the order in which they stand. */
  datatype Scan = Scan(outcomes: seq<Outcome>, taken: seq<string>, operands: seq<string>)

  function Then(o: Outcome, taken: seq<string>, later: Scan): Scan
  {
    Scan([o] + later.outcomes, taken + later.taken, later.operands)
  }

  function ScanFrom(ord: Ordering, opts: string, args: seq<string>, p: Place): Scan
    requires p.optind <= |args| && (p.nextchar != [] ==> p.optind < |args|)
    decreases |args| - p.optind,
              if p.nextchar != [] then |p.nextchar| else if p.optind < |args| then |args[p.optind]| else 0
  {
    if p.nextchar != [] then
      var (o, p') := ShortOption(opts, args, p);
      Then(o, args[p.optind..p'.optind], ScanFrom(ord, opts, args, p'))
    else if p.optind == |args| then Scan([], [], [])
    else
      var arg := args[p.optind];
      if IsOperand(arg) then
        match ord
        case RequireOrder => Scan([], [], args[p.optind..])
        case ReturnInOrder =>
          Then(Outcome(1, Some(arg), p.optopt), [arg], ScanFrom(ord, opts, args, p.(optind := p.optind + 1)))
        case Permute =>
          var later := ScanFrom(ord, opts, args, p.(optind := p.optind + 1));
          later.(operands := [arg] + later.operands)
      else if arg == "--" then Scan([], [arg], args[p.optind + 1..])
      else
        var (o, p') := ShortOption(opts, args, p.(nextchar := arg[1..]));
        Then(o, args[p.optind..p'.optind], ScanFrom(ord, opts, args, p'))
  }

  // ----- what the scan means

  /** `s` is `x` and `y` merged, both in order. */
  ghost predicate Merged(s: seq<string>, x: seq<string>, y: seq<string>)
  {
    if s == [] then x == [] && y == []
    else (x != [] && s[0] == x[0] && Merged(s[1..], x[1..], y)) || (y != [] && s[0] == y[0] && Merged(s[1..], x, y[1..]))
  }

  lemma {:induction false} MergedOperands(s: seq<string>)
    ensures Merged(s, [], s)
  {
    if s != [] {
      MergedOperands(s[1..]);
    }
  }

  lemma {:induction false} MergedTaken(t: seq<string>, s: seq<string>, x: seq<string>, y: seq<string>)
    requires Merged(s, x, y)
    ensures Merged(t + s, t + x, y)
  {
    if t != [] {
      MergedTaken(t[1..], s, x, y);
      assert (t + s)[1..] == t[1..] + s && (t + x)[1..] == t[1..] + x;
    } else {
      assert t + s == s && t + x == x;
    }
  }

  lemma {:induction false} MergedSlice(args: seq<string>, i: nat, j: nat, x: seq<string>, y: seq<string>)
    requires i <= j <= |args| && Merged(args[j..], x, y)
    ensures Merged(args[i..], args[i..j] + x, y)
  {
    MergedTaken(args[i..j], args[j..], x, y);
    assert args[i..j] + args[j..] == args[i..];
  }

  lemma {:induction false} MergedStop(args: seq<string>, i: nat)
    requires i < |args|
    ensures Merged(args[i..], [args[i]], args[i + 1..])
  {
    MergedOperands(args[i + 1..]);
    MergedSlice(args, i, i + 1, [], args[i + 1..]);
    assert args[i..i + 1] + [] == [args[i]];
  }

  lemma {:induction false} MergedOperand(args: seq<string>, i: nat, x: seq<string>, y: seq<string>)
    requires i < |args| && Merged(args[i + 1..], x, y)
    ensures Merged(args[i..], x, [args[i]] + y)
    ensures Merged(args[i..], [args[i]] + x, y)
  {
    MergedSlice(args, i, i + 1, x, y);
    assert args[i..i + 1] == [args[i]];
    assert args[i..][1..] == args[i + 1..] && ([args[i]] + y)[1..] == y;
  }

  /** The scan sorts the arguments into options and operands: none is lost, none is made up, and
      both keep their order. */
  lemma {:induction false} ScanMerges(ord: Ordering, opts: string, args: seq<string>, p: Place)
    requires p.optind <= |args| && (p.nextchar != [] ==> p.optind < |args|)
    ensures var s := ScanFrom(ord, opts, args, p); Merged(args[p.optind..], s.taken, s.operands)
    decreases |args| - p.optind,
              if p.nextchar != [] then |p.nextchar| else if p.optind < |args| then |args[p.optind]| else 0
  {
    var i := p.optind;
    if p.nextchar != [] || (i < |args| && !IsOperand(args[i]) && args[i] != "--") {
      var q := if p.nextchar != [] then p else p.(nextchar := args[i][1..]);
      var p' := ShortOption(opts, args, q).1;
      ScanMerges(ord, opts, args, p');
      var later := ScanFrom(ord, opts, args, p');
      MergedSlice(args, i, p'.optind, later.taken, later.operands);
    } else if i < |args| && IsOperand(args[i]) && ord != RequireOrder {
      ScanMerges(ord, opts, args, p.(optind := i + 1));
      OperandMerges(ord, opts, args, p);
    } else if i < |args| {
      StopMerges(ord, opts, args, p);
    }
  }

  lemma {:induction false} OperandMerges(ord: Ordering, opts: string, args: seq<string>, p: Place)
    requires p.optind < |args| && p.nextchar == [] && IsOperand(args[p.optind]) && ord != RequireOrder
    requires var later := ScanFrom(ord, opts, args, p.(optind := p.optind + 1));
             Merged(args[p.optind + 1..], later.taken, later.operands)
    ensures var s := ScanFrom(ord, opts, args, p); Merged(args[p.optind..], s.taken, s.operands)
  {
    var later := ScanFrom(ord, opts, args, p.(optind := p.optind + 1));
    MergedOperand(args, p.optind, later.taken, later.operands);
  }

  lemma {:induction false} StopMerges(ord: Ordering, opts: string, args: seq<string>, p: Place)
    requires p.optind < |args| && p.nextchar == []
    requires if IsOperand(args[p.optind]) then ord == RequireOrder else args[p.optind] == "--"
    ensures var s := ScanFrom(ord, opts, args, p); Merged(args[p.optind..], s.taken, s.operands)
  {
    if IsOperand(args[p.optind]) {
      MergedOperands(args[p.optind..]);
    } else {
      MergedStop(args, p.optind);
    }
  }

  /** A merge holds the same arguments, each as often. */
  lemma {:induction false} MergedSame(s: seq<string>, x: seq<string>, y: seq<string>)
    requires Merged(s, x, y)
    ensures multiset(s) == multiset(x) + multiset(y)
  {
    if s != [] {
      assert s == [s[0]] + s[1..];
      if x != [] && s[0] == x[0] && Merged(s[1..], x[1..], y) {
        assert x == [x[0]] + x[1..];
        MergedSame(s[1..], x[1..], y);
      } else {
        assert y == [y[0]] + y[1..];
        MergedSame(s[1..], x, y[1..]);
      }
    }
  }
}
