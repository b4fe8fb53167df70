/** The option scanner, which permutes the argument array while it reads it. */
module Getopt {
  import opened Wrappers
  import opened Sequences
  import opened Strings
  import opened GetoptExchange
  import opened GetoptScan

  /** `_getopt_initialize`: the ordering asked for, and the option string behind its mark. */
  function OrderingOf(optstring: string, posixlyCorrect: bool): Ordering
  {
    if CharAt(optstring, 0) == '-' then ReturnInOrder
    else if CharAt(optstring, 0) == '+' || posixlyCorrect then RequireOrder
    else Permute
  }

  function Unmarked(optstring: string): string
  {
    if CharAt(optstring, 0) == '-' || CharAt(optstring, 0) == '+' then optstring[1..] else optstring
  }

  /** `struct _getopt_data`, with a record of what a scan has done so far. */
  class GetoptData {
    var optind: nat
    var optopt: char
    var optarg: Option<string>
    var initialized: bool
    var nextchar: string
    var ordering: Ordering
    var firstNonopt: nat
    var lastNonopt: nat

    /** The arguments as they stood at first, and the index of the first scanned one. */
    ghost var original: seq<string>
    ghost var start: nat
    /** The arguments taken and the operands skipped so far. */
    ghost var taken: seq<string>
    ghost var operands: seq<string>

    constructor (optind: nat)
      ensures !initialized && optopt == '\0' && this.optind == optind && nextchar == []
    {
      this.optind := optind;
      optopt := '\0'; // the record is static
      optarg := None;
      initialized := false;
      nextchar := [];
      ordering := Permute;
      firstNonopt, lastNonopt := 0, 0;
      original, start, taken, operands := [], 0, [], [];
    }

    function Here(): Place
      reads this
    {
      Place(optind, nextchar, optopt)
    }

    /** The array during a scan: what was taken, around the block of skipped operands, then the
        arguments that were not reached, untouched. */
    ghost predicate Valid(argv: array<string>)
      reads this, argv
    {
      && initialized && start <= firstNonopt <= lastNonopt <= optind <= argv.Length == |original|
      && argv[..firstNonopt] + argv[lastNonopt..optind] == original[..start] + taken
      && argv[firstNonopt..lastNonopt] == operands
      && argv[optind..] == original[optind..]
      && (ordering != Permute ==> operands == [])
      && (nextchar != [] ==> optind < argv.Length)
    }

    /** The scan of the original arguments, split at the present place: `outcomes` are still to be
        reported, and the whole takes and skips what `all` says. */
    ghost predicate Scanning(argv: array<string>, opts: string, all: Scan)
      reads this, argv
    {
      Valid(argv) && Completes(opts, original, ordering, Here(), taken, operands, all)
    }

    method Initialize(argv: array<string>, optstring: string, posixlyCorrect: bool) returns (opts: string)
      requires optind <= argv.Length
      modifies this
      ensures Valid(argv) && nextchar == [] && ordering == OrderingOf(optstring, posixlyCorrect)
      ensures opts == Unmarked(optstring)
      ensures original == argv[..] && start == optind == old(optind) && taken == [] && operands == []
      ensures optopt == old(optopt) && optarg == old(optarg)
    {
      firstNonopt, lastNonopt := optind, optind;
      nextchar := [];
      initialized := true;
      original, start, taken, operands := argv[..], optind, [], [];
      opts := optstring;
      if CharAt(optstring, 0) == '-' {
        ordering := ReturnInOrder;
        opts := optstring[1..];
      } else if CharAt(optstring, 0) == '+' {
        ordering := RequireOrder;
        opts := optstring[1..];
      } else if posixlyCorrect {
        ordering := RequireOrder;
      } else {
        ordering := Permute;
      }
    }

    /** `exchange` */
    method Exchange(argv: array<string>)
      requires firstNonopt <= lastNonopt <= optind <= argv.Length
      modifies argv, `firstNonopt, `lastNonopt
      ensures argv[..] == Exchanged(old(argv[..]), old(firstNonopt), old(lastNonopt), optind)
      ensures firstNonopt == old(firstNonopt) + (optind - old(lastNonopt)) && lastNonopt == optind
    {
      ExchangeBlocks(argv, firstNonopt, lastNonopt, optind);
      firstNonopt := firstNonopt + (optind - lastNonopt);
      lastNonopt := optind;
    }

    /** The skipped operands stand right in front of `optind`, and all before them was taken. */
    ghost predicate Gathered(argv: array<string>)
      reads this, argv
    {
      && initialized && start <= firstNonopt <= optind <= argv.Length == |original|
      && argv[..firstNonopt] == original[..start] + taken
      && argv[firstNonopt..optind] == operands
      && argv[optind..] == original[optind..]
    }

    /** The first step of the permuting block: bring the skipped operands up to `optind`. */
    method Gather(argv: array<string>)
      requires Valid(argv)
      modifies argv, `firstNonopt, `lastNonopt
      ensures Gathered(argv)
    {
      if firstNonopt != lastNonopt && lastNonopt != optind {
        ghost var s := argv[..];
        Exchange(argv);
        ExchangedParts(s, old(firstNonopt), old(lastNonopt), optind);
      } else if lastNonopt != optind {
        assert argv[..firstNonopt] + argv[lastNonopt..optind] == argv[..optind];
        firstNonopt := optind;
      } else {
        assert argv[lastNonopt..optind] == [];
      }
    }

    /** The permuting block: gather, then skip operands. */
    method SkipOperands(argv: array<string>, ghost opts: string, ghost all: Scan)
      requires Scanning(argv, opts, all) && nextchar == [] && ordering == Permute
      modifies argv, `firstNonopt, `lastNonopt, `optind, `operands
      ensures Scanning(argv, opts, all) && Gathered(argv) && lastNonopt == optind
      ensures optind < argv.Length ==> !IsOperand(argv[optind])
      ensures optind >= old(optind)
    {
      Gather(argv);
      while optind < argv.Length && IsOperand(argv[optind])
        invariant optind >= old(optind)
        invariant Gathered(argv) && nextchar == [] && ordering == Permute
        invariant Completes(opts, original, ordering, Here(), taken, operands, all)
      {
        SkipOperand(argv, opts, all);
      }
      lastNonopt := optind;
      assert argv[lastNonopt..optind] == [];
    }

    method SkipOperand(argv: array<string>, ghost opts: string, ghost all: Scan)
      requires Gathered(argv) && nextchar == [] && ordering == Permute
      requires Completes(opts, original, ordering, Here(), taken, operands, all)
      requires optind < argv.Length && IsOperand(argv[optind])
      modifies `optind, `operands
      ensures Gathered(argv) && Completes(opts, original, ordering, Here(), taken, operands, all)
      ensures optind == old(optind) + 1
    {
      NextUnread(argv[..], original, optind);
      assert argv[firstNonopt..optind + 1] == operands + [argv[optind]];
      CompletesSkip(opts, original, Here(), taken, operands, all);
      operands := operands + [argv[optind]];
      optind := optind + 1;
    }

    /** The short option at the front of `nextchar`; it takes its argument out of the rest of the
        cluster or out of the next element. */
    method ShortOpt(argv: array<string>, opts: string, ghost all: Scan) returns (code: int)
      requires Valid(argv) && nextchar != [] && optarg == None && !HasWExtension(opts)
      requires var r := ShortOption(opts, original, Here());
               var later := ScanFrom(ordering, opts, original, r.1);
               && all.outcomes == [r.0] + later.outcomes
               && all.taken == taken + (original[optind..r.1.optind] + later.taken)
               && all.operands == operands + later.operands
      modifies `nextchar, `optind, `optopt, `optarg, `taken
      ensures code >= 0 && Reported(argv, opts, all, code) && optind >= old(optind)
      ensures original == old(original) && start == old(start) && ordering == old(ordering)
    {
      ghost var here := Here();
      ghost var r := ShortOption(opts, original, here);
      code := ReadShort(argv, opts);
      assert Here() == r.1 && Outcome(code, optarg, optopt) == r.0;
      ghost var later := ScanFrom(ordering, opts, original, r.1);
      ghost var more := original[here.optind..optind];
      TakeElements(argv[..], original, start, firstNonopt, lastNonopt, here.optind, optind, taken);
      CompletesTake(opts, original, ordering, r.0, r.1, taken, more, operands, all);
      taken := taken + more;
    }

    /** The character tests themselves. */
    method ReadShort(argv: array<string>, opts: string) returns (code: int)
      requires Valid(argv) && nextchar != [] && optarg == None && !HasWExtension(opts)
      modifies `nextchar, `optind, `optopt, `optarg
      ensures (Outcome(code, optarg, optopt), Here()) == ShortOption(opts, original, old(Here()))
    {
      var c := nextchar[0];
      nextchar := nextchar[1..];
      var temp := FirstIndex(opts, c);
      if nextchar == [] { optind := optind + 1; }
      if temp == |opts| || c == ':' || c == ';' {
        optopt := c;
        return '?' as int;
      }
      code := c as int;
      if CharAt(opts, temp + 1) == ':' {
        if CharAt(opts, temp + 2) == ':' {
          if nextchar != [] {
            optarg := Some(nextchar);
            optind := optind + 1;
          } else {
            optarg := None;
          }
          nextchar := [];
        } else {
          if nextchar != [] {
            optarg := Some(nextchar);
            optind := optind + 1;
          } else if optind == argv.Length {
            optopt := c;
            code := if CharAt(opts, 0) == ':' then ':' as int else '?' as int;
          } else {
            assert argv[optind] == original[optind] by {
              assert argv[old(optind)..][optind - old(optind)] == argv[optind];
            }
            optarg := Some(argv[optind]);
            optind := optind + 1;
          }
          nextchar := [];
        }
      }
    }

    /** The call reported the next outcome of the scan, and the scan goes on. */
    ghost predicate Reported(argv: array<string>, opts: string, all: Scan, code: int)
      reads this, argv
    {
      && all.outcomes != [] && all.outcomes[0] == Outcome(code, optarg, optopt)
      && Scanning(argv, opts, all.(outcomes := all.outcomes[1..]))
    }

    /** The scan is over: all that was taken stands in front of all operands, and `optind` between
        them. */
    ghost predicate Ended(argv: array<string>, all: Scan)
      reads this, argv
    {
      && start <= argv.Length == |original|
      && all.outcomes == []
      && argv[..] == original[..start] + all.taken + all.operands
      && optind == start + |all.taken|
    }

    /** No operand was skipped so far: everything in front of `optind` was taken. */
    lemma {:induction false} NothingSkipped(argv: array<string>)
      requires Valid(argv) && firstNonopt == lastNonopt
      ensures argv[..optind] == original[..start] + taken && operands == []
    {
      assert argv[..firstNonopt] + argv[lastNonopt..optind] == argv[..optind];
    }

    /** `--` is taken: it moves in front of the skipped operands. */
    method TakeDashes(argv: array<string>)
      requires Valid(argv) && optind < argv.Length
      requires firstNonopt == lastNonopt || lastNonopt == optind
      modifies argv, `firstNonopt, `lastNonopt, `optind
      ensures optind == old(optind) + 1 && firstNonopt <= optind <= argv.Length
      ensures argv[..firstNonopt] == original[..start] + taken + [old(argv[optind])]
      ensures argv[firstNonopt..optind] == operands && argv[optind..] == old(argv[optind + 1..])
    {
      ghost var s, i := argv[..], optind;
      if firstNonopt == lastNonopt {
        NothingSkipped(argv);
      } else {
        assert s[lastNonopt..i] == [];
      }
      optind := optind + 1;
      if firstNonopt != lastNonopt && lastNonopt != optind {
        Exchange(argv);
        ExchangedParts(s, old(firstNonopt), i, i + 1);
        assert s[i..i + 1] == [s[i]];
      } else if firstNonopt == lastNonopt {
        assert s[..i + 1] == s[..i] + [s[i]];
        firstNonopt := optind;
      }
    }

    /** `--` ends the scan, and everything behind it is an operand. */
    method StopAtDashes(argv: array<string>, ghost opts: string, ghost all: Scan)
      requires Scanning(argv, opts, all) && nextchar == []
      requires ordering == Permute ==> Gathered(argv) && lastNonopt == optind
      requires optind < argv.Length && argv[optind] == "--" == original[optind]
      modifies argv, `firstNonopt, `lastNonopt, `optind
      ensures Ended(argv, all)
    {
      ghost var rest := original[optind + 1..];
      assert ScanFrom(ordering, opts, original, Here()) == Scan([], ["--"], rest);
      NextUnread(argv[..], original, optind);
      TakeDashes(argv);
      Whole(argv[..], firstNonopt, optind);
      Assembled(original[..start], taken, ["--"], operands, rest);
      assert all.taken == taken + ["--"] && all.operands == operands + rest && all.outcomes == [];
      assert argv[..] == original[..start] + all.taken + all.operands;
      assert |argv[..firstNonopt]| == start + |all.taken|;
      lastNonopt := argv.Length;
      optind := argv.Length;
      if firstNonopt != lastNonopt { optind := firstNonopt; }
    }

    method StopAtEnd(argv: array<string>, ghost opts: string, ghost all: Scan)
      requires Scanning(argv, opts, all) && nextchar == [] && optind == argv.Length
      requires ordering == Permute ==> Gathered(argv) && lastNonopt == optind
      modifies `optind
      ensures Ended(argv, all)
    {
      assert ScanFrom(ordering, opts, original, Here()) == Scan([], [], []);
      assert taken + [] == taken && operands + [] == operands;
      if firstNonopt != lastNonopt {
        assert argv[..] == argv[..firstNonopt] + argv[firstNonopt..optind];
        optind := firstNonopt;
      } else {
        NothingSkipped(argv);
        assert argv[..] == argv[..optind] && original[..start] + taken + [] == original[..start] + taken;
      }
    }

    /** The first operand ends a scan that must not go past one. */
    lemma {:induction false} StopAtOperand(argv: array<string>, opts: string, all: Scan)
      requires Scanning(argv, opts, all) && nextchar == [] && ordering == RequireOrder && firstNonopt == lastNonopt
      requires optind < argv.Length && IsOperand(original[optind])
      ensures Ended(argv, all)
    {
      NothingSkipped(argv);
      assert taken + [] == taken && [] + original[optind..] == original[optind..];
      assert argv[..] == argv[..optind] + argv[optind..];
    }

    method TakeInOrder(argv: array<string>, ghost opts: string, ghost all: Scan) returns (code: int)
      requires Scanning(argv, opts, all) && nextchar == [] && ordering == ReturnInOrder
      requires optind < argv.Length && IsOperand(argv[optind]) && argv[optind] == original[optind]
      modifies `optarg, `optind, `taken
      ensures code == 1 && Reported(argv, opts, all, code) && optind >= old(optind)
    {
      var arg := argv[optind];
      ghost var next := Here().(optind := optind + 1);
      TakeElements(argv[..], original, start, firstNonopt, lastNonopt, optind, optind + 1, taken);
      assert original[optind..optind + 1] == [arg];
      CompletesTake(opts, original, ordering, Outcome(1, Some(arg), optopt), next, taken, [arg], operands, all);
      taken := taken + [arg];
      optarg := Some(arg);
      optind := optind + 1;
      return 1;
    }

    /** The tail of the search for an option: the `--` rule and the end of the array. */
    method StopOrStart(argv: array<string>, opts: string, ghost all: Scan) returns (code: int)
      requires Scanning(argv, opts, all) && nextchar == [] && optarg == None && !HasWExtension(opts)
      requires ordering == Permute ==> Gathered(argv) && lastNonopt == optind
      requires ordering == Permute && optind < argv.Length ==> !IsOperand(argv[optind])
      modifies argv, `firstNonopt, `lastNonopt, `nextchar, `optind, `optopt, `optarg, `taken
      ensures if code == -1 then Ended(argv, all) else code >= 0 && Reported(argv, opts, all, code)
      ensures code != -1 ==> optind >= old(optind)
    {
      if optind != argv.Length {
        NextUnread(argv[..], original, optind);
        if argv[optind] == "--" {
          StopAtDashes(argv, opts, all);
          return -1;
        }
      }
      if optind == argv.Length {
        StopAtEnd(argv, opts, all);
        return -1;
      }
      if IsOperand(argv[optind]) {
        if ordering == RequireOrder {
          StopAtOperand(argv, opts, all);
          return -1;
        }
        code := TakeInOrder(argv, opts, all);
        return;
      }
      code := StartShort(argv, opts, all);
    }

    method StartShort(argv: array<string>, opts: string, ghost all: Scan) returns (code: int)
      requires Scanning(argv, opts, all) && nextchar == [] && optarg == None && !HasWExtension(opts)
      requires optind < argv.Length && !IsOperand(argv[optind]) && argv[optind] == original[optind] != "--"
      modifies `nextchar, `optind, `optopt, `optarg, `taken
      ensures code >= 0 && Reported(argv, opts, all, code) && optind >= old(optind)
    {
      nextchar := argv[optind][1..];
      code := ShortOpt(argv, opts, all);
    }

    /** Whether the next call starts a scan, and where from. */
    predicate Fresh()
      reads this
    {
      optind == 0 || !initialized
    }

    function FirstIndexToScan(): nat
      reads this
    {
      if optind == 0 then 1 else optind
    }

    /** A scan to come, or one under way, that will add up to `all`. */
    ghost predicate Ready(argv: array<string>, optstring: string, posixlyCorrect: bool, all: Scan)
      reads this, argv
    {
      var ord, opts := OrderingOf(optstring, posixlyCorrect), Unmarked(optstring);
      && FirstIndexToScan() <= argv.Length && !HasWExtension(opts)
      && if Fresh() then all == ScanFrom(ord, opts, argv[..], Place(FirstIndexToScan(), [], optopt))
         else ordering == ord && Scanning(argv, opts, all)
    }

    /** `_getopt_internal_r` without long options: one call reports the next outcome of the scan,
        or ends it. */
    method GetoptInternal(argv: array<string>, optstring: string, posixlyCorrect: bool, ghost all: Scan)
      returns (code: int)
      requires argv.Length >= 1 ==> Ready(argv, optstring, posixlyCorrect, all)
      modifies argv, this
      ensures argv.Length < 1 ==> code == -1 && unchanged(this) && unchanged(argv)
      ensures argv.Length >= 1 ==> Answered(argv, optstring, posixlyCorrect, all, code)
      ensures argv.Length >= 1 ==> original == old(Arguments(argv)) && start == old(Start())
    {
      if argv.Length < 1 { return -1; }
      code := NextOutcome(argv, optstring, posixlyCorrect, all, Arguments(argv), Start());
    }

    /** The call, once there are arguments. */
    method NextOutcome(argv: array<string>, optstring: string, posixlyCorrect: bool, ghost all: Scan,
                       ghost args: seq<string>, ghost first: nat) returns (code: int)
      requires Ready(argv, optstring, posixlyCorrect, all) && args == Arguments(argv) && first == Start()
      modifies argv, this
      ensures Answered(argv, optstring, posixlyCorrect, all, code)
      ensures original == args && start == first
    {
      optarg := None;
      var opts := Prepare(argv, optstring, posixlyCorrect, all, args, first);
      if nextchar == [] {
        code := NextArgument(argv, opts, all);
      } else {
        code := ShortOpt(argv, opts, all);
      }
      assert original == args && start == first;
      if code != -1 {
        ReadyAgain(argv, optstring, posixlyCorrect, all, code);
      }
    }

    /** A call reported the next outcome and another call can follow, or the scan has ended. */
    ghost predicate Answered(argv: array<string>, optstring: string, posixlyCorrect: bool, all: Scan, code: int)
      reads this, argv
    {
      if code == -1 then Ended(argv, all)
      else
        && code >= 0 && all.outcomes != [] && all.outcomes[0] == Outcome(code, optarg, optopt)
        && !Fresh() && Ready(argv, optstring, posixlyCorrect, all.(outcomes := all.outcomes[1..]))
    }

    lemma {:induction false} ReadyAgain(argv: array<string>, optstring: string, posixlyCorrect: bool, all: Scan, code: int)
      requires Reported(argv, Unmarked(optstring), all, code) && code >= 0
      requires ordering == OrderingOf(optstring, posixlyCorrect) && optind > 0 && !HasWExtension(Unmarked(optstring))
      ensures Answered(argv, optstring, posixlyCorrect, all, code)
    {
    }

    /** The arguments as they stood, and stand if a scan is only to begin. */
    ghost function Arguments(argv: array<string>): seq<string>
      reads this, argv
    {
      if Fresh() then argv[..] else original
    }

    ghost function Start(): nat
      reads this
    {
      if Fresh() then FirstIndexToScan() else start
    }

    method Prepare(argv: array<string>, optstring: string, posixlyCorrect: bool, ghost all: Scan,
                   ghost args: seq<string>, ghost first: nat) returns (opts: string)
      requires Ready(argv, optstring, posixlyCorrect, all) && args == Arguments(argv) && first == Start()
      modifies this
      ensures opts == Unmarked(optstring) && ordering == OrderingOf(optstring, posixlyCorrect)
      ensures Scanning(argv, opts, all) && optind > 0 && optarg == old(optarg)
      ensures original == args && start == first
    {
      opts := optstring;
      if optind == 0 || !initialized {
        if optind == 0 { optind := 1; }
        opts := Initialize(argv, optstring, posixlyCorrect);
        ghost var rest := ScanFrom(ordering, opts, original, Here());
        assert [] + rest.taken == rest.taken && [] + rest.operands == rest.operands;
      } else if CharAt(optstring, 0) == '-' || CharAt(optstring, 0) == '+' {
        opts := optstring[1..];
      }
    }

    /** Between arguments: skip operands, and look at the next argument. */
    method NextArgument(argv: array<string>, opts: string, ghost all: Scan) returns (code: int)
      requires Scanning(argv, opts, all) && nextchar == [] && optarg == None && !HasWExtension(opts)
      modifies argv, `firstNonopt, `lastNonopt, `nextchar, `optind, `optopt, `optarg, `taken, `operands
      ensures if code == -1 then Ended(argv, all) else code >= 0 && Reported(argv, opts, all, code)
      ensures code != -1 ==> optind >= old(optind)
      ensures original == old(original) && start == old(start) && ordering == old(ordering)
    {
      assert firstNonopt <= lastNonopt <= optind; // so the two statements that clamp them change nothing
      if ordering == Permute {
        SkipOperands(argv, opts, all);
      }
      code := StopOrStart(argv, opts, all);
    }
  }

  /** The caller's loop: call until -1, then read the operands from `optind` on. Main result: the
      reports are those of one pass over the original arguments, and at the end the array holds
      what that pass takes and then what it skips, each in its original order. */
  method ScanAll(argv: array<string>, optstring: string, posixlyCorrect: bool)
    returns (outcomes: seq<Outcome>, optind: nat)
    requires argv.Length >= 1 && !HasWExtension(Unmarked(optstring))
    modifies argv
    ensures var all := ScanFrom(OrderingOf(optstring, posixlyCorrect), Unmarked(optstring), old(argv[..]), Place(1, [], '\0'));
            && outcomes == all.outcomes
            && argv[..] == old(argv[..1]) + all.taken + all.operands
            && optind == 1 + |all.taken|
  {
    var d := new GetoptData(1);
    outcomes, optind := ScanWith(d, argv, optstring, posixlyCorrect);
  }

  /** The same loop on a record that is new, or was told to start again by setting `optind` to 0. */
  method ScanWith(d: GetoptData, argv: array<string>, optstring: string, posixlyCorrect: bool)
    returns (outcomes: seq<Outcome>, optind: nat)
    requires argv.Length >= 1 && !HasWExtension(Unmarked(optstring))
    requires d.optind == 0 || (d.optind == 1 && !d.initialized)
    modifies d, argv
    ensures var all := ScanFrom(OrderingOf(optstring, posixlyCorrect), Unmarked(optstring), old(argv[..]), Place(1, [], old(d.optopt)));
            && outcomes == all.outcomes
            && argv[..] == old(argv[..1]) + all.taken + all.operands
            && optind == d.optind == 1 + |all.taken|
  {
    ghost var all := ScanFrom(OrderingOf(optstring, posixlyCorrect), Unmarked(optstring), argv[..], Place(1, [], d.optopt));
    ghost var rest := all.outcomes;
    outcomes := [];
    var code := d.GetoptInternal(argv, optstring, posixlyCorrect, all);
    while code != -1
      invariant d.original == old(argv[..]) && d.start == 1
      invariant d.Answered(argv, optstring, posixlyCorrect, all.(outcomes := rest), code)
      invariant all.outcomes == outcomes + rest
      decreases |rest|
    {
      outcomes, rest := Move(outcomes, rest, Outcome(code, d.optarg, d.optopt));
      code := d.GetoptInternal(argv, optstring, posixlyCorrect, all.(outcomes := rest));
    }
    optind := d.optind;
  }

  /** One outcome goes from those to come to those reported. */
  method Move(outcomes: seq<Outcome>, ghost rest: seq<Outcome>, next: Outcome)
    returns (outcomes': seq<Outcome>, ghost rest': seq<Outcome>)
    requires rest != [] && rest[0] == next
    ensures outcomes' == outcomes + [next] && rest' == rest[1..]
    ensures outcomes' + rest' == outcomes + rest
  {
    outcomes', rest' := outcomes + [next], rest[1..];
    Regroup(outcomes, [next], rest');
    assert rest == [next] + rest';
  }

  lemma {:induction false} Assembled<T>(a: seq<T>, b: seq<T>, c: seq<T>, d: seq<T>, e: seq<T>)
    ensures a + b + c + d + e == a + (b + c) + (d + e)
  {
    Regroup(a, b, c);
    Regroup(a + b + c, d, e);
  }

  lemma {:induction false} Whole<T>(s: seq<T>, x: nat, y: nat)
    requires x <= y <= |s|
    ensures s == s[..x] + s[x..y] + s[y..]
  {
  }

  /** Elements taken behind those taken before. */
  lemma {:induction false} TakeElements(s: seq<string>, args: seq<string>, start: nat, first: nat, last: nat, i: nat,
                                        j: nat, taken: seq<string>)
    requires start <= first <= last <= i <= j <= |s| == |args| && s[i..] == args[i..]
    requires s[..first] + s[last..i] == args[..start] + taken
    ensures s[..first] + s[last..j] == args[..start] + (taken + args[i..j]) && s[j..] == args[j..]
  {
    assert forall k :: i <= k < |s| ==> s[k] == s[i..][k - i] == args[k];
    assert s[last..j] == s[last..i] + args[i..j];
    Regroup(s[..first], s[last..i], args[i..j]);
    Regroup(args[..start], taken, args[i..j]);
  }

  /** A scan from `p` on, behind what was taken and skipped before, adds up to `all`. */
  ghost predicate Completes(opts: string, args: seq<string>, ord: Ordering, p: Place,
                            taken: seq<string>, operands: seq<string>, all: Scan)
  {
    && p.optind <= |args| && (p.nextchar != [] ==> p.optind < |args|)
    && var rest := ScanFrom(ord, opts, args, p);
       all == Scan(rest.outcomes, taken + rest.taken, operands + rest.operands)
  }

  lemma {:induction false} CompletesSkip(opts: string, args: seq<string>, p: Place, taken: seq<string>,
                                         operands: seq<string>, all: Scan)
    requires p.optind < |args| && p.nextchar == [] && IsOperand(args[p.optind])
    requires Completes(opts, args, Permute, p, taken, operands, all)
    ensures Completes(opts, args, Permute, p.(optind := p.optind + 1), taken, operands + [args[p.optind]], all)
  {
    var later := ScanFrom(Permute, opts, args, p.(optind := p.optind + 1));
    Regroup(operands, [args[p.optind]], later.operands);
  }

  /** The scan took `more` and goes on at `p`. */
  lemma {:induction false} CompletesTake(opts: string, args: seq<string>, ord: Ordering, first: Outcome, p: Place,
                      taken: seq<string>, more: seq<string>, operands: seq<string>, all: Scan)
    requires p.optind <= |args| && (p.nextchar != [] ==> p.optind < |args|)
    requires var later := ScanFrom(ord, opts, args, p);
             all == Scan([first] + later.outcomes, taken + (more + later.taken), operands + later.operands)
    ensures all.outcomes[0] == first
    ensures Completes(opts, args, ord, p, taken + more, operands, all.(outcomes := all.outcomes[1..]))
  {
    var later := ScanFrom(ord, opts, args, p);
    Regroup(taken, more, later.taken);
    assert all.outcomes[1..] == later.outcomes;
  }

  lemma {:induction false} NextUnread(s: seq<string>, args: seq<string>, i: nat)
    requires i < |s| == |args| && s[i..] == args[i..]
    ensures s[i] == args[i] && s[i + 1..] == args[i + 1..]
  {
    assert s[i..][1..] == s[i + 1..] && args[i..][1..] == args[i + 1..];
    assert s[i..][0] == s[i] && args[i..][0] == args[i];
  }

  lemma {:induction false} ExchangedParts<T>(s: seq<T>, x: nat, m: nat, y: nat)
    requires x <= m <= y <= |s|
    ensures var t, x' := Exchanged(s, x, m, y), x + (y - m);
            && |t| == |s| && t[..x'] == s[..x] + s[m..y] && t[x'..y] == s[x..m] && t[y..] == s[y..]
  {
  }
}
