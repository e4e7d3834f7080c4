/** The command-line parsers of the five host drivers.

    Every driver scans `argv` from index 1 with the same loop: a recognised
    flag that takes a value stores `atoi` of the next token and skips two
    tokens, a recognised switch sets its option and skips one, `-h` and
    `--help` end the program with status 0, and any other token ends it
    with status -1.  The drivers differ only in which flags they know and
    in their defaults, so one parser runs over the driver's flag table. */
module Cli {

  datatype Driver =
    | Blk2DHost       // fpga-mem-bench-host-blk2d.c
    | StdHost         // fpga-mem-bench-host-std.c
    | StreamStdHost   // fpga-stream-host-std.c
    | SerialHost      // fpga-stream-host-sch.c
    | StreamHost      // fpga-stream.c

  /** What a recognised token sets.  `SizeElems` is the `-s` of
      fpga-stream.c, which stores a count of floats rather than MiB. */
  datatype Flag = SizeMiB | SizeElems | DimX | DimY | PadX | Iter | Pad | Halo
                | Verbose | Verify | Help

  datatype Option<T> = None | Some(value: T)

  /** The union of the drivers' option variables; a driver reads only the
      fields its flags set (`elems` is fpga-stream.c's `size`). */
  datatype Options = Options(sizeMiB: int, elems: int, dimX: int, dimY: int, iter: int,
                             pad: int, padX: int, halo: int, verbose: bool, verify: bool)

  /** How a parse ends: the options to run with, an early exit with a
      status, or a value flag given as the last token (the C code would
      read `argv[argc]`, which the model treats as an error of its own). */
  datatype Outcome = Run(opts: Options) | Exit(code: int) | MissingValue(flag: string)

  type FlagTable = seq<(string, Flag)>

  function Defaults(d: Driver): Options
  {
    match d
    case Blk2DHost => Options(100, 0, 5120, 5120, 1, 0, 0, 0, false, false)
    case StreamHost => Options(100, 100 * 256 * 1024, 0, 0, 1, 0, 0, 0, false, false)
    case _ => Options(100, 0, 0, 0, 1, 0, 0, 0, false, false)
  }

  /** The driver's flags, in the order its `if`/`else if` chain tests them. */
  function Flags(d: Driver): FlagTable
  {
    match d
    case Blk2DHost =>
      [("-x", DimX), ("-y", DimY), ("-pad_x", PadX), ("-n", Iter), ("-pad", Pad), ("-hw", Halo),
       ("--verbose", Verbose), ("--verify", Verify), ("-h", Help), ("--help", Help)]
    case StdHost | StreamStdHost =>
      [("-s", SizeMiB), ("-n", Iter), ("-pad", Pad), ("-hw", Halo),
       ("--verbose", Verbose), ("--verify", Verify), ("-h", Help), ("--help", Help)]
    case SerialHost =>
      [("-s", SizeMiB), ("-n", Iter), ("-pad", Pad),
       ("--verbose", Verbose), ("--verify", Verify), ("-h", Help), ("--help", Help)]
    case StreamHost =>
      [("-s", SizeElems), ("-n", Iter), ("-h", Help), ("--help", Help)]
  }

  /** The first entry of the chain whose token matches. */
  function Lookup(tb: FlagTable, tok: string): Option<Flag>
  {
    if tb == [] then None
    else if tb[0].0 == tok then Some(tb[0].1)
    else Lookup(tb[1..], tok)
  }

  function FlagOf(d: Driver, tok: string): Option<Flag>
  {
    Lookup(Flags(d), tok)
  }

  predicate TakesValue(f: Flag)
  {
    f != Verbose && f != Verify && f != Help
  }

  /** The option variable a value flag assigns. */
  function Field(o: Options, f: Flag): int
    requires TakesValue(f)
  {
    match f
    case SizeMiB => o.sizeMiB
    case SizeElems => o.elems
    case DimX => o.dimX
    case DimY => o.dimY
    case PadX => o.padX
    case Iter => o.iter
    case Pad => o.pad
    case Halo => o.halo
  }

  /** What a value flag stores for the integer `atoi` read: the value
      itself, except that fpga-stream.c converts MiB to floats. */
  function Stored(f: Flag, x: int): int
  {
    if f == SizeElems then x * 256 * 1024 else x
  }

  function SetValue(o: Options, f: Flag, x: int): (o': Options)
    requires TakesValue(f)
    ensures Field(o', f) == Stored(f, x)
    ensures forall g :: TakesValue(g) && g != f ==> Field(o', g) == Field(o, g)
    ensures o'.verbose == o.verbose && o'.verify == o.verify
  {
    match f
    case SizeMiB => o.(sizeMiB := x)
    case SizeElems => o.(elems := x * 256 * 1024)
    case DimX => o.(dimX := x)
    case DimY => o.(dimY := x)
    case PadX => o.(padX := x)
    case Iter => o.(iter := x)
    case Pad => o.(pad := x)
    case Halo => o.(halo := x)
  }

  function SetSwitch(o: Options, f: Flag): (o': Options)
    ensures forall g :: TakesValue(g) ==> Field(o', g) == Field(o, g)
  {
    if f == Verbose then o.(verbose := true) else o.(verify := true)
  }

  /** The parse of the remaining tokens from the options gathered so far. */
  function ParseFrom(tb: FlagTable, toks: seq<string>, atoi: string -> int, o: Options): Outcome
    decreases |toks|
  {
    if toks == [] then Run(o)
    else match Lookup(tb, toks[0])
      case None => Exit(-1)
      case Some(f) =>
        if f == Help then Exit(0)
        else if !TakesValue(f) then ParseFrom(tb, toks[1..], atoi, SetSwitch(o, f))
        else if |toks| < 2 then MissingValue(toks[0])
        else ParseFrom(tb, toks[2..], atoi, SetValue(o, f, atoi(toks[1])))
  }

  /** The parse of a whole `argv`; `argv[0]` is the program name. */
  function Parse(d: Driver, argv: seq<string>, atoi: string -> int): Outcome
  {
    if |argv| <= 1 then Run(Defaults(d)) else ParseFrom(Flags(d), argv[1..], atoi, Defaults(d))
  }

  /** The drivers' `while (arg < argc)` loop. */
  method ParseArgs(d: Driver, argv: seq<string>, atoi: string -> int) returns (r: Outcome)
    ensures r == Parse(d, argv, atoi)
  {
    var o := Defaults(d);
    var arg := 1;
    if |argv| <= 1 {
      return Run(o);
    }
    while arg < |argv|
      invariant 1 <= arg <= |argv|
      invariant ParseFrom(Flags(d), argv[arg..], atoi, o) == Parse(d, argv, atoi)
      decreases |argv| - arg
    {
      var tok := argv[arg];
      var f := FlagOf(d, tok);
      if f.None? {
        return Exit(-1);
      } else if f.value == Help {
        return Exit(0);
      } else if !TakesValue(f.value) {
        o := SetSwitch(o, f.value);
        arg := arg + 1;
      } else if arg + 1 >= |argv| {
        return MissingValue(tok);
      } else {
        assert argv[arg..][2..] == argv[arg + 2..];
        o := SetValue(o, f.value, atoi(argv[arg + 1]));
        arg := arg + 2;
      }
    }
    assert argv[arg..] == [];
    return Run(o);
  }

  // ---------------------------------------------------------------------
  // Command lines built from well-formed items.

  datatype Item = ValueItem(flag: string, arg: string) | SwitchItem(flag: string)

  function Render(items: seq<Item>): seq<string>
  {
    if items == [] then []
    else (match items[0]
          case ValueItem(t, a) => [t, a]
          case SwitchItem(t) => [t]) + Render(items[1..])
  }

  /** Each item names a flag of the table, with a value exactly when the
      flag takes one, and none of them asks for help. */
  predicate Accepted(tb: FlagTable, items: seq<Item>)
  {
    forall k :: 0 <= k < |items| ==> AcceptedItem(tb, items[k])
  }

  predicate AcceptedItem(tb: FlagTable, it: Item)
  {
    Lookup(tb, it.flag).Some? && Lookup(tb, it.flag).value != Help
    && (it.ValueItem? <==> TakesValue(Lookup(tb, it.flag).value))
  }

  function Apply(tb: FlagTable, it: Item, atoi: string -> int, o: Options): Options
    requires AcceptedItem(tb, it)
  {
    match it
    case ValueItem(t, a) => SetValue(o, Lookup(tb, t).value, atoi(a))
    case SwitchItem(t) => SetSwitch(o, Lookup(tb, t).value)
  }

  function ApplyAll(tb: FlagTable, items: seq<Item>, atoi: string -> int, o: Options): Options
    requires Accepted(tb, items)
  {
    if items == [] then o else ApplyAll(tb, items[1..], atoi, Apply(tb, items[0], atoi, o))
  }

  lemma AcceptedTail(tb: FlagTable, items: seq<Item>)
    requires Accepted(tb, items) && items != []
    ensures AcceptedItem(tb, items[0]) && Accepted(tb, items[1..])
  {
    forall k | 0 <= k < |items[1..]| ensures AcceptedItem(tb, items[1..][k]) {
      assert items[1..][k] == items[k + 1];
    }
  }

  lemma RenderCons(items: seq<Item>)
    requires items != []
    ensures Render(items) == Render([items[0]]) + Render(items[1..])
  {
    assert [items[0]][1..] == [];
  }

  /** One item is consumed by one turn of the loop. */
  lemma ParseFirst(tb: FlagTable, it: Item, tail: seq<string>, atoi: string -> int, o: Options)
    requires AcceptedItem(tb, it)
    ensures ParseFrom(tb, Render([it]) + tail, atoi, o) == ParseFrom(tb, tail, atoi, Apply(tb, it, atoi, o))
  {
    match it
    case ValueItem(t, a) =>
      var toks := [t, a] + tail;
      assert Render([it]) + tail == toks;
      assert toks[0] == t && toks[1] == a && toks[2..] == tail;
    case SwitchItem(t) =>
      var toks := [t] + tail;
      assert Render([it]) + tail == toks;
      assert toks[0] == t && toks[1..] == tail;
  }

  /** Parsing a rendered command line applies its items left to right and
      goes on with whatever follows them. */
  lemma {:induction false} ParseRendered(tb: FlagTable, items: seq<Item>, rest: seq<string>,
                                         atoi: string -> int, o: Options)
    requires Accepted(tb, items)
    ensures ParseFrom(tb, Render(items) + rest, atoi, o)
            == ParseFrom(tb, rest, atoi, ApplyAll(tb, items, atoi, o))
    decreases |items|
  {
    if items == [] {
      assert Render(items) + rest == rest;
    } else {
      AcceptedTail(tb, items);
      var o' := Apply(tb, items[0], atoi, o);
      ParseRendered(tb, items[1..], rest, atoi, o');
      ParseFirst(tb, items[0], Render(items[1..]) + rest, atoi, o);
      RenderCons(items);
      assert Render(items) + rest == Render([items[0]]) + (Render(items[1..]) + rest);
    }
  }

  /** A well-formed command line runs with its items applied to the
      driver's defaults. */
  lemma WellFormedLineRuns(d: Driver, prog: string, items: seq<Item>, atoi: string -> int)
    requires Accepted(Flags(d), items)
    ensures Parse(d, [prog] + Render(items), atoi) == Run(ApplyAll(Flags(d), items, atoi, Defaults(d)))
  {
    ParseRendered(Flags(d), items, [], atoi, Defaults(d));
    assert Render(items) + [] == Render(items);
    assert ([prog] + Render(items))[1..] == Render(items);
    if items != [] {
      RenderCons(items);
      assert |Render([items[0]])| >= 1;
    }
  }

  /** `-h` or `--help` after any well-formed prefix exits with status 0,
      whatever follows it. */
  lemma HelpExitsZero(tb: FlagTable, items: seq<Item>, h: string, rest: seq<string>,
                      atoi: string -> int, o: Options)
    requires Accepted(tb, items) && Lookup(tb, h) == Some(Help)
    ensures ParseFrom(tb, Render(items) + ([h] + rest), atoi, o) == Exit(0)
  {
    ParseRendered(tb, items, [h] + rest, atoi, o);
    assert ([h] + rest)[0] == h;
  }

  /** A token the table does not know, after any well-formed prefix, exits
      with status -1. */
  lemma UnknownExitsMinusOne(tb: FlagTable, items: seq<Item>, t: string, rest: seq<string>,
                             atoi: string -> int, o: Options)
    requires Accepted(tb, items) && Lookup(tb, t).None?
    ensures ParseFrom(tb, Render(items) + ([t] + rest), atoi, o) == Exit(-1)
  {
    ParseRendered(tb, items, [t] + rest, atoi, o);
    assert ([t] + rest)[0] == t;
  }

  /** A value flag as the final token has no value to read. */
  lemma TrailingValueFlag(tb: FlagTable, items: seq<Item>, t: string, atoi: string -> int, o: Options)
    requires Accepted(tb, items) && Lookup(tb, t).Some? && TakesValue(Lookup(tb, t).value)
    ensures ParseFrom(tb, Render(items) + [t], atoi, o) == MissingValue(t)
  {
    ParseRendered(tb, items, [t], atoi, o);
  }

  /** Items that do not name flag f leave its option variable alone. */
  lemma {:induction false} OthersKeepField(tb: FlagTable, items: seq<Item>, f: Flag,
                                           atoi: string -> int, o: Options)
    requires Accepted(tb, items) && TakesValue(f)
    requires forall k :: 0 <= k < |items| ==> Lookup(tb, items[k].flag) != Some(f)
    ensures Field(ApplyAll(tb, items, atoi, o), f) == Field(o, f)
    decreases |items|
  {
    if items != [] {
      AcceptedTail(tb, items);
      var o' := Apply(tb, items[0], atoi, o);
      OthersKeepField(tb, items[1..], f, atoi, o');
      assert Lookup(tb, items[0].flag) != Some(f);
      assert Field(o', f) == Field(o, f);
    }
  }

  lemma {:induction false} ApplyAllAppend(tb: FlagTable, xs: seq<Item>, ys: seq<Item>,
                                          atoi: string -> int, o: Options)
    requires Accepted(tb, xs) && Accepted(tb, ys)
    ensures Accepted(tb, xs + ys)
    ensures ApplyAll(tb, xs + ys, atoi, o) == ApplyAll(tb, ys, atoi, ApplyAll(tb, xs, atoi, o))
    decreases |xs|
  {
    assert Accepted(tb, xs + ys) by {
      forall k | 0 <= k < |xs + ys| ensures AcceptedItem(tb, (xs + ys)[k]) {
        if k < |xs| { assert (xs + ys)[k] == xs[k]; } else { assert (xs + ys)[k] == ys[k - |xs|]; }
      }
    }
    if xs == [] {
      assert xs + ys == ys;
    } else {
      assert (xs + ys)[0] == xs[0] && (xs + ys)[1..] == xs[1..] + ys;
      AcceptedTail(tb, xs);
      ApplyAllAppend(tb, xs[1..], ys, atoi, Apply(tb, xs[0], atoi, o));
    }
  }

  /** The last occurrence of a value flag decides its option: earlier
      occurrences, and the default, are overridden. */
  lemma LastOccurrenceWins(tb: FlagTable, before: seq<Item>, t: string, a: string,
                           after: seq<Item>, atoi: string -> int, o: Options)
    requires Accepted(tb, before) && Accepted(tb, after)
    requires Lookup(tb, t).Some? && TakesValue(Lookup(tb, t).value)
    requires forall k :: 0 <= k < |after| ==> Lookup(tb, after[k].flag) != Lookup(tb, t)
    ensures Accepted(tb, before + [ValueItem(t, a)] + after)
    ensures Field(ApplyAll(tb, before + [ValueItem(t, a)] + after, atoi, o), Lookup(tb, t).value)
            == Stored(Lookup(tb, t).value, atoi(a))
  {
    var f := Lookup(tb, t).value;
    var mid := [ValueItem(t, a)];
    assert AcceptedItem(tb, mid[0]);
    assert Accepted(tb, mid);
    ApplyAllAppend(tb, before, mid, atoi, o);
    ApplyAllAppend(tb, before + mid, after, atoi, o);
    var o1 := ApplyAll(tb, before + mid, atoi, o);
    assert o1 == ApplyAll(tb, mid, atoi, ApplyAll(tb, before, atoi, o));
    assert mid[1..] == [];
    assert o1 == SetValue(ApplyAll(tb, before, atoi, o), f, atoi(a));
    OthersKeepField(tb, after, f, atoi, o1);
  }

  /** A value flag that never occurs keeps the driver's default. */
  lemma AbsentFlagKeepsDefault(d: Driver, prog: string, items: seq<Item>, f: Flag,
                               atoi: string -> int)
    requires Accepted(Flags(d), items) && TakesValue(f)
    requires forall k :: 0 <= k < |items| ==> FlagOf(d, items[k].flag) != Some(f)
    ensures Parse(d, [prog] + Render(items), atoi).Run?
    ensures Field(Parse(d, [prog] + Render(items), atoi).opts, f) == Field(Defaults(d), f)
  {
    WellFormedLineRuns(d, prog, items, atoi);
    OthersKeepField(Flags(d), items, f, atoi, Defaults(d));
  }

  // ---------------------------------------------------------------------
  // The drivers' tables.

  /** Every driver knows `-h` and `--help`. */
  lemma HelpEverywhere(d: Driver)
    ensures FlagOf(d, "-h") == Some(Help) && FlagOf(d, "--help") == Some(Help)
  {
    var tb := Flags(d);
    var k := |tb| - 2;
    assert tb[k] == ("-h", Help) && tb[k + 1] == ("--help", Help);
    forall i | 0 <= i < k ensures tb[i].0 != "-h" && tb[i].0 != "--help" {
      HelpNotEarlier(d, i);
    }
    LookupFirst(tb, "-h", k);
    LookupFirst(tb, "--help", k + 1);
  }

  /** No flag before the two help entries is spelt like one of them. */
  lemma HelpNotEarlier(d: Driver, i: int)
    requires 0 <= i < |Flags(d)| - 2
    ensures Flags(d)[i].0 != "-h" && Flags(d)[i].0 != "--help"
  {
    var t := Flags(d)[i].0;
    match d
    case Blk2DHost => assert (|t| != 6 || t[1] != '-') && (|t| != 2 || t[1] != 'h');
    case StdHost => assert |t| != 6 && (|t| != 2 || t[1] != 'h');
    case StreamStdHost => assert |t| != 6 && (|t| != 2 || t[1] != 'h');
    case SerialHost => assert |t| != 6 && (|t| != 2 || t[1] != 'h');
    case StreamHost => assert |t| != 6 && (|t| != 2 || t[1] != 'h');
  }

  /** A token that no entry names is not found. */
  lemma {:induction false} LookupAbsent(tb: FlagTable, tok: string)
    requires forall i :: 0 <= i < |tb| ==> tb[i].0 != tok
    ensures Lookup(tb, tok).None?
    decreases |tb|
  {
    if tb != [] {
      assert tb[0].0 != tok;
      forall i | 0 <= i < |tb[1..]| ensures tb[1..][i].0 != tok {
        assert tb[1..][i] == tb[i + 1];
      }
      LookupAbsent(tb[1..], tok);
    }
  }

  /** The first entry that names a token decides its flag. */
  lemma {:induction false} LookupFirst(tb: FlagTable, tok: string, k: int)
    requires 0 <= k < |tb| && tb[k].0 == tok
    requires forall i :: 0 <= i < k ==> tb[i].0 != tok
    ensures Lookup(tb, tok) == Some(tb[k].1)
    decreases k
  {
    if k > 0 {
      assert tb[0].0 != tok;
      forall i | 0 <= i < k - 1 ensures tb[1..][i].0 != tok {
        assert tb[1..][i] == tb[i + 1];
      }
      LookupFirst(tb[1..], tok, k - 1);
    }
  }

  /** The 2D driver knows the grid flags and has no `-s`. */
  lemma Blk2DFlags()
    ensures FlagOf(Blk2DHost, "-x") == Some(DimX) && FlagOf(Blk2DHost, "-pad_x") == Some(PadX)
    ensures FlagOf(Blk2DHost, "-s").None?
  {
    var tb := Flags(Blk2DHost);
    LookupFirst(tb, "-x", 0);
    assert tb[0].0 != "-pad_x" && tb[1].0 != "-pad_x";
    LookupFirst(tb, "-pad_x", 2);
    forall i | 0 <= i < |tb| ensures tb[i].0 != "-s" {
      assert tb[i].0[1] != 's';
    }
    LookupAbsent(tb, "-s");
  }

  /** The 1D drivers have no grid flags; only the serial one lacks `-hw`. */
  lemma StdFlags()
    ensures FlagOf(StdHost, "-x").None? && FlagOf(StdHost, "-s") == Some(SizeMiB)
    ensures FlagOf(StreamStdHost, "-hw") == Some(Halo)
    ensures FlagOf(SerialHost, "-hw").None?
  {
    var std, sch := Flags(StdHost), Flags(SerialHost);
    LookupFirst(std, "-s", 0);
    forall i | 0 <= i < |std| ensures std[i].0 != "-x" {
      assert std[i].0[1] != 'x';
    }
    LookupAbsent(std, "-x");
    assert std[0].0 != "-hw" && std[1].0 != "-hw" && std[2].0 != "-hw";
    LookupFirst(Flags(StreamStdHost), "-hw", 3);
    forall i | 0 <= i < |sch| ensures sch[i].0 != "-hw" {
      assert |sch[i].0| != 3;
    }
    LookupAbsent(sch, "-hw");
  }

  /** fpga-stream.c knows only `-s` (counted in floats), `-n` and help. */
  lemma StreamFlags()
    ensures FlagOf(StreamHost, "-s") == Some(SizeElems) && FlagOf(StreamHost, "-n") == Some(Iter)
    ensures FlagOf(StreamHost, "-hw").None? && FlagOf(StreamHost, "-pad").None?
    ensures FlagOf(StreamHost, "--verify").None?
  {
    var tb := Flags(StreamHost);
    LookupFirst(tb, "-s", 0);
    assert tb[0].0 != "-n";
    LookupFirst(tb, "-n", 1);
    forall i | 0 <= i < |tb| ensures tb[i].0 != "-hw" && tb[i].0 != "-pad" && tb[i].0 != "--verify" {
      assert |tb[i].0| == 2 || tb[i].0 == "--help";
    }
    LookupAbsent(tb, "-hw");
    LookupAbsent(tb, "-pad");
    LookupAbsent(tb, "--verify");
  }

  /** The serial stream driver rejects a halo width with status -1. */
  lemma SerialRejectsHalo(prog: string, w: string, atoi: string -> int)
    ensures Parse(SerialHost, [prog, "-hw", w], atoi) == Exit(-1)
  {
    assert [prog, "-hw", w][1..] == ["-hw", w];
    StdFlags();
  }

  /** fpga-stream.c's `-s m` selects m MiB of floats: m * 2^20 / 4 of them. */
  lemma StreamSizeIsMiB(prog: string, m: string, atoi: string -> int)
    ensures Parse(StreamHost, [prog, "-s", m], atoi)
            == Run(Defaults(StreamHost).(elems := atoi(m) * 1048576 / 4))
  {
    var tb, toks, dflt := Flags(StreamHost), ["-s", m], Defaults(StreamHost);
    assert [prog, "-s", m][1..] == toks;
    assert toks[2..] == [] && toks[1] == m;
    assert Lookup(tb, toks[0]) == Some(SizeElems);
    var x := atoi(m);
    assert ParseFrom(tb, toks, atoi, dflt) == ParseFrom(tb, [], atoi, SetValue(dflt, SizeElems, x));
    assert x * 1048576 == (x * 256 * 1024) * 4;
    assert x * 1048576 / 4 == x * 256 * 1024;
  }
}
