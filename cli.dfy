/**
 * The command-line front end (src/cli.js): `parseOptions` turns the
 * arguments after the input path into an options object, and
 * `createTransformationPipeline` turns the options into the list of stages
 * that `pipe` runs over the file's text.
 */
module Cli {
  import opened Wrappers
  import opened Strings
  import opened Matrices
  import opened Parsing
  import opened Columns
  import opened Rows
  import opened Transposition
  import opened Html
  import opened Functional

  // ----- parseInt -----

  /** A JavaScript number as `parseInt` produces it: NaN or an integer. */
  datatype Number = NaN | Int(value: int)

  /** The digit a character stands for in radices up to 36, or -1 for none. */
  function CharDigit(c: char): (d: int)
    ensures -1 <= d < 36
    ensures IsDigit(c) ==> d == DigitValue(c)
  {
    if '0' <= c <= '9' then c as int - '0' as int
    else if 'a' <= c <= 'z' then c as int - 'a' as int + 10
    else if 'A' <= c <= 'Z' then c as int - 'A' as int + 10
    else -1
  }

  predicate IsRadixDigit(c: char, radix: nat)
  {
    0 <= CharDigit(c) < radix
  }

  /** The length of the longest prefix of `s` made of digits of the radix. */
  function DigitRun(s: string, radix: nat): (n: nat)
    ensures n <= |s|
    ensures forall k :: 0 <= k < n ==> IsRadixDigit(s[k], radix)
    ensures n < |s| ==> !IsRadixDigit(s[n], radix)
  {
    if |s| == 0 || !IsRadixDigit(s[0], radix) then 0
    else
      var n := DigitRun(s[1..], radix);
      assert forall k :: 1 <= k < n + 1 ==> s[k] == s[1..][k - 1];
      n + 1
  }

  /** `x * radix`, kept apart so that its sign is settled once. */
  function Shift(x: nat, radix: nat): nat
  {
    x * radix
  }

  /** The number a string of digits of the radix denotes, most significant first. */
  function RadixValue(s: string, radix: nat): nat
    requires forall k :: 0 <= k < |s| ==> IsRadixDigit(s[k], radix)
    decreases |s|
  {
    if |s| == 0 then 0
    else
      var init, last := s[..|s| - 1], s[|s| - 1];
      assert IsRadixDigit(last, radix);
      assert forall k :: 0 <= k < |init| ==> init[k] == s[k];
      Shift(RadixValue(init, radix), radix) + CharDigit(last) as nat
  }

  /** The value of the longest run of digits of the radix at the start of `body`; NaN when there is none. */
  function LeadingValue(body: string, radix: nat): (r: Number)
    ensures r.NaN? <==> DigitRun(body, radix) == 0
    ensures r.Int? ==> r.value >= 0
  {
    var n := DigitRun(body, radix);
    if n == 0 then NaN else Int(RadixValue(body[..n], radix))
  }

  /** The number after the sign: a `0x` or `0X` prefix selects radix 16, radix 10 otherwise. */
  function UnsignedValue(u: string): (r: Number)
    ensures r.Int? ==> r.value >= 0
  {
    var hex := |u| >= 2 && u[0] == '0' && (u[1] == 'x' || u[1] == 'X');
    LeadingValue(if hex then u[2..] else u, if hex then 16 else 10)
  }

  /** A text that starts with no white space: one optional sign, then the unsigned number. */
  function SignedValue(s: string): (r: Number)
  {
    var negative := |s| > 0 && s[0] == '-';
    var v := UnsignedValue(if |s| > 0 && (s[0] == '-' || s[0] == '+') then s[1..] else s);
    if negative && v.Int? then Int(-v.value) else v
  }

  /**
   * `parseInt(text)` with no radix: leading white space is skipped, one sign
   * is read, a `0x` or `0X` prefix selects radix 16, and the longest run of
   * digits that follows is the value; no digit at all gives NaN.
   */
  function ParseInt(text: string): (r: Number)
  {
    SignedValue(TrimStart(text))
  }

  /** In radix 10 the digit value is the decimal value. */
  lemma {:induction false} RadixValueDecimal(s: string)
    requires forall k :: 0 <= k < |s| ==> IsDigit(s[k])
    ensures forall k :: 0 <= k < |s| ==> IsRadixDigit(s[k], 10)
    ensures RadixValue(s, 10) == DecimalValue(s)
    decreases |s|
  {
    if |s| > 0 {
      RadixValueDecimal(s[..|s| - 1]);
    }
  }

  /** A run of decimal digits ends where the digits end. */
  lemma {:induction false} DecimalRun(digits: string, t: string)
    requires forall k :: 0 <= k < |digits| ==> IsDigit(digits[k])
    requires |t| == 0 || !IsDigit(t[0])
    ensures DigitRun(digits + t, 10) == |digits|
    decreases |digits|
  {
    if |digits| == 0 {
      assert digits + t == t;
    } else {
      assert (digits + t)[0] == digits[0];
      assert (digits + t)[1..] == digits[1..] + t;
      DecimalRun(digits[1..], t);
    }
  }

  /** A decimal text that does not start with `0x` reads as its decimal value. */
  lemma DecimalLeadingValue(d: string, t: string)
    requires forall k :: 0 <= k < |d| ==> IsDigit(d[k])
    requires |t| == 0 || (!IsDigit(t[0]) && t[0] != 'x' && t[0] != 'X')
    requires |d| > 0 && (|d| > 1 ==> d[0] != '0')
    ensures UnsignedValue(d + t) == Int(DecimalValue(d))
  {
    var u := d + t;
    assert u[0] == d[0];
    if |d| == 1 {
      assert |u| >= 2 ==> u[1] == t[0];
    }
    DecimalRun(d, t);
    assert u[..|d|] == d;
    RadixValueDecimal(d);
  }

  /** A text that starts with a digit has no white space to skip and no sign. */
  lemma DigitFirst(s: string)
    requires |s| > 0 && IsDigit(s[0])
    ensures TrimStart(s) == s
    ensures SignedValue(s) == UnsignedValue(s)
  {
    assert !IsJsWhitespace(s[0]) && s[0] != '-' && s[0] != '+';
  }

  /**
   * The decimal text of a number, followed by anything that does not go on
   * with a digit or an `x`, parses as that number.
   */
  lemma ParseIntOfNatText(n: nat, t: string)
    requires |t| == 0 || (!IsDigit(t[0]) && t[0] != 'x' && t[0] != 'X')
    ensures ParseInt(NatToString(n) + t) == Int(n)
  {
    var d := NatToString(n);
    assert (d + t)[0] == d[0];
    calc {
      ParseInt(d + t);
    == { DigitFirst(d + t); }
      UnsignedValue(d + t);
    == { DecimalLeadingValue(d, t); }
      Int(DecimalValue(d));
    == { DecimalOfNatToString(n); }
      Int(n);
    }
  }

  /** A leading minus sign negates. */
  lemma ParseIntNegative(n: nat)
    ensures ParseInt("-" + NatToString(n)) == Int(0 - n)
  {
    var d := NatToString(n);
    var s := "-" + d;
    assert s[0] == '-' && s[1..] == d + "";
    assert TrimStart(s) == s;
    calc {
      UnsignedValue(s[1..]);
    == { DecimalLeadingValue(d, ""); }
      Int(DecimalValue(d));
    == { DecimalOfNatToString(n); }
      Int(n);
    }
  }

  /** White space before the number is skipped. */
  lemma ParseIntSkipsWhitespace(w: string, text: string)
    requires AllWhitespace(w)
    ensures ParseInt(w + text) == ParseInt(text)
  {
    TrimStartAfterWhitespace(w, text);
  }

  /** A text that does not start with a sign or a digit is NaN. */
  lemma ParseIntNoDigits(text: string)
    requires |text| > 0 && !IsJsWhitespace(text[0]) && text[0] != '-' && text[0] != '+'
    requires !IsDigit(text[0])
    ensures ParseInt(text) == NaN
  {
    assert TrimStart(text) == text;
  }

  /** `parseInt(undefined)` reads the text "undefined", which is NaN. */
  lemma ParseIntUndefined()
    ensures ParseInt(ArgText([], 0)) == NaN
  {
    ParseIntNoDigits("undefined");
  }

  // ----- parseOptions -----

  /** `String(args[k])`: the argument, or "undefined" past the end. */
  function ArgText(args: seq<string>, k: nat): (r: string)
    ensures k < |args| ==> r == args[k]
  {
    if k < |args| then args[k] else "undefined"
  }

  /** `args[k]` as a value: the argument, or None (undefined) past the end. */
  function ArgAt(args: seq<string>, k: nat): (r: Option<string>)
    ensures r.Some? <==> k < |args|
  {
    if k < |args| then Some(args[k]) else None
  }

  /**
   * The options object; an absent property is None (or false for the two
   * flags). `outputPath` is Some(None) when `--output` was the last argument,
   * which stores undefined.
   */
  datatype Options = Options(
    swap: Option<(Number, Number)>,
    deleteRow: Option<Number>,
    deleteColumn: Option<Number>,
    transpose: bool,
    toHtml: bool,
    outputPath: Option<Option<string>>)

  const NoOptions: Options := Options(None, None, None, false, false, None)

  /** The `case` labels of the source's `switch`, and the default. */
  datatype Flag = SwapFlag | DeleteRowFlag | DeleteColumnFlag | TransposeFlag | HtmlFlag | OutputFlag | Unknown

  /** The label an argument matches, by exact string equality. */
  function FlagOf(arg: string): Flag
  {
    if arg == "--swap" then SwapFlag
    else if arg == "--delete-row" then DeleteRowFlag
    else if arg == "--delete-column" then DeleteColumnFlag
    else if arg == "--transpose" then TransposeFlag
    else if arg == "--to-html" then HtmlFlag
    else if arg == "--output" then OutputFlag
    else Unknown
  }

  /** The six option names the scanner knows. */
  predicate IsOption(arg: string)
  {
    FlagOf(arg) != Unknown
  }

  /** What scanning ends with: the options, or the process exit on an unknown option. */
  datatype Outcome = Parsed(options: Options) | Exit(status: int, message: string)

  /**
   * The options after reading the known option at `args[i]` with its values,
   * and where the scan resumes. Numbers are read with `parse`, which is
   * ParseInt in the program; the scanning lemmas hold for any `parse`.
   */
  function Step(args: seq<string>, i: nat, opts: Options, parse: string -> Number): (r: (nat, Options))
    requires i < |args| && IsOption(args[i])
    ensures r.0 == i + match FlagOf(args[i])
      case SwapFlag => 3
      case DeleteRowFlag => 2
      case DeleteColumnFlag => 2
      case OutputFlag => 2
      case _ => 1
  {
    match FlagOf(args[i])
    case SwapFlag => (i + 3, opts.(swap := Some((parse(ArgText(args, i + 1)), parse(ArgText(args, i + 2))))))
    case DeleteRowFlag => (i + 2, opts.(deleteRow := Some(parse(ArgText(args, i + 1)))))
    case DeleteColumnFlag => (i + 2, opts.(deleteColumn := Some(parse(ArgText(args, i + 1)))))
    case TransposeFlag => (i + 1, opts.(transpose := true))
    case HtmlFlag => (i + 1, opts.(toHtml := true))
    case OutputFlag => (i + 2, opts.(outputPath := Some(ArgAt(args, i + 1))))
  }

  /** The scan from argument `i` on, with the options gathered so far. */
  function ScanFrom(args: seq<string>, i: nat, opts: Options, parse: string -> Number): Outcome
    decreases |args| - i
  {
    if i >= |args| then Parsed(opts)
    else if !IsOption(args[i]) then Exit(1, "Unknown option: " + args[i])
    else
      var next := Step(args, i, opts, parse);
      ScanFrom(args, next.0, next.1, parse)
  }

  /** A known option moves the scan on by one step. */
  lemma ScanStep(args: seq<string>, i: nat, opts: Options, parse: string -> Number)
    requires i < |args| && IsOption(args[i])
    ensures ScanFrom(args, i, opts, parse) == ScanFrom(args, Step(args, i, opts, parse).0, Step(args, i, opts, parse).1, parse)
  {
  }

  /** The options of a command line: `args[0]` to `args[2]` are the runtime, script and input path. */
  function Scan(args: seq<string>): Outcome
  {
    ScanFrom(args, 3, NoOptions, ParseInt)
  }

  /**
   * One known `case` of the source's `switch`: the option at `args[i]` reads
   * its values with `args[++i]`; `last` is the index of the last argument
   * read, and the loop's `i++` moves past it.
   */
  method ReadOption(args: seq<string>, i: nat, options: Options) returns (last: nat, updated: Options)
    requires i < |args| && IsOption(args[i])
    ensures (last + 1, updated) == Step(args, i, options, ParseInt)
  {
    last := i;
    updated := options;
    match FlagOf(args[i]) {
      case SwapFlag =>
        last := last + 1;
        var n := ParseInt(ArgText(args, last));
        last := last + 1;
        var m := ParseInt(ArgText(args, last));
        updated := updated.(swap := Some((n, m)));
      case DeleteRowFlag =>
        last := last + 1;
        updated := updated.(deleteRow := Some(ParseInt(ArgText(args, last))));
      case DeleteColumnFlag =>
        last := last + 1;
        updated := updated.(deleteColumn := Some(ParseInt(ArgText(args, last))));
      case TransposeFlag =>
        updated := updated.(transpose := true);
      case HtmlFlag =>
        updated := updated.(toHtml := true);
      case OutputFlag =>
        last := last + 1;
        updated := updated.(outputPath := Some(ArgAt(args, last)));
    }
  }

  /**
   * `parseOptions`: one pass over the arguments from index 3; a known option
   * reads its values, anything else is the `default` case, which exits with
   * status 1.
   */
  method ParseOptions(args: seq<string>) returns (outcome: Outcome)
    ensures outcome == Scan(args)
  {
    var options := NoOptions;
    var i := 3;
    while i < |args|
      invariant 3 <= i
      invariant ScanFrom(args, i, options, ParseInt) == Scan(args)
      decreases |args| - i
    {
      var arg := args[i];
      if !IsOption(arg) {
        return Exit(1, "Unknown option: " + arg);
      }
      ghost var start, before := i, options;
      i, options := ReadOption(args, i, options);
      i := i + 1;
      ScanStep(args, start, before, ParseInt);
    }
    return Parsed(options);
  }

  /** The first three arguments are never read: any three give the same options. */
  lemma FirstThreeIgnored(a: seq<string>, b: seq<string>, rest: seq<string>)
    requires |a| == 3 && |b| == 3
    ensures Scan(a + rest) == Scan(b + rest)
  {
    ScanFromTail(a + rest, b + rest, 3, NoOptions, ParseInt);
  }

  lemma {:induction false} ScanFromTail(x: seq<string>, y: seq<string>, i: nat, opts: Options, parse: string -> Number)
    requires 3 <= i && 3 <= |x| == |y| && x[3..] == y[3..]
    ensures ScanFrom(x, i, opts, parse) == ScanFrom(y, i, opts, parse)
    decreases |x| - i
  {
    if i < |x| {
      forall k | 3 <= k < |x| ensures x[k] == y[k] {
        assert x[k] == x[3..][k - 3];
      }
      if IsOption(x[i]) {
        assert ArgText(x, i + 1) == ArgText(y, i + 1) && ArgText(x, i + 2) == ArgText(y, i + 2);
        assert ArgAt(x, i + 1) == ArgAt(y, i + 1);
        assert Step(x, i, opts, parse) == Step(y, i, opts, parse);
        var next := Step(x, i, opts, parse);
        ScanFromTail(x, y, next.0, next.1, parse);
      }
    }
  }

  /**
   * One complete option on the command line: its name and the values it
   * reads, which may be any text, an option name included.
   */
  datatype Group =
    | SwapGroup(n: string, m: string)
    | DeleteRowGroup(row: string)
    | DeleteColumnGroup(column: string)
    | TransposeGroup
    | HtmlGroup
    | OutputGroup(path: string)

  /** The arguments a group occupies: `--swap` takes two values, the other valued options one, the flags none. */
  function Tokens(g: Group): (r: seq<string>)
    ensures |r| == match g
      case SwapGroup(_, _) => 3
      case DeleteRowGroup(_) => 2
      case DeleteColumnGroup(_) => 2
      case OutputGroup(_) => 2
      case _ => 1
    ensures FlagOf(r[0]) == Kind(g)
  {
    match g
    case SwapGroup(n, m) => ["--swap", n, m]
    case DeleteRowGroup(n) => ["--delete-row", n]
    case DeleteColumnGroup(n) => ["--delete-column", n]
    case TransposeGroup => ["--transpose"]
    case HtmlGroup => ["--to-html"]
    case OutputGroup(p) => ["--output", p]
  }

  /** The property a group sets, as the source's assignment does. */
  function Effect(g: Group, opts: Options, parse: string -> Number): Options
  {
    match g
    case SwapGroup(n, m) => opts.(swap := Some((parse(n), parse(m))))
    case DeleteRowGroup(n) => opts.(deleteRow := Some(parse(n)))
    case DeleteColumnGroup(n) => opts.(deleteColumn := Some(parse(n)))
    case TransposeGroup => opts.(transpose := true)
    case HtmlGroup => opts.(toHtml := true)
    case OutputGroup(p) => opts.(outputPath := Some(Some(p)))
  }

  /** The arguments of several groups, one after the other. */
  function TokensOf(gs: seq<Group>): seq<string>
    decreases |gs|
  {
    if |gs| == 0 then [] else Tokens(gs[0]) + TokensOf(gs[1..])
  }

  /** The groups' effects, applied in command-line order. */
  function Effects(gs: seq<Group>, opts: Options, parse: string -> Number): Options
    decreases |gs|
  {
    if |gs| == 0 then opts else Effects(gs[1..], Effect(gs[0], opts, parse), parse)
  }

  /** One group is read as a whole and has its effect. */
  lemma ScanGroup(args: seq<string>, i: nat, g: Group, opts: Options, parse: string -> Number)
    requires i + |Tokens(g)| <= |args| && args[i..i + |Tokens(g)|] == Tokens(g)
    ensures ScanFrom(args, i, opts, parse) == ScanFrom(args, i + |Tokens(g)|, Effect(g, opts, parse), parse)
  {
    var t := Tokens(g);
    forall k | 0 <= k < |t| ensures args[i + k] == t[k] {
      assert args[i..i + |t|][k] == args[i + k];
    }
    assert FlagOf(args[i]) == Kind(g);
    match g {
      case SwapGroup(n, m) =>
        assert ArgText(args, i + 1) == n && ArgText(args, i + 2) == m;
      case DeleteRowGroup(n) =>
        assert ArgText(args, i + 1) == n;
      case DeleteColumnGroup(n) =>
        assert ArgText(args, i + 1) == n;
      case OutputGroup(p) =>
        assert ArgAt(args, i + 1) == Some(p);
      case TransposeGroup =>
      case HtmlGroup =>
    }
    assert Step(args, i, opts, parse) == (i + |t|, Effect(g, opts, parse));
  }

  /** A slice that is a concatenation splits into the slices of its parts. */
  lemma SliceSplit(a: seq<string>, i: nat, x: seq<string>, y: seq<string>)
    requires i + |x| + |y| <= |a| && a[i..i + |x| + |y|] == x + y
    ensures a[i..i + |x|] == x && a[i + |x|..i + |x| + |y|] == y
  {
    assert a[i..i + |x|] == (x + y)[..|x|];
    assert a[i + |x|..i + |x| + |y|] == (x + y)[|x|..];
  }

  /**
   * Complete groups are read one after the other, each with its effect,
   * from argument `i` up to `end`, where their arguments end.
   */
  lemma {:induction false} ScanGroups(args: seq<string>, i: nat, end: nat, gs: seq<Group>, opts: Options, parse: string -> Number)
    requires end == i + |TokensOf(gs)| <= |args| && args[i..end] == TokensOf(gs)
    ensures ScanFrom(args, i, opts, parse) == ScanFrom(args, end, Effects(gs, opts, parse), parse)
    decreases |gs|
  {
    if |gs| > 0 {
      var g, later := gs[0], gs[1..];
      var t, e := Tokens(g), Effect(g, opts, parse);
      assert TokensOf(gs) == t + TokensOf(later);
      assert Effects(gs, opts, parse) == Effects(later, e, parse);
      SliceSplit(args, i, t, TokensOf(later));
      ScanGroup(args, i, g, opts, parse);
      ScanGroups(args, i + |t|, end, later, e, parse);
    } else {
      assert Effects(gs, opts, parse) == opts;
    }
  }

  /** A command line of complete options parses to their effects in order. */
  lemma ParseGroups(prefix: seq<string>, gs: seq<Group>)
    requires |prefix| == 3
    ensures Scan(prefix + TokensOf(gs)) == Parsed(Effects(gs, NoOptions, ParseInt))
  {
    var args := prefix + TokensOf(gs);
    assert args[3..3 + |TokensOf(gs)|] == TokensOf(gs);
    ScanGroups(args, 3, 3 + |TokensOf(gs)|, gs, NoOptions, ParseInt);
  }

  /** Any argument that is not an option name, where an option is expected, ends the run with status 1. */
  lemma UnknownOptionExits(prefix: seq<string>, gs: seq<Group>, arg: string, rest: seq<string>)
    requires |prefix| == 3 && !IsOption(arg)
    ensures Scan(prefix + TokensOf(gs) + [arg] + rest) == Exit(1, "Unknown option: " + arg)
  {
    var args := prefix + TokensOf(gs) + [arg] + rest;
    var n := |TokensOf(gs)|;
    assert args[3..3 + n] == TokensOf(gs);
    ScanGroups(args, 3, 3 + n, gs, NoOptions, ParseInt);
    assert args[3 + n] == arg;
  }

  /** An exit only ever happens with status 1 on an argument that is not an option. */
  lemma {:induction false} ExitOnlyOnUnknown(args: seq<string>, i: nat, opts: Options, parse: string -> Number)
    requires ScanFrom(args, i, opts, parse).Exit?
    ensures exists k :: i <= k < |args| && !IsOption(args[k]) && ScanFrom(args, i, opts, parse) == Exit(1, "Unknown option: " + args[k])
    decreases |args| - i
  {
    if IsOption(args[i]) {
      var next := Step(args, i, opts, parse);
      ExitOnlyOnUnknown(args, next.0, next.1, parse);
    }
  }

  /** The option a group sets. */
  function Kind(g: Group): Flag
  {
    match g
    case SwapGroup(_, _) => SwapFlag
    case DeleteRowGroup(_) => DeleteRowFlag
    case DeleteColumnGroup(_) => DeleteColumnFlag
    case TransposeGroup => TransposeFlag
    case HtmlGroup => HtmlFlag
    case OutputGroup(_) => OutputFlag
  }

  /** Of two groups for the same option, the later one wins. */
  lemma LaterGroupWins(g1: Group, g2: Group, opts: Options, parse: string -> Number)
    requires Kind(g1) == Kind(g2)
    ensures Effect(g2, Effect(g1, opts, parse), parse) == Effect(g2, opts, parse)
  {
  }

  /** Groups for different options can be given in either order. */
  lemma DistinctGroupsCommute(g1: Group, g2: Group, opts: Options, parse: string -> Number)
    requires Kind(g1) != Kind(g2)
    ensures Effect(g2, Effect(g1, opts, parse), parse) == Effect(g1, Effect(g2, opts, parse), parse)
  {
  }

  /** A repeated option keeps only its last value. */
  lemma RepeatedOptionOverwrites(prefix: seq<string>, x: string, y: string)
    requires |prefix| == 3
    ensures Scan(prefix + ["--delete-row", x, "--delete-row", y])
         == Parsed(NoOptions.(deleteRow := Some(ParseInt(y))))
  {
    var gs := [DeleteRowGroup(x), DeleteRowGroup(y)];
    assert TokensOf(gs) == ["--delete-row", x, "--delete-row", y] by {
      assert TokensOf(gs[1..]) == ["--delete-row", y] + TokensOf(gs[2..]);
    }
    ParseGroups(prefix, gs);
    assert Effects(gs, NoOptions, ParseInt) == Effects(gs[1..], Effect(gs[0], NoOptions, ParseInt), ParseInt);
    assert Effects(gs[1..], Effect(gs[0], NoOptions, ParseInt), ParseInt)
        == Effects(gs[2..], Effect(gs[1], Effect(gs[0], NoOptions, ParseInt), ParseInt), ParseInt);
  }

  /** A valued option at the very end reads undefined: its number is read from the text "undefined". */
  lemma MissingValueWith(prefix: seq<string>, parse: string -> Number)
    requires |prefix| == 3
    ensures ScanFrom(prefix + ["--delete-row"], 3, NoOptions, parse)
         == Parsed(NoOptions.(deleteRow := Some(parse(ArgText([], 0)))))
    ensures ScanFrom(prefix + ["--output"], 3, NoOptions, parse) == Parsed(NoOptions.(outputPath := Some(None)))
  {
    var a := prefix + ["--delete-row"];
    assert a[3] == Tokens(DeleteRowGroup(""))[0];
    assert ArgText(a, 4) == ArgText([], 0);
    assert Step(a, 3, NoOptions, parse) == (5, NoOptions.(deleteRow := Some(parse(ArgText([], 0)))));
    var b := prefix + ["--output"];
    assert b[3] == Tokens(OutputGroup(""))[0];
    assert Step(b, 3, NoOptions, parse) == (5, NoOptions.(outputPath := Some(None)));
  }

  /** A valued option at the very end reads undefined: NaN for a number, undefined for a path. */
  lemma MissingValue(prefix: seq<string>)
    requires |prefix| == 3
    ensures Scan(prefix + ["--delete-row"]) == Parsed(NoOptions.(deleteRow := Some(NaN)))
    ensures Scan(prefix + ["--output"]) == Parsed(NoOptions.(outputPath := Some(None)))
  {
    MissingValueWith(prefix, ParseInt);
    ParseIntUndefined();
  }

  // ----- createTransformationPipeline -----

  /** One transformation of the pipeline. */
  datatype Stage =
    | ParseStage
    | SwapStage(n: Number, m: Number)
    | RowDeleteStage(row: int)
    | ColumnDeleteStage(column: int)
    | TransposeStage
    | HtmlStage
    | SerializeStage

  /** JavaScript truthiness of an optional number: present, not NaN, not 0. */
  predicate Truthy(v: Option<Number>)
  {
    v.Some? && v.value.Int? && v.value.value != 0
  }

  /** The integer of a truthy optional number (0 otherwise). */
  function IntOr(v: Option<Number>): int
  {
    if Truthy(v) then v.value.value else 0
  }

  /** The number of optional stages the options switch on. */
  function EnabledCount(opts: Options): nat
  {
    (if opts.swap.Some? then 1 else 0) + (if Truthy(opts.deleteRow) then 1 else 0)
    + (if Truthy(opts.deleteColumn) then 1 else 0) + (if opts.transpose then 1 else 0)
  }

  /** The position a stage kind takes in every pipeline. */
  function Rank(s: Stage): nat
  {
    match s
    case ParseStage => 0
    case SwapStage(_, _) => 1
    case RowDeleteStage(_) => 2
    case ColumnDeleteStage(_) => 3
    case TransposeStage => 4
    case HtmlStage => 5
    case SerializeStage => 5
  }

  /** The final stage: the HTML table when `toHtml` is set, CSV text otherwise. */
  function FinalStage(opts: Options): Stage
  {
    if opts.toHtml then HtmlStage else SerializeStage
  }

  /** `transformations.push(s)` when `c` holds. */
  function PushIf(p: seq<Stage>, c: bool, s: Stage): (r: seq<Stage>)
    ensures |r| == |p| + (if c then 1 else 0)
    ensures forall x :: x in r <==> x in p || (c && x == s)
  {
    if c then p + [s] else p
  }

  /** The pipeline the options describe: the parser, each enabled stage in turn, the output format. */
  function Pipeline(opts: Options): (p: seq<Stage>)
  {
    var withSwap := PushIf([ParseStage], opts.swap.Some?, SwapStage(opts.swap.GetOr((NaN, NaN)).0, opts.swap.GetOr((NaN, NaN)).1));
    var withRow := PushIf(withSwap, Truthy(opts.deleteRow), RowDeleteStage(IntOr(opts.deleteRow)));
    var withColumn := PushIf(withRow, Truthy(opts.deleteColumn), ColumnDeleteStage(IntOr(opts.deleteColumn)));
    var withTranspose := PushIf(withColumn, opts.transpose, TransposeStage);
    PushIf(withTranspose, true, FinalStage(opts))
  }

  /** Every stage of `p` comes strictly later in the fixed order than the one before it. */
  predicate Ordered(p: seq<Stage>)
  {
    forall i, j :: 0 <= i < j < |p| ==> Rank(p[i]) < Rank(p[j])
  }

  /** Pushing a stage that ranks after everything keeps the order. */
  lemma PushOrdered(p: seq<Stage>, c: bool, s: Stage, bound: nat)
    requires Ordered(p) && (forall k :: 0 <= k < |p| ==> Rank(p[k]) <= bound) && bound < Rank(s)
    ensures Ordered(PushIf(p, c, s))
    ensures forall k :: 0 <= k < |PushIf(p, c, s)| ==> Rank(PushIf(p, c, s)[k]) <= Rank(s)
  {
  }

  /**
   * The pipeline starts with the parser and ends with exactly the chosen
   * output format, and has one stage for each enabled option in between.
   */
  lemma PipelineShape(opts: Options)
    ensures |Pipeline(opts)| == 2 + EnabledCount(opts)
    ensures Pipeline(opts)[0] == ParseStage
    ensures Pipeline(opts)[|Pipeline(opts)| - 1] == FinalStage(opts)
    ensures HtmlStage in Pipeline(opts) <==> opts.toHtml
    ensures SerializeStage in Pipeline(opts) <==> !opts.toHtml
  {
  }

  /** The enabled stages appear in the fixed order swap, row delete, column delete, transpose. */
  lemma PipelineOrdered(opts: Options)
    ensures Ordered(Pipeline(opts))
  {
    var p0 := [ParseStage];
    var p1 := PushIf(p0, opts.swap.Some?, SwapStage(opts.swap.GetOr((NaN, NaN)).0, opts.swap.GetOr((NaN, NaN)).1));
    PushOrdered(p0, opts.swap.Some?, SwapStage(opts.swap.GetOr((NaN, NaN)).0, opts.swap.GetOr((NaN, NaN)).1), 0);
    var p2 := PushIf(p1, Truthy(opts.deleteRow), RowDeleteStage(IntOr(opts.deleteRow)));
    PushOrdered(p1, Truthy(opts.deleteRow), RowDeleteStage(IntOr(opts.deleteRow)), 1);
    var p3 := PushIf(p2, Truthy(opts.deleteColumn), ColumnDeleteStage(IntOr(opts.deleteColumn)));
    PushOrdered(p2, Truthy(opts.deleteColumn), ColumnDeleteStage(IntOr(opts.deleteColumn)), 2);
    var p4 := PushIf(p3, opts.transpose, TransposeStage);
    PushOrdered(p3, opts.transpose, TransposeStage, 3);
    PushOrdered(p4, true, FinalStage(opts), 4);
  }

  /**
   * A stage is in the pipeline exactly when its option enables it: a swap
   * whenever `--swap` was given, a delete only for a value other than 0 and
   * NaN, a transposition when `--transpose` was given.
   */
  lemma PipelineMembers(opts: Options)
    ensures forall n, m :: SwapStage(n, m) in Pipeline(opts) <==> opts.swap == Some((n, m))
    ensures forall n :: RowDeleteStage(n) in Pipeline(opts) <==> Truthy(opts.deleteRow) && opts.deleteRow.value.value == n
    ensures forall n :: ColumnDeleteStage(n) in Pipeline(opts) <==> Truthy(opts.deleteColumn) && opts.deleteColumn.value.value == n
    ensures TransposeStage in Pipeline(opts) <==> opts.transpose
  {
  }

  /** `createTransformationPipeline`: start with the parser, push each enabled stage, end with the output format. */
  method CreateTransformationPipeline(opts: Options) returns (transformations: seq<Stage>)
    ensures transformations == Pipeline(opts)
  {
    transformations := [ParseStage];
    if opts.swap.Some? {
      transformations := transformations + [SwapStage(opts.swap.value.0, opts.swap.value.1)];
    }
    if Truthy(opts.deleteRow) {
      transformations := transformations + [RowDeleteStage(opts.deleteRow.value.value)];
    }
    if Truthy(opts.deleteColumn) {
      transformations := transformations + [ColumnDeleteStage(opts.deleteColumn.value.value)];
    }
    if opts.transpose {
      transformations := transformations + [TransposeStage];
    }
    if opts.toHtml {
      transformations := transformations + [HtmlStage];
    } else {
      transformations := transformations + [SerializeStage];
    }
  }

  /** The order the options were given in does not change the pipeline. */
  lemma OptionOrderIrrelevant(prefix: seq<string>, g1: Group, g2: Group)
    requires |prefix| == 3 && Kind(g1) != Kind(g2)
    ensures Scan(prefix + Tokens(g1) + Tokens(g2)).Parsed?
    ensures Scan(prefix + Tokens(g2) + Tokens(g1)).Parsed?
    ensures Pipeline(Scan(prefix + Tokens(g1) + Tokens(g2)).options)
         == Pipeline(Scan(prefix + Tokens(g2) + Tokens(g1)).options)
  {
    TwoGroups(prefix, g1, g2);
    TwoGroups(prefix, g2, g1);
    DistinctGroupsCommute(g1, g2, NoOptions, ParseInt);
  }

  lemma TwoGroups(prefix: seq<string>, g1: Group, g2: Group)
    requires |prefix| == 3
    ensures Scan(prefix + Tokens(g1) + Tokens(g2)) == Parsed(Effect(g2, Effect(g1, NoOptions, ParseInt), ParseInt))
  {
    var gs := [g1, g2];
    assert TokensOf(gs) == Tokens(g1) + Tokens(g2) by {
      assert TokensOf(gs[1..]) == Tokens(g2) + TokensOf(gs[2..]);
    }
    assert prefix + Tokens(g1) + Tokens(g2) == prefix + TokensOf(gs);
    ParseGroups(prefix, gs);
    assert Effects(gs, NoOptions, ParseInt) == Effects(gs[1..], Effect(gs[0], NoOptions, ParseInt), ParseInt);
    assert Effects(gs[1..], Effect(gs[0], NoOptions, ParseInt), ParseInt)
        == Effects(gs[2..], Effect(gs[1], Effect(gs[0], NoOptions, ParseInt), ParseInt), ParseInt);
  }

  /** `--delete-row` followed by the decimal text of a number stores that number as the row to delete. */
  lemma DeleteRowOptions(prefix: seq<string>, n: nat)
    requires |prefix| == 3
    ensures Scan(prefix + ["--delete-row", NatToString(n)]) == Parsed(NoOptions.(deleteRow := Some(Int(n))))
  {
    var g := DeleteRowGroup(NatToString(n));
    assert TokensOf([g]) == ["--delete-row", NatToString(n)] by {
      assert TokensOf([g][1..]) == [];
    }
    ParseGroups(prefix, [g]);
    ParseIntOfNatText(n, "");
    assert NatToString(n) + "" == NatToString(n);
    assert Effects([g], NoOptions, ParseInt) == Effects([], Effect(g, NoOptions, ParseInt), ParseInt);
  }

  /** `--delete-row 0` switches nothing on: the pipeline only parses and serializes. */
  lemma ZeroDeleteRowAddsNoStage(prefix: seq<string>)
    requires |prefix| == 3
    ensures Scan(prefix + ["--delete-row", "0"]).Parsed?
    ensures Pipeline(Scan(prefix + ["--delete-row", "0"]).options) == [ParseStage, SerializeStage]
  {
    assert NatToString(0) == "0";
    DeleteRowOptions(prefix, 0);
    var opts := NoOptions.(deleteRow := Some(Int(0)));
    assert !Truthy(opts.deleteRow) && FinalStage(opts) == SerializeStage;
  }

  // ----- running the pipeline -----

  /** The value passed from stage to stage; Fault is any input a stage is not modelled on. */
  datatype Value = Text(text: string) | Table(matrix: Matrix) | Fault

  /** One stage applied to a value. */
  function Apply(s: Stage, v: Value): Value
  {
    match s
    case ParseStage => if v.Text? then Table(ParseCsv(v.text)) else Fault
    case SwapStage(n, m) =>
      if v.Table? && n.Int? && m.Int? && SwapInRange(n.value, m.value, v.matrix)
      then Table(Swap(n.value, m.value, v.matrix)) else Fault
    case RowDeleteStage(n) => if v.Table? then Table(RowDelete(n, v.matrix)) else Fault
    case ColumnDeleteStage(n) => if v.Table? then Table(ColumnDelete(n, v.matrix)) else Fault
    case TransposeStage => if v.Table? && |v.matrix| > 0 then Table(RowsToColumns(v.matrix)) else Fault
    case HtmlStage => if v.Table? then Text(ToHtmlTable(v.matrix)) else Fault
    case SerializeStage => if v.Table? then Text(SerializeCsv(v.matrix)) else Fault
  }

  /** The stages as functions, for `pipe`. */
  function StageFunctions(stages: seq<Stage>): (fs: seq<Value -> Value>)
    ensures |fs| == |stages|
    ensures forall i :: 0 <= i < |stages| ==> fs[i] == (v => Apply(stages[i], v))
  {
    seq(|stages|, i requires 0 <= i < |stages| => (v => Apply(stages[i], v)))
  }

  /** `processCSV` after reading the file: `pipe(...transformations)(csvContent)`. */
  function Run(stages: seq<Stage>, csv: string): Value
  {
    Pipe(StageFunctions(stages), Text(csv))
  }

  /** The stages applied one after the other, first to last. */
  function Execute(stages: seq<Stage>, v: Value): Value
    decreases |stages|
  {
    if |stages| == 0 then v else Execute(stages[1..], Apply(stages[0], v))
  }

  lemma {:induction false} PipeExecutes(fs: seq<Value -> Value>, stages: seq<Stage>, v: Value)
    requires |fs| == |stages|
    requires forall i, w :: 0 <= i < |fs| ==> fs[i](w) == Apply(stages[i], w)
    ensures Pipe(fs, v) == Execute(stages, v)
    decreases |fs|
  {
    if |fs| > 0 {
      assert forall i, w :: 0 <= i < |fs| - 1 ==> fs[1..][i](w) == fs[i + 1](w);
      PipeExecutes(fs[1..], stages[1..], Apply(stages[0], v));
    }
  }

  /** Piping the stage functions runs the stages in pipeline order. */
  lemma RunExecutes(stages: seq<Stage>, csv: string)
    ensures Run(stages, csv) == Execute(stages, Text(csv))
  {
    PipeExecutes(StageFunctions(stages), stages, Text(csv));
  }

  /** `--swap n m` with two decimal numbers sets exactly the swap option. */
  lemma SwapOptions(prefix: seq<string>, n: nat, m: nat)
    requires |prefix| == 3
    ensures Scan(prefix + ["--swap", NatToString(n), NatToString(m)]) == Parsed(NoOptions.(swap := Some((Int(n), Int(m)))))
  {
    var g := SwapGroup(NatToString(n), NatToString(m));
    assert TokensOf([g]) == ["--swap", NatToString(n), NatToString(m)] by {
      assert TokensOf([g][1..]) == [];
    }
    ParseGroups(prefix, [g]);
    ParseIntOfNatText(n, "");
    ParseIntOfNatText(m, "");
    assert NatToString(n) + "" == NatToString(n) && NatToString(m) + "" == NatToString(m);
    assert Effects([g], NoOptions, ParseInt) == Effects([], Effect(g, NoOptions, ParseInt), ParseInt);
  }

  /** Parsing, swapping and serializing a text the parser reads back exactly. */
  lemma RunSwap(matrix: Matrix, n: int, m: int)
    requires |matrix| > 0 && (forall i :: 0 <= i < |matrix| ==> |matrix[i]| > 0) && NoDelimiters(matrix)
    requires SwapInRange(n, m, matrix)
    ensures Run([ParseStage, SwapStage(Int(n), Int(m)), SerializeStage], SerializeCsv(matrix))
         == Text(SerializeCsv(Swap(n, m, matrix)))
  {
    var stages := [ParseStage, SwapStage(Int(n), Int(m)), SerializeStage];
    var csv := SerializeCsv(matrix);
    RunExecutes(stages, csv);
    SerializeThenParse(matrix);
    assert stages[1..] == [SwapStage(Int(n), Int(m)), SerializeStage];
    assert stages[1..][1..] == [SerializeStage];
    calc {
      Execute(stages, Text(csv));
      Execute(stages[1..], Table(matrix));
      Execute(stages[1..][1..], Table(Swap(n, m, matrix)));
      Execute([], Text(SerializeCsv(Swap(n, m, matrix))));
    }
  }

  /** The options of a lone `--swap` give the three-stage pipeline. */
  lemma SwapPipeline(n: int, m: int)
    ensures Pipeline(NoOptions.(swap := Some((Int(n), Int(m))))) == [ParseStage, SwapStage(Int(n), Int(m)), SerializeStage]
  {
  }

  /** `--swap n m` on a file the parser reads back exactly writes the file with the columns exchanged. */
  lemma SwapEndToEnd(prefix: seq<string>, n: nat, m: nat, matrix: Matrix)
    requires |prefix| == 3
    requires |matrix| > 0 && (forall i :: 0 <= i < |matrix| ==> |matrix[i]| > 0) && NoDelimiters(matrix)
    requires SwapInRange(n, m, matrix)
    ensures Scan(prefix + ["--swap", NatToString(n), NatToString(m)]).Parsed?
    ensures Run(Pipeline(Scan(prefix + ["--swap", NatToString(n), NatToString(m)]).options), SerializeCsv(matrix))
         == Text(SerializeCsv(Swap(n, m, matrix)))
  {
    var args := prefix + ["--swap", NatToString(n), NatToString(m)];
    var opts := NoOptions.(swap := Some((Int(n), Int(m))));
    SwapOptions(prefix, n, m);
    calc {
      Run(Pipeline(Scan(args).options), SerializeCsv(matrix));
      Run(Pipeline(opts), SerializeCsv(matrix));
    == { SwapPipeline(n, m); }
      Run([ParseStage, SwapStage(Int(n), Int(m)), SerializeStage], SerializeCsv(matrix));
    == { RunSwap(matrix, n, m); }
      Text(SerializeCsv(Swap(n, m, matrix)));
    }
  }
}
