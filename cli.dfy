/** The command line of src/main.cpp: every argument of the form
    -name=value sets one field of Options, looked up in a fixed order of
    names, and a value std::stoi cannot read ends the program with an error
    message before the simulation is built. */
module CommandLine {
  import opened Util

  /** std::optional<T> with the exception tryReadArgInt may throw. */
  datatype Result<T> = Ok(value: T) | Err(message: string)

  // ---------------------------------------------------------------------
  // std::stoi

  const IntMin: int := -0x8000_0000
  const IntMax: int := 0x7fff_ffff

  /** The characters std::isspace accepts in the C locale. */
  predicate IsSpace(c: char) {
    c == ' ' || c == '\t' || c == '\n' || c == '\U{B}' || c == '\U{C}' || c == '\r'
  }

  predicate IsDigit(c: char) {
    '0' <= c <= '9'
  }

  function DigitValue(c: char): nat
    requires IsDigit(c)
  {
    c as int - '0' as int
  }

  function SkipSpaces(s: string): (r: string)
    ensures |r| <= |s| && r == s[|s| - |r|..]
    ensures r == [] || !IsSpace(r[0])
  {
    if |s| > 0 && IsSpace(s[0]) then SkipSpaces(s[1..]) else s
  }

  /** The number of leading decimal digits of s. */
  function DigitRun(s: string): (n: nat)
    ensures n <= |s|
    ensures forall i | 0 <= i < n :: IsDigit(s[i])
    ensures n < |s| ==> !IsDigit(s[n])
  {
    if |s| > 0 && IsDigit(s[0]) then 1 + DigitRun(s[1..]) else 0
  }

  /** The value of a string of decimal digits, most significant first. */
  function DigitsValue(d: string): nat
    requires forall i | 0 <= i < |d| :: IsDigit(d[i])
  {
    if d == [] then 0 else DigitsValue(d[..|d| - 1]) * 10 + DigitValue(d[|d| - 1])
  }

  /** The number std::stoi reads after the sign: the longest run of
      digits, none when there is no digit. */
  function ReadDigits(u: string): (r: Option<nat>)
    ensures r.None? <==> u == [] || !IsDigit(u[0])
  {
    var n := DigitRun(u);
    if n == 0 then None else Some(DigitsValue(u[..n]))
  }

  /** std::stoi(s) in base 10: leading white space is skipped, an optional
      sign is read, then the longest run of digits; whatever follows the
      digits is ignored. No digits, or a value outside int, throws (None). */
  function Stoi(s: string): (r: Option<int>)
    ensures r.Some? ==> IntMin <= r.value <= IntMax
  {
    ReadSigned(SkipSpaces(s))
  }

  /** stoi after the white space: an optional sign, then the digits. */
  function ReadSigned(t: string): (r: Option<int>)
    ensures r.Some? ==> IntMin <= r.value <= IntMax
  {
    var negative := |t| > 0 && t[0] == '-';
    var u := if |t| > 0 && (t[0] == '-' || t[0] == '+') then t[1..] else t;
    match ReadDigits(u)
    case None => None
    case Some(m) =>
      var v: int := if negative then -(m as int) else m;
      if IntMin <= v <= IntMax then Some(v) else None
  }

  /** The decimal digits of n, without leading zeros. */
  function Decimal(n: nat): (d: string)
    ensures |d| >= 1 && forall i | 0 <= i < |d| :: IsDigit(d[i])
  {
    if n < 10 then ['0' + n as char] else Decimal(n / 10) + ['0' + (n % 10) as char]
  }

  /** v written in decimal, with a '-' when negative. */
  function Render(v: int): (s: string)
    ensures |s| >= 1 && !IsSpace(s[0]) && s[0] != '+'
  {
    if v < 0 then "-" + Decimal(-v) else Decimal(v)
  }

  lemma {:induction false} DecimalValue(n: nat)
    ensures DigitsValue(Decimal(n)) == n
  {
    if n >= 10 {
      var d := Decimal(n / 10);
      var c := '0' + (n % 10) as char;
      assert (d + [c])[..|d|] == d;
      DecimalValue(n / 10);
    }
  }

  lemma {:induction false} DigitRunAppend(d: string, t: string)
    requires forall i | 0 <= i < |d| :: IsDigit(d[i])
    requires t == [] || !IsDigit(t[0])
    ensures DigitRun(d + t) == |d|
  {
    if d != [] {
      assert (d + t)[1..] == d[1..] + t;
      DigitRunAppend(d[1..], t);
    }
  }

  lemma ReadDigitsDecimal(n: nat, t: string)
    requires t == [] || !IsDigit(t[0])
    ensures ReadDigits(Decimal(n) + t) == Some(n)
  {
    var d := Decimal(n);
    DigitRunAppend(d, t);
    assert (d + t)[..|d|] == d;
    DecimalValue(n);
  }

  /** After the white space: a '-' and digits read the negated number. */
  lemma ReadSignedNegative(u: string, m: nat)
    requires ReadDigits(u) == Some(m)
    ensures var v: int := -(m as int); ReadSigned("-" + u) == if IntMin <= v then Some(v) else None
  {
    assert ("-" + u)[1..] == u;
  }

  /** After the white space: digits with no sign read the number. */
  lemma ReadSignedUnsigned(u: string, m: nat)
    requires ReadDigits(u) == Some(m)
    ensures ReadSigned(u) == if m <= IntMax then Some(m) else None
  {
  }

  /** std::stoi reads back an int written in decimal, whatever follows the
      digits as long as it does not start with a digit, and throws for
      every value outside int. */
  lemma StoiRender(v: int, t: string)
    requires t == [] || !IsDigit(t[0])
    ensures Stoi(Render(v) + t) == if IntMin <= v <= IntMax then Some(v) else None
  {
    if v < 0 {
      StoiRenderNegative(-v, t);
    } else {
      StoiRenderDecimal(v, t);
    }
  }

  /** A '-' and the digits of m read back -m. */
  lemma StoiRenderNegative(m: nat, t: string)
    requires m > 0 && (t == [] || !IsDigit(t[0]))
    ensures Stoi(Render(-(m as int)) + t) == if IntMin <= -(m as int) then Some(-(m as int)) else None
  {
    var u := Decimal(m) + t;
    assert Render(-(m as int)) + t == "-" + u;
    ReadDigitsDecimal(m, t);
    ReadSignedNegative(u, m);
    StoiNoSpace("-" + u);
  }

  /** The digits of m read back m. */
  lemma StoiRenderDecimal(m: nat, t: string)
    requires t == [] || !IsDigit(t[0])
    ensures Stoi(Render(m) + t) == if m <= IntMax then Some(m) else None
  {
    var s := Decimal(m) + t;
    ReadDigitsDecimal(m, t);
    ReadSignedUnsigned(s, m);
    StoiNoSpace(s);
  }

  /** Without leading white space stoi goes straight to the sign. */
  lemma StoiNoSpace(s: string)
    requires |s| > 0 && !IsSpace(s[0])
    ensures Stoi(s) == ReadSigned(s)
  {
  }

  /** Leading white space does not change what stoi reads. */
  lemma StoiSkipsSpace(c: char, s: string)
    requires IsSpace(c)
    ensures Stoi([c] + s) == Stoi(s)
  {
    assert ([c] + s)[1..] == s;
  }

  // ---------------------------------------------------------------------
  // tryReadArgInt and tryReadArgBool

  /** '-' + name + '='. */
  function ArgStart(name: string): string {
    "-" + name + "="
  }

  predicate StartsWith(s: string, prefix: string) {
    |prefix| <= |s| && s[..|prefix|] == prefix
  }

  /** The message of the runtime_error tryReadArgInt throws: a fixed text
      with the argument quoted verbatim. Lengths count characters; the
      source's std::string counts bytes, and the two agree on ASCII
      arguments only. */
  function ParseError(arg: string): (m: string)
    ensures |m| == |arg| + 25 && m[..24] == "Error parsing argument \"" && m[|m| - 1] == '"'
  {
    "Error parsing argument \"" + arg + "\""
  }

  /** The message names its argument: two arguments with the same message
      are the same. */
  lemma ParseErrorNamesArgument(a: string, b: string)
    requires ParseError(a) == ParseError(b)
    ensures a == b
  {
    var prefix, quote := "Error parsing argument \"", "\"";
    assert ParseError(a) == prefix + a + quote && ParseError(b) == prefix + b + quote;
    assert a == ParseError(a)[24..|ParseError(a)| - 1];
    assert b == ParseError(b)[24..|ParseError(b)| - 1];
  }

  /** tryReadArgInt(arg, name): nothing unless arg starts with -name=, then
      stoi of the rest, whose failure becomes the parse error. */
  function TryReadArgInt(arg: string, name: string): (r: Result<Option<int>>)
    ensures r == Ok(None) <==> !StartsWith(arg, ArgStart(name))
    ensures r.Err? <==> StartsWith(arg, ArgStart(name)) && Stoi(arg[|ArgStart(name)|..]).None?
    ensures r.Err? ==> r.message == ParseError(arg)
    ensures r.Ok? && r.value.Some? ==>
              && StartsWith(arg, ArgStart(name))
              && Some(r.value.value) == Stoi(arg[|ArgStart(name)|..])
              && IntMin <= r.value.value <= IntMax
  {
    var argStart := ArgStart(name);
    if StartsWith(arg, argStart) then
      match Stoi(arg[|argStart|..])
      case None => Err(ParseError(arg))
      case Some(v) => Ok(Some(v))
    else Ok(None)
  }

  /** tryReadArgBool(arg, name): the int read, as value != 0. */
  function TryReadArgBool(arg: string, name: string): (r: Result<Option<bool>>)
    ensures r.Err? <==> TryReadArgInt(arg, name).Err?
    ensures r.Err? ==> r.message == ParseError(arg)
    ensures r == Ok(None) <==> TryReadArgInt(arg, name) == Ok(None)
    ensures r.Ok? && r.value.Some? ==>
              && TryReadArgInt(arg, name).Ok? && TryReadArgInt(arg, name).value.Some?
              && r.value.value == (TryReadArgInt(arg, name).value.value != 0)
  {
    match TryReadArgInt(arg, name)
    case Err(e) => Err(e)
    case Ok(None) => Ok(None)
    case Ok(Some(v)) => Ok(Some(v != 0))
  }

  /** -name=12 reads 12, -name=0 reads false and any other int true. */
  lemma ReadArgExamples(name: string, v: int)
    requires IntMin <= v <= IntMax
    ensures TryReadArgInt(ArgStart(name) + Render(v), name) == Ok(Some(v))
    ensures TryReadArgBool(ArgStart(name) + Render(v), name) == Ok(Some(v != 0))
  {
    var arg := ArgStart(name) + Render(v);
    assert arg[..|ArgStart(name)|] == ArgStart(name);
    assert arg[|ArgStart(name)|..] == Render(v) + [];
    StoiRender(v, []);
  }

  /** Two names' prefixes never both start one argument: each ends at its
      only '=', and names hold no '='. So the order of the names never
      decides which option an argument sets. */
  lemma {:induction false} PrefixesExclusive(arg: string, a: string, b: string)
    requires '=' !in a && '=' !in b
    requires StartsWith(arg, ArgStart(a)) && StartsWith(arg, ArgStart(b))
    ensures a == b
  {
    var pa, pb := ArgStart(a), ArgStart(b);
    assert forall i | 0 <= i < |a| :: arg[i + 1] == pa[i + 1] == a[i];
    assert forall i | 0 <= i < |b| :: arg[i + 1] == pb[i + 1] == b[i];
    assert arg[|a| + 1] == pa[|a| + 1] == '=';
    assert arg[|b| + 1] == pb[|b| + 1] == '=';
    assert |a| == |b|;
  }

  // ---------------------------------------------------------------------
  // Options and the dispatch chain

  /** How a field takes the int read: as an int, converted to size_t, to
      float, or through tryReadArgBool. */
  datatype Kind = IntField | SizeField | FloatField | BoolField

  /** A field's value. */
  datatype Value = Int(i: int) | Size(n: nat) | Float(f: int) | Bool(b: bool)

  /** v has the shape of a value of kind k. */
  predicate Fits(k: Kind, v: Value) {
    match k
    case IntField => v.Int?
    case SizeField => v.Size? && v.n < SizeModulus
    case FloatField => v.Float?
    case BoolField => v.Bool?
  }

  /** One branch of main's chain: the name it tries and how its field takes
      the value. */
  datatype Flag = Flag(name: string, kind: Kind)

  /** main's branches in order, which is also the order in which struct
      Options declares the fields they set. */
  const Flags: seq<Flag> := [
    Flag("width", IntField), Flag("height", IntField), Flag("target_fps", IntField),
    Flag("remove_streets", BoolField), Flag("villager_count", SizeField), Flag("centroid_count", SizeField),
    Flag("subdiv_prob_1", IntField), Flag("subdiv_prob_2", IntField), Flag("minkowski_0", FloatField),
    Flag("minkowski_1", FloatField), Flag("minkowski_2", FloatField), Flag("place_roundabouts", BoolField),
    Flag("place_ponds", BoolField), Flag("place_full_paved_areas", BoolField),
    Flag("place_large_trees", BoolField), Flag("place_small_trees", BoolField),
    Flag("pathfinding_threads", SizeField), Flag("pave_desire_paths", BoolField),
    Flag("decay_desire_paths", BoolField)]

  /** struct Options, as its fields in declaration order: fields[k] is the
      field the k-th flag sets (screenWidthPixels, screenHeightPixels,
      targetFPS, removeStreetsAfterGeneration, villagerCount,
      voronoiCentroidCountPerLevel, the two subdivide probabilities, the
      three Minkowski exponents, placeRoundabouts, placePonds,
      placeFullPavedAreas, placeLargeTrees, placeSmallTrees,
      pathfindingThreadCount, paveDesirePaths, decayDesirePaths). The size_t
      fields hold a nat below 2^64, the float exponents the int they are
      assigned from. */
  datatype Options = Options(fields: seq<Value>)
  {
    /** One field per flag, each of its flag's kind. */
    predicate Valid() {
      |fields| == |Flags| && forall k | 0 <= k < |fields| :: Fits(Flags[k].kind, fields[k])
    }
  }

  /** The defaults of struct Options. */
  const Defaults: Options := Options([Int(1920), Int(1080), Int(60), Bool(false), Size(1000), Size(6),
                                      Int(90), Int(80), Float(3), Float(3), Float(1), Bool(false),
                                      Bool(true), Bool(true), Bool(true), Bool(true), Size(4),
                                      Bool(true), Bool(true)])

  lemma DefaultsValid()
    ensures Defaults.Valid()
  {
  }

  /** The value an int read gives a field of kind k: size_t wraps a
      negative int modulo 2^64, a bool field holds v != 0. */
  function Convert(k: Kind, v: int): (r: Value)
    ensures Fits(k, r)
    ensures k == IntField ==> r == Int(v)
    ensures k == SizeField ==> (r.n - v) % SizeModulus == 0
    ensures k == FloatField ==> r == Float(v)
    ensures k == BoolField ==> r == Bool(v != 0)
  {
    match k
    case IntField => Int(v)
    case SizeField => Size(v % SizeModulus)
    case FloatField => Float(v)
    case BoolField => Bool(v != 0)
  }

  /** The assignment of main's k-th branch: o with field k set to v. */
  function WithField(o: Options, k: nat, v: Value): (o': Options)
    requires k < |o.fields|
    ensures |o'.fields| == |o.fields| && o'.fields[k] == v
    ensures forall j | 0 <= j < |o.fields| && j != k :: o'.fields[j] == o.fields[j]
  {
    o.(fields := o.fields[k := v])
  }

  /** The k-th flag's prefix starts arg. */
  predicate Matches(flags: seq<Flag>, arg: string, k: nat)
    requires k < |flags|
  {
    StartsWith(arg, ArgStart(flags[k].name))
  }

  /** The first flag from the k-th on whose prefix starts arg. */
  function FirstMatch(flags: seq<Flag>, arg: string, k: nat): (r: Option<nat>)
    requires k <= |flags|
    ensures r.None? <==> forall j | k <= j < |flags| :: !Matches(flags, arg, j)
    ensures r.Some? ==> k <= r.value < |flags| && Matches(flags, arg, r.value)
                        && forall j | k <= j < r.value :: !Matches(flags, arg, j)
    decreases |flags| - k
  {
    if k == |flags| then None
    else if Matches(flags, arg, k) then Some(k)
    else FirstMatch(flags, arg, k + 1)
  }

  /** What follows the k-th flag's prefix. */
  function Suffix(flags: seq<Flag>, arg: string, k: nat): string
    requires k < |flags| && Matches(flags, arg, k)
  {
    arg[|ArgStart(flags[k].name)|..]
  }

  /** The result of the k-th branch once its prefix matched: the parse
      error, or field k set to the converted read. */
  function Outcome(flags: seq<Flag>, o: Options, arg: string, k: nat): Result<Options>
    requires k < |flags| && k < |o.fields| && Matches(flags, arg, k)
  {
    match Stoi(Suffix(flags, arg, k))
    case None => Err(ParseError(arg))
    case Some(v) => Ok(WithField(o, k, Convert(flags[k].kind, v)))
  }

  /** The k-th branch of main's chain: nothing when its read gives no
      value, else the options with its field set, or the parse error. */
  function Branch(flags: seq<Flag>, o: Options, arg: string, k: nat): (r: Option<Result<Options>>)
    requires k < |flags| && |o.fields| == |flags|
    ensures r.None? <==> !Matches(flags, arg, k)
    ensures r.Some? ==> r.value == Outcome(flags, o, arg, k)
  {
    if flags[k].kind == BoolField then
      match TryReadArgBool(arg, flags[k].name)
      case Err(e) => Some(Err(e))
      case Ok(None) => None
      case Ok(Some(b)) => Some(Ok(WithField(o, k, Bool(b))))
    else
      match TryReadArgInt(arg, flags[k].name)
      case Err(e) => Some(Err(e))
      case Ok(None) => None
      case Ok(Some(v)) => Some(Ok(WithField(o, k, Convert(flags[k].kind, v))))
  }

  /** main's if-else chain from the k-th branch on: the first branch whose
      read gives a value or throws decides. */
  function Dispatch(flags: seq<Flag>, o: Options, arg: string, k: nat): (r: Result<Options>)
    requires k <= |flags| && |o.fields| == |flags|
    ensures r.Ok? ==> |r.value.fields| == |flags|
    ensures r.Err? ==> r.message == ParseError(arg)
    decreases |flags| - k
  {
    if k == |flags| then Ok(o)
    else match Branch(flags, o, arg, k)
      case None => Dispatch(flags, o, arg, k + 1)
      case Some(r) => r
  }

  /** The chain is decided by the first branch whose prefix matches: the
      options are unchanged when none does. */
  lemma {:induction false} DispatchFirstMatch(flags: seq<Flag>, o: Options, arg: string, k: nat)
    requires k <= |flags| && |o.fields| == |flags|
    ensures Dispatch(flags, o, arg, k) == match FirstMatch(flags, arg, k)
                                          case None => Ok(o)
                                          case Some(j) => Outcome(flags, o, arg, j)
    decreases |flags| - k
  {
    if k < |flags| && !Matches(flags, arg, k) {
      DispatchFirstMatch(flags, o, arg, k + 1);
    }
  }

  /** One argument of main's loop. */
  function ApplyArg(flags: seq<Flag>, o: Options, arg: string): (r: Result<Options>)
    requires |o.fields| == |flags|
    ensures r.Ok? ==> |r.value.fields| == |flags|
    ensures FirstMatch(flags, arg, 0).None? ==> r == Ok(o)
    ensures FirstMatch(flags, arg, 0).Some? ==> r == Outcome(flags, o, arg, FirstMatch(flags, arg, 0).value)
  {
    DispatchFirstMatch(flags, o, arg, 0);
    Dispatch(flags, o, arg, 0)
  }

  /** main's loop over the arguments, as a fold: the first argument whose
      read throws ends it with the error. */
  function ApplyArgs(flags: seq<Flag>, o: Options, args: seq<string>): (r: Result<Options>)
    requires |o.fields| == |flags|
    ensures r.Ok? ==> |r.value.fields| == |flags|
    decreases |args|
  {
    if args == [] then Ok(o)
    else match ApplyArg(flags, o, args[0])
      case Err(e) => Err(e)
      case Ok(o1) => ApplyArgs(flags, o1, args[1..])
  }

  lemma {:induction false} ApplyArgsSnoc(flags: seq<Flag>, o: Options, args: seq<string>, arg: string)
    requires |o.fields| == |flags|
    ensures ApplyArgs(flags, o, args + [arg]) == match ApplyArgs(flags, o, args)
                                                 case Err(e) => Err(e)
                                                 case Ok(o1) => ApplyArg(flags, o1, arg)
    decreases |args|
  {
    if args == [] {
      assert [arg][1..] == [];
    } else {
      assert (args + [arg])[1..] == args[1..] + [arg];
      match ApplyArg(flags, o, args[0])
      case Err(e) =>
      case Ok(o1) => ApplyArgsSnoc(flags, o1, args[1..], arg);
    }
  }

  /** Once an argument has thrown, the arguments after it are not read. */
  lemma {:induction false} ApplyArgsStops(flags: seq<Flag>, o: Options, args: seq<string>, rest: seq<string>)
    requires |o.fields| == |flags| && ApplyArgs(flags, o, args).Err?
    ensures ApplyArgs(flags, o, args + rest) == ApplyArgs(flags, o, args)
    decreases |args|
  {
    assert (args + rest)[0] == args[0];
    assert (args + rest)[1..] == args[1..] + rest;
    match ApplyArg(flags, o, args[0])
    case Err(e) =>
    case Ok(o1) => ApplyArgsStops(flags, o1, args[1..], rest);
  }

  /** An argument keeps every field of its flag's kind. */
  lemma ApplyArgValid(o: Options, arg: string)
    requires o.Valid()
    ensures ApplyArg(Flags, o, arg).Ok? ==> ApplyArg(Flags, o, arg).value.Valid()
  {
    var m := FirstMatch(Flags, arg, 0);
    if m.Some? && Stoi(Suffix(Flags, arg, m.value)).Some? {
      var k := m.value;
      var o' := WithField(o, k, Convert(Flags[k].kind, Stoi(Suffix(Flags, arg, k)).value));
      forall j | 0 <= j < |Flags|
        ensures Fits(Flags[j].kind, o'.fields[j])
      {
        if j != k {
          assert o'.fields[j] == o.fields[j];
        }
      }
    }
  }

  lemma {:induction false} ApplyArgsValid(o: Options, args: seq<string>)
    requires o.Valid()
    ensures ApplyArgs(Flags, o, args).Ok? ==> ApplyArgs(Flags, o, args).value.Valid()
    decreases |args|
  {
    if args != [] {
      ApplyArgValid(o, args[0]);
      match ApplyArg(Flags, o, args[0])
      case Err(_) =>
      case Ok(o1) => ApplyArgsValid(o1, args[1..]);
    }
  }

  /** main's argument loop: argv[0] is the program name; every later
      argument goes through the dispatch chain, and a parse error ends the
      loop with the message main writes to standard error before returning
      EXIT_FAILURE, without building the simulation. */
  method ParseCommandLine(argv: seq<string>) returns (r: Result<Options>)
    ensures r == ApplyArgs(Flags, Defaults, if |argv| == 0 then [] else argv[1..])
    ensures r.Ok? ==> r.value.Valid()
  {
    var options := Defaults;
    var argIndex := 1;
    while argIndex < |argv|
      invariant 1 <= argIndex && |options.fields| == |Flags|
      invariant |argv| >= 1 ==> argIndex <= |argv| && ApplyArgs(Flags, Defaults, argv[1..argIndex]) == Ok(options)
      invariant |argv| == 0 ==> options == Defaults
    {
      var arg := argv[argIndex];
      ApplyArgsSnoc(Flags, Defaults, argv[1..argIndex], arg);
      SliceSnoc(argv, 1, argIndex);
      var applied := Dispatch(Flags, options, arg, 0);
      if applied.Err? {
        ApplyArgsStops(Flags, Defaults, argv[1..argIndex + 1], argv[argIndex + 1..]);
        SliceJoin(argv, 1, argIndex + 1);
        return Err(applied.message);
      }
      options := applied.value;
      argIndex := argIndex + 1;
    }
    DefaultsValid();
    if |argv| >= 1 {
      assert argv[1..argIndex] == argv[1..];
      ApplyArgsValid(Defaults, argv[1..]);
    }
    return Ok(options);
  }

  /** The argument sets the k-th flag's field. */
  predicate Names(flags: seq<Flag>, arg: string, k: nat) {
    FirstMatch(flags, arg, 0) == Some(k)
  }

  /** The index of the last argument p holds of, if any. */
  function LastWhere(p: string -> bool, args: seq<string>): (r: Option<nat>)
    ensures r.Some? ==> r.value < |args| && p(args[r.value]) && forall i | r.value < i < |args| :: !p(args[i])
    ensures r.None? ==> forall i | 0 <= i < |args| :: !p(args[i])
  {
    if args == [] then None
    else if p(args[|args| - 1]) then Some(|args| - 1)
    else LastWhere(p, args[..|args| - 1])
  }

  /** The last argument naming the k-th flag, if any. */
  function LastNaming(flags: seq<Flag>, args: seq<string>, k: nat): (r: Option<nat>)
    ensures r.Some? ==> r.value < |args| && Names(flags, args[r.value], k)
                        && forall i | r.value < i < |args| :: !Names(flags, args[i], k)
    ensures r.None? ==> forall i | 0 <= i < |args| :: !Names(flags, args[i], k)
  {
    LastWhere(arg => Names(flags, arg, k), args)
  }

  /** When the whole command line reads, each field holds the value of the
      last argument naming its flag, or its earlier value when none does. */
  lemma {:induction false} LastArgumentWins(flags: seq<Flag>, o: Options, args: seq<string>, k: nat)
    requires k < |flags| && |o.fields| == |flags| && ApplyArgs(flags, o, args).Ok?
    ensures var o' := ApplyArgs(flags, o, args).value;
      match LastNaming(flags, args, k)
      case None => o'.fields[k] == o.fields[k]
      case Some(i) => Stoi(Suffix(flags, args[i], k)).Some?
                      && o'.fields[k] == Convert(flags[k].kind, Stoi(Suffix(flags, args[i], k)).value)
    decreases |args|
  {
    if args != [] {
      var init, arg := args[..|args| - 1], args[|args| - 1];
      assert args == init + [arg];
      ApplyArgsSnoc(flags, o, init, arg);
      if !Names(flags, arg, k) {
        LastArgumentWins(flags, o, init, k);
      }
    }
  }

  /** The argument names a flag and its value does not read. */
  predicate BadArg(flags: seq<Flag>, arg: string) {
    var m := FirstMatch(flags, arg, 0);
    m.Some? && Stoi(Suffix(flags, arg, m.value)).None?
  }

  /** The index of the first argument p holds of, if any. */
  function FirstWhere(p: string -> bool, args: seq<string>): (r: Option<nat>)
    ensures r.Some? ==> r.value < |args| && p(args[r.value]) && forall j | 0 <= j < r.value :: !p(args[j])
    ensures r.None? ==> forall j | 0 <= j < |args| :: !p(args[j])
  {
    if args == [] then None
    else if p(args[0]) then Some(0)
    else
      var r := FirstWhere(p, args[1..]);
      assert forall j | 1 <= j < |args| :: args[j] == args[1..][j - 1];
      if r.None? then None else Some(r.value + 1)
  }

  /** The index of the first bad argument, if any. */
  function FirstBad(flags: seq<Flag>, args: seq<string>): (r: Option<nat>)
    ensures r.Some? ==> r.value < |args| && BadArg(flags, args[r.value])
                        && forall j | 0 <= j < r.value :: !BadArg(flags, args[j])
    ensures r.None? ==> forall j | 0 <= j < |args| :: !BadArg(flags, args[j])
  {
    FirstWhere(arg => BadArg(flags, arg), args)
  }

  /** A command line fails exactly when some argument is bad, and then the
      message names the first bad argument. */
  lemma {:induction false} ParseFailsOnBadArg(flags: seq<Flag>, o: Options, args: seq<string>)
    requires |o.fields| == |flags|
    ensures ApplyArgs(flags, o, args).Err? <==> FirstBad(flags, args).Some?
    ensures ApplyArgs(flags, o, args).Err? ==>
              ApplyArgs(flags, o, args).message == ParseError(args[FirstBad(flags, args).value])
    decreases |args|
  {
    if args != [] && !BadArg(flags, args[0]) {
      ParseFailsOnBadArg(flags, ApplyArg(flags, o, args[0]).value, args[1..]);
    }
  }
}
