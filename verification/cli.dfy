/** The command line of `vsdf` (the build with FFmpeg enabled): the log-level
    lookup, the numeric conversions the flags use, the argument loop of
    `run`, the checks after it, and the naming of a new toy shader. The
    file system is replaced by what it would answer (does a file exist) and
    the random toy number is a parameter. */
module Cli {
  import opened Wrappers
  import opened MachineInts
  import opened Text
  import Paths
  import FfmpegEncoder
  import RingSlots

  // ----- parseLogLevel -----

  datatype LogLevel = Trace | Debug | Info | Warn | Error | Critical | Off

  /** The name each level is spelled with on the command line. */
  function LevelName(l: LogLevel): (name: string)
    ensures 0 < |name| && forall i :: 0 <= i < |name| ==> !IsUpper(name[i])
  {
    match l
    case Trace => "trace"
    case Debug => "debug"
    case Info => "info"
    case Warn => "warn"
    case Error => "error"
    case Critical => "critical"
    case Off => "off"
  }

  /** `parseLogLevel`: the input, lower-cased, must be one of the seven
      level names; the error quotes the input as given. */
  function ParseLogLevel(s: string): (r: Result<LogLevel>)
    ensures r.Ok? ==> LevelName(r.value) == ToLower(s)
    ensures r.Err? ==> r.error == "Invalid log level: " + s
                       && forall l: LogLevel :: LevelName(l) != ToLower(s)
  {
    var n := ToLower(s);
    if n == "trace" then Ok(Trace)
    else if n == "debug" then Ok(Debug)
    else if n == "info" then Ok(Info)
    else if n == "warn" then Ok(Warn)
    else if n == "error" then Ok(Error)
    else if n == "critical" then Ok(Critical)
    else if n == "off" then Ok(Off)
    else Err("Invalid log level: " + s)
  }

  /** A string without capitals is its own lower-case form. */
  lemma ToLowerKeeps(s: string)
    requires forall i :: 0 <= i < |s| ==> !IsUpper(s[i])
    ensures ToLower(s) == s
  {
  }

  /** Every level is found under its name, in any mix of case. */
  lemma LogLevelRoundTrip(l: LogLevel, s: string)
    requires ToLower(s) == LevelName(l)
    ensures ParseLogLevel(s) == Ok(l)
  {
    ToLowerKeeps(LevelName(l));
  }

  /** Case does not matter: a name and its lower-case form parse alike. */
  lemma LogLevelIgnoresCase(s: string)
    ensures ParseLogLevel(s).Ok? <==> ParseLogLevel(ToLower(s)).Ok?
    ensures ParseLogLevel(s).Ok? ==> ParseLogLevel(s) == ParseLogLevel(ToLower(s))
  {
    ToLowerIdempotent(s);
  }

  // ----- std::stoul and std::stoi -----

  const ULONG_LIMIT: nat := 0x1_0000_0000_0000_0000
  const INT_MIN: int := -0x8000_0000
  const INT_MAX: int := 0x7FFF_FFFF

  /** Why a conversion throws: `std::invalid_argument` or
      `std::out_of_range`. */
  datatype NumError = InvalidArgument | OutOfRange

  datatype Conversion = Converted(value: int) | Failed(error: NumError)

  /** The index of the first character at or after `i` that is not white
      space. */
  function SkipSpaces(s: string, i: nat): (j: nat)
    requires i <= |s|
    ensures i <= j <= |s|
    ensures forall k :: i <= k < j ==> IsSpace(s[k])
    ensures j < |s| ==> !IsSpace(s[j])
    decreases |s| - i
  {
    if i == |s| || !IsSpace(s[i]) then i else SkipSpaces(s, i + 1)
  }

  /** The end of the run of digits starting at `i`. */
  function DigitsEnd(s: string, i: nat): (j: nat)
    requires i <= |s|
    ensures i <= j <= |s| && AllDigits(s[i..j])
    ensures j < |s| ==> !IsDigit(s[j])
    decreases |s| - i
  {
    if i == |s| || !IsDigit(s[i]) then i
    else
      var j := DigitsEnd(s, i + 1);
      assert s[i..j] == [s[i]] + s[i + 1..j];
      j
  }

  /** What `strtoul` and `strtol` read in base 10: leading white space, an
      optional sign and at least one digit; anything after the digits is
      ignored. The sign and the magnitude. */
  function SignedDigits(s: string): (r: Option<(bool, nat)>)
  {
    var i := SkipSpaces(s, 0);
    var negative := i < |s| && s[i] == '-';
    var start := if i < |s| && (s[i] == '-' || s[i] == '+') then i + 1 else i;
    var end := DigitsEnd(s, start);
    if end == start then None else Some((negative, DecimalValue(s[start..end])))
  }

  /** `std::stoul` with a 64-bit `unsigned long`: a magnitude that does not
      fit is out of range, and a minus sign negates modulo 2^64. */
  function Stoul(s: string): (r: Conversion)
    ensures r.Converted? ==> 0 <= r.value < ULONG_LIMIT
    ensures r == Failed(InvalidArgument) <==> SignedDigits(s).None?
  {
    match SignedDigits(s)
    case None => Failed(InvalidArgument)
    case Some((negative, m)) =>
      if m >= ULONG_LIMIT then Failed(OutOfRange)
      else Converted(if negative then (ULONG_LIMIT - m) % ULONG_LIMIT else m)
  }

  /** `std::stoi` with a 32-bit `int`: the signed value must fit. */
  function Stoi(s: string): (r: Conversion)
    ensures r.Converted? ==> INT_MIN <= r.value <= INT_MAX
    ensures r == Failed(InvalidArgument) <==> SignedDigits(s).None?
  {
    match SignedDigits(s)
    case None => Failed(InvalidArgument)
    case Some((negative, m)) =>
      var v: int := if negative then -(m as int) else m;
      if v < INT_MIN || v > INT_MAX then Failed(OutOfRange) else Converted(v)
  }

  /** The digits of a number read back as that number. */
  lemma {:induction false} DigitsEndAll(s: string, i: nat)
    requires i <= |s| && AllDigits(s)
    ensures DigitsEnd(s, i) == |s|
    decreases |s| - i
  {
    if i < |s| {
      DigitsEndAll(s, i + 1);
    }
  }

  /** A number printed in decimal converts back to itself. */
  lemma StoulDecimal(n: nat)
    requires n < ULONG_LIMIT
    ensures Stoul(Decimal(n)) == Converted(n)
  {
    var s := Decimal(n);
    assert !IsSpace(s[0]);
    DigitsEndAll(s, 0);
    assert s[0..|s|] == s;
  }

  // ----- the argument loop of run -----

  /** `static_cast<uint32_t>` of an `unsigned long`. */
  function TruncateU32(v: nat): (r: u32)
    ensures v < U32_LIMIT ==> r == v
  {
    v % U32_LIMIT
  }

  /** The value of a flag taking an unsigned count, as written:
      `std::stoul`, then a cast to 32 bits, with 0 refused when
      `rejectZero`. The cast keeps the value modulo 2^32. */
  function CountValueAsWritten(flag: string, value: string, rejectZero: bool): (r: Result<u32>)
    ensures r.Ok? ==> Stoul(value).Converted? && r.value == TruncateU32(Stoul(value).value)
    ensures r.Ok? && rejectZero ==> r.value != 0
    ensures Stoul(value).Converted? && !(rejectZero && TruncateU32(Stoul(value).value) == 0) ==> r.Ok?
  {
    match Stoul(value)
    case Failed(InvalidArgument) => Err(flag + " requires a valid positive integer value")
    case Failed(OutOfRange) => Err(flag + " value is out of range for a positive integer")
    case Converted(v) =>
      if rejectZero && TruncateU32(v) == 0 then Err(flag + " requires a positive integer value")
      else Ok(TruncateU32(v))
  }

  /** As written, 4294967297 passes as a width of 1 and 4294967296 as a
      frame limit of 0: a count that does not fit 32 bits is not reported as
      out of range. */
  lemma AsWrittenCountWraps()
    ensures CountValueAsWritten("--ffmpeg-width", Decimal(U32_LIMIT + 1), true) == Ok(1)
    ensures CountValueAsWritten("--frames", Decimal(U32_LIMIT), false) == Ok(0)
  {
    StoulDecimal(U32_LIMIT + 1);
    StoulDecimal(U32_LIMIT);
  }

  /** The value of a flag taking an unsigned count, with a converted value
      that does not fit 32 bits reported as out of range like one that does
      not fit 64. The value is then exactly the number given. */
  function CountValue(flag: string, value: string, rejectZero: bool): (r: Result<u32>)
    ensures r.Ok? <==> Stoul(value).Converted? && Stoul(value).value < U32_LIMIT
                       && !(rejectZero && Stoul(value).value == 0)
    ensures r.Ok? ==> r.value == Stoul(value).value
    ensures Stoul(value).Converted? && Stoul(value).value >= U32_LIMIT ==>
              r == Err(flag + " value is out of range for a positive integer")
  {
    match Stoul(value)
    case Failed(InvalidArgument) => Err(flag + " requires a valid positive integer value")
    case Failed(OutOfRange) => Err(flag + " value is out of range for a positive integer")
    case Converted(v) =>
      if v >= U32_LIMIT then Err(flag + " value is out of range for a positive integer")
      else if rejectZero && v == 0 then Err(flag + " requires a positive integer value")
      else Ok(v as u32)
  }

  /** The corrected conversion differs from the one as written only on
      counts that do not fit 32 bits. */
  lemma CountValueAgrees(flag: string, value: string, rejectZero: bool)
    requires !(Stoul(value).Converted? && Stoul(value).value >= U32_LIMIT)
    ensures CountValue(flag, value, rejectZero) == CountValueAsWritten(flag, value, rejectZero)
  {
  }

  /** Every 32-bit count given in decimal is taken as itself. */
  lemma CountRoundTrip(flag: string, n: u32)
    ensures CountValue(flag, Decimal(n), false) == Ok(n)
  {
    StoulDecimal(n);
  }

  /** How the argument loop turns a count flag's value into a `uint32_t`:
      truncating, as `run` does, or range-checked, as intended. */
  datatype CountConversion = Truncating | RangeChecked

  function Count(conv: CountConversion, flag: string, value: string, rejectZero: bool): Result<u32> {
    match conv
    case Truncating => CountValueAsWritten(flag, value, rejectZero)
    case RangeChecked => CountValue(flag, value, rejectZero)
  }

  /** Everything `run` collects from the arguments. */
  datatype Options = Options(
    useToyTemplate: bool,
    maxFrames: Option<u32>,
    headless: bool,
    noFocus: bool,
    debugDumpPPMDir: Option<string>,
    ciResizeAfter: Option<u32>,
    ciResizeWidth: Option<u32>,
    ciResizeHeight: Option<u32>,
    ringSize: u32,
    width: u32,
    height: u32,
    encode: FfmpegEncoder.EncodeSettings,
    logLevel: LogLevel,
    shaderFile: string,
    createNewToy: bool,
    newToyName: string,
    templateName: string)

  /** The values before the loop. */
  const DefaultOptions := Options(
    false, None, false, false, None, None, None, None,
    RingSlots.OFFSCREEN_DEFAULT_RING_SIZE, RingSlots.OFFSCREEN_DEFAULT_WIDTH, RingSlots.OFFSCREEN_DEFAULT_HEIGHT,
    FfmpegEncoder.DefaultSettings, Info, "", false, "", "default")

  /** The flags that take the next argument as their value. */
  const VALUE_FLAGS: set<string> := {
    "--template", "--frames", "--log-level", "--debug-dump-ppm",
    "--ffmpeg-width", "--ffmpeg-height", "--ffmpeg-ring-buffer-size", "--ffmpeg-output",
    "--ffmpeg-fps", "--ffmpeg-codec", "--ffmpeg-crf", "--ffmpeg-preset",
    "--ci-resize-after", "--ci-resize-width", "--ci-resize-height"}

  /** The flags that stand alone. */
  const SWITCHES: set<string> := {"--help", "--version", "--new-toy", "--toy", "--no-focus", "--headless"}

  /** The error when a value flag is the last argument. */
  function MissingValue(flag: string): (msg: string)
    requires flag in VALUE_FLAGS
  {
    if flag == "--template" then "--template requires a template name (default, plot)"
    else if flag == "--log-level" then "--log-level requires a value (trace|debug|info|warn|error|critical|off)"
    else if flag == "--debug-dump-ppm" then "--debug-dump-ppm requires a directory path"
    else if flag == "--ffmpeg-output" then "--ffmpeg-output requires a file path"
    else if flag == "--ffmpeg-codec" then "--ffmpeg-codec requires a codec name"
    else if flag == "--ffmpeg-crf" then "--ffmpeg-crf requires an integer value"
    else if flag == "--ffmpeg-preset" then "--ffmpeg-preset requires a value"
    else flag + " requires a positive integer value"
  }

  /** Storing the value of a value flag, with counts converted by `conv`. */
  function ApplyValue(flag: string, value: string, o: Options, conv: CountConversion): (r: Result<Options>)
    requires flag in VALUE_FLAGS
    ensures r.Ok? && flag == "--ffmpeg-fps" ==> r.value.encode.fps > 0
    ensures r.Ok? && flag == "--ffmpeg-width" ==> r.value.width > 0
    ensures r.Ok? && flag == "--ffmpeg-height" ==> r.value.height > 0
    ensures r.Ok? && flag == "--ffmpeg-ring-buffer-size" ==> r.value.ringSize > 0
  {
    if flag == "--template" then Ok(o.(templateName := value))
    else if flag == "--frames" then
      var n :- Count(conv, flag, value, false); Ok(o.(maxFrames := Some(n)))
    else if flag == "--log-level" then
      var l :- ParseLogLevel(value); Ok(o.(logLevel := l))
    else if flag == "--debug-dump-ppm" then Ok(o.(debugDumpPPMDir := Some(value)))
    else if flag == "--ffmpeg-width" then
      var n :- Count(conv, flag, value, true); Ok(o.(width := n))
    else if flag == "--ffmpeg-height" then
      var n :- Count(conv, flag, value, true); Ok(o.(height := n))
    else if flag == "--ffmpeg-ring-buffer-size" then
      var n :- Count(conv, flag, value, true); Ok(o.(ringSize := n))
    else if flag == "--ffmpeg-output" then Ok(o.(encode := o.encode.(outputPath := value)))
    else if flag == "--ffmpeg-fps" then
      match Stoi(value)
      case Failed(_) => Err("--ffmpeg-fps requires a valid integer value")
      case Converted(v) =>
        if v <= 0 then Err("--ffmpeg-fps requires a positive integer value")
        else Ok(o.(encode := o.encode.(fps := v)))
    else if flag == "--ffmpeg-codec" then Ok(o.(encode := o.encode.(codec := value)))
    else if flag == "--ffmpeg-crf" then
      match Stoi(value)
      case Failed(_) => Err("--ffmpeg-crf requires a valid integer value")
      case Converted(v) => Ok(o.(encode := o.encode.(crf := v)))
    else if flag == "--ffmpeg-preset" then Ok(o.(encode := o.encode.(preset := value)))
    else if flag == "--ci-resize-after" then
      var n :- Count(conv, flag, value, false); Ok(o.(ciResizeAfter := Some(n)))
    else if flag == "--ci-resize-width" then
      var n :- Count(conv, flag, value, true); Ok(o.(ciResizeWidth := Some(n)))
    else
      var n :- Count(conv, flag, value, true); Ok(o.(ciResizeHeight := Some(n)))
  }

  /** How the loop ends: help or version asked for, or options collected. */
  datatype Parse = ShowHelp | ShowVersion | Collected(options: Options)

  /** True when `--new-toy` takes `next` as the toy's name: it does unless
      it starts with '-'. */
  predicate NamesToy(next: string) {
    next == [] || next[0] != '-'
  }

  /** The loop of `run` over the arguments after the program name, with
      counts converted by `conv`. */
  function ParseArgs(args: seq<string>, o: Options, conv: CountConversion): (r: Result<Parse>)
    decreases |args|
  {
    if args == [] then Ok(Collected(o))
    else
      var arg, rest := args[0], args[1..];
      if arg == "--help" then Ok(ShowHelp)
      else if arg == "--version" then Ok(ShowVersion)
      else if arg == "--new-toy" then
        if rest != [] && NamesToy(rest[0]) then ParseArgs(rest[1..], o.(createNewToy := true, newToyName := rest[0]), conv)
        else ParseArgs(rest, o.(createNewToy := true), conv)
      else if arg == "--toy" then ParseArgs(rest, o.(useToyTemplate := true), conv)
      else if arg == "--no-focus" then ParseArgs(rest, o.(noFocus := true), conv)
      else if arg == "--headless" then ParseArgs(rest, o.(headless := true), conv)
      else if arg in VALUE_FLAGS then
        if rest == [] then Err(MissingValue(arg))
        else
          var updated :- ApplyValue(arg, rest[0], o, conv);
          ParseArgs(rest[1..], updated, conv)
      else if !StartsWith(arg, "--") then
        ParseArgs(rest, if o.shaderFile == "" then o.(shaderFile := arg) else o, conv)
      else Err("Unknown flag: " + arg)
  }

  /** `run`'s argument handling: at least one argument is required, and
      counts are truncated to 32 bits. */
  function ParseCommandLine(args: seq<string>): (r: Result<Parse>)
    ensures args == [] ==> r == Err("No shader file provided.")
  {
    if args == [] then Err("No shader file provided.") else ParseArgs(args, DefaultOptions, Truncating)
  }

  /** A width given in decimal that does not fit 32 bits: as written the
      loop keeps it modulo 2^32, refusing only a remainder of 0; range
      checked, it is refused as out of range. */
  lemma WideWidthOnCommandLine(n: nat, o: Options)
    requires U32_LIMIT <= n < ULONG_LIMIT
    ensures n % U32_LIMIT != 0 ==>
              ParseArgs(["--ffmpeg-width", Decimal(n)], o, Truncating) == Ok(Collected(o.(width := n % U32_LIMIT)))
    ensures n % U32_LIMIT == 0 ==>
              ParseArgs(["--ffmpeg-width", Decimal(n)], o, Truncating)
              == Err("--ffmpeg-width" + " requires a positive integer value")
    ensures ParseArgs(["--ffmpeg-width", Decimal(n)], o, RangeChecked)
            == Err("--ffmpeg-width" + " value is out of range for a positive integer")
  {
    var v := Decimal(n);
    WideWidthValue(n, o);
    ValueFlagConsumesNext("--ffmpeg-width", v, [], o, Truncating);
    ValueFlagConsumesNext("--ffmpeg-width", v, [], o, RangeChecked);
    assert ["--ffmpeg-width", v] + [] == ["--ffmpeg-width", v];
  }

  lemma WideWidthValue(n: nat, o: Options)
    requires U32_LIMIT <= n < ULONG_LIMIT
    ensures n % U32_LIMIT != 0 ==>
              ApplyValue("--ffmpeg-width", Decimal(n), o, Truncating) == Ok(o.(width := n % U32_LIMIT))
    ensures n % U32_LIMIT == 0 ==>
              ApplyValue("--ffmpeg-width", Decimal(n), o, Truncating)
              == Err("--ffmpeg-width" + " requires a positive integer value")
    ensures ApplyValue("--ffmpeg-width", Decimal(n), o, RangeChecked)
            == Err("--ffmpeg-width" + " value is out of range for a positive integer")
  {
    var flag, v := "--ffmpeg-width", Decimal(n);
    StoulDecimal(n);
    var t := TruncateU32(n);
    assert t == n % U32_LIMIT;
    var wrapped := Count(Truncating, flag, v, true);
    assert wrapped == if t == 0 then Err(flag + " requires a positive integer value") else Ok(t);
    var checked := Count(RangeChecked, flag, v, true);
    assert checked == Err(flag + " value is out of range for a positive integer");
    assert ApplyValue(flag, v, o, RangeChecked) == Err(checked.error);
    if t == 0 {
      assert ApplyValue(flag, v, o, Truncating) == Err(wrapped.error);
    } else {
      assert ApplyValue(flag, v, o, Truncating) == Ok(o.(width := wrapped.value));
    }
  }

  /** A value flag given last is an error naming what it needs. */
  lemma MissingValueRejected(flag: string, o: Options, conv: CountConversion)
    requires flag in VALUE_FLAGS
    ensures ParseArgs([flag], o, conv) == Err(MissingValue(flag))
  {
    assert flag !in SWITCHES;
  }

  /** A value flag takes the next argument, whatever it looks like, and the
      loop goes on after it. */
  lemma ValueFlagConsumesNext(flag: string, value: string, rest: seq<string>, o: Options, conv: CountConversion)
    requires flag in VALUE_FLAGS
    ensures ApplyValue(flag, value, o, conv).Err? ==>
              ParseArgs([flag, value] + rest, o, conv) == Err(ApplyValue(flag, value, o, conv).error)
    ensures ApplyValue(flag, value, o, conv).Ok? ==>
              ParseArgs([flag, value] + rest, o, conv) == ParseArgs(rest, ApplyValue(flag, value, o, conv).value, conv)
  {
    var args := [flag, value] + rest;
    assert args[0] == flag && args[1..][0] == value && args[1..][1..] == rest;
    assert flag !in SWITCHES;
  }

  /** `--ffmpeg-width`, `--ffmpeg-height` and `--ffmpeg-ring-buffer-size`
      refuse 0. */
  lemma ZeroSizesRejected(flag: string, value: string, o: Options, conv: CountConversion)
    requires flag in {"--ffmpeg-width", "--ffmpeg-height", "--ffmpeg-ring-buffer-size"}
    requires Stoul(value) == Converted(0)
    ensures ApplyValue(flag, value, o, conv) == Err(flag + " requires a positive integer value")
  {
    if flag == "--ffmpeg-width" {
    } else if flag == "--ffmpeg-height" {
    } else {
    }
  }

  /** `--ffmpeg-fps` refuses a value that is not positive. */
  lemma NonPositiveFpsRejected(value: string, o: Options, conv: CountConversion)
    requires Stoi(value).Converted? && Stoi(value).value <= 0
    ensures ApplyValue("--ffmpeg-fps", value, o, conv) == Err("--ffmpeg-fps requires a positive integer value")
  {
  }

  /** `--new-toy` takes the next argument as the name unless it starts
      with '-', in which case that argument is parsed on its own. */
  lemma NewToyName(next: string, rest: seq<string>, o: Options, conv: CountConversion)
    ensures var args := ["--new-toy", next] + rest;
            ParseArgs(args, o, conv)
            == if NamesToy(next) then ParseArgs(rest, o.(createNewToy := true, newToyName := next), conv)
               else ParseArgs([next] + rest, o.(createNewToy := true), conv)
  {
    var args := ["--new-toy", next] + rest;
    assert args[1..] == [next] + rest;
    assert args[1..][1..] == rest;
  }

  /** An argument not starting with "--" names the shader if none is named
      yet, and is ignored otherwise. */
  lemma ShaderFileIsFirstPlainArgument(arg: string, rest: seq<string>, o: Options, conv: CountConversion)
    requires !StartsWith(arg, "--")
    ensures ParseArgs([arg] + rest, o, conv)
            == ParseArgs(rest, if o.shaderFile == "" then o.(shaderFile := arg) else o, conv)
  {
    assert arg !in VALUE_FLAGS && arg !in SWITCHES;
    assert ([arg] + rest)[1..] == rest;
  }

  /** Any other argument starting with "--" stops the loop with an error. */
  lemma UnknownFlagRejected(arg: string, rest: seq<string>, o: Options, conv: CountConversion)
    requires StartsWith(arg, "--") && arg !in VALUE_FLAGS && arg !in SWITCHES
    ensures ParseArgs([arg] + rest, o, conv) == Err("Unknown flag: " + arg)
  {
  }

  // ----- command lines built from settings -----

  /** How `operator<<` prints a signed integer. */
  function SignedDecimal(v: int): (s: string)
    ensures 0 < |s|
  {
    if v < 0 then "-" + Decimal(-v) else Decimal(v)
  }

  /** A run of digits from `i` to the end is read to the end. */
  lemma {:induction false} DigitsEndFrom(s: string, i: nat)
    requires i <= |s| && AllDigits(s[i..])
    ensures DigitsEnd(s, i) == |s|
    decreases |s| - i
  {
    if i < |s| {
      assert s[i] == s[i..][0];
      assert s[i + 1..] == s[i..][1..];
      DigitsEndFrom(s, i + 1);
    }
  }

  /** A 32-bit signed value printed in decimal converts back to itself. */
  lemma StoiSigned(v: int)
    requires INT_MIN <= v <= INT_MAX
    ensures Stoi(SignedDecimal(v)) == Converted(v)
  {
    var s := SignedDecimal(v);
    if v < 0 {
      var d := Decimal(-v);
      assert s[0] == '-' && !IsSpace(s[0]);
      assert s[1..] == d;
      DigitsEndFrom(s, 1);
      assert s[1..|s|] == d;
    } else {
      assert !IsSpace(s[0]) && s[0] != '-' && s[0] != '+';
      DigitsEndAll(s, 0);
      assert s[0..|s|] == s;
    }
  }

  /** A count printed in decimal is taken as itself by either conversion,
      unless it is a 0 that the flag refuses. */
  lemma CountDecimal(conv: CountConversion, flag: string, n: u32, rejectZero: bool)
    requires !(rejectZero && n == 0)
    ensures Count(conv, flag, Decimal(n), rejectZero) == Ok(n)
  {
    StoulDecimal(n);
  }

  /** One setting a command line can make. */
  datatype Setting =
    | Template(templateName: string)
    | Frames(frames: u32)
    | Level(level: LogLevel)
    | DumpDir(dumpDir: string)
    | Width(width: u32)
    | Height(height: u32)
    | RingSize(ringSize: u32)
    | Output(outputPath: string)
    | Fps(fps: int)
    | Codec(codec: string)
    | Crf(crf: int)
    | Preset(preset: string)
    | ResizeAfter(resizeAfter: u32)
    | ResizeWidth(resizeWidth: u32)
    | ResizeHeight(resizeHeight: u32)
    | Toy
    | NoFocus
    | Headless
    | NewToy(toyName: string)
    | Shader(shaderFile: string)

  /** The settings the flags can express: sizes and the frame rate
      positive, integers within `int`, a toy name not starting with '-' and
      a shader file not starting with "--". */
  predicate Expressible(s: Setting) {
    match s
    case Width(n) => n > 0
    case Height(n) => n > 0
    case RingSize(n) => n > 0
    case ResizeWidth(n) => n > 0
    case ResizeHeight(n) => n > 0
    case Fps(v) => 0 < v <= INT_MAX
    case Crf(v) => INT_MIN <= v <= INT_MAX
    case NewToy(name) => NamesToy(name)
    case Shader(file) => !StartsWith(file, "--")
    case _ => true
  }

  /** The arguments that make a setting. */
  function Arguments(s: Setting): (args: seq<string>)
    ensures 0 < |args|
  {
    match s
    case Template(name) => ["--template", name]
    case Frames(n) => ["--frames", Decimal(n)]
    case Level(l) => ["--log-level", LevelName(l)]
    case DumpDir(dir) => ["--debug-dump-ppm", dir]
    case Width(n) => ["--ffmpeg-width", Decimal(n)]
    case Height(n) => ["--ffmpeg-height", Decimal(n)]
    case RingSize(n) => ["--ffmpeg-ring-buffer-size", Decimal(n)]
    case Output(path) => ["--ffmpeg-output", path]
    case Fps(v) => ["--ffmpeg-fps", SignedDecimal(v)]
    case Codec(codec) => ["--ffmpeg-codec", codec]
    case Crf(v) => ["--ffmpeg-crf", SignedDecimal(v)]
    case Preset(preset) => ["--ffmpeg-preset", preset]
    case ResizeAfter(n) => ["--ci-resize-after", Decimal(n)]
    case ResizeWidth(n) => ["--ci-resize-width", Decimal(n)]
    case ResizeHeight(n) => ["--ci-resize-height", Decimal(n)]
    case Toy => ["--toy"]
    case NoFocus => ["--no-focus"]
    case Headless => ["--headless"]
    case NewToy(name) => ["--new-toy", name]
    case Shader(file) => [file]
  }

  /** The options a setting stands for, assigned directly. Only the first
      shader file named is kept. */
  function Apply(o: Options, s: Setting): Options {
    match s
    case Template(name) => o.(templateName := name)
    case Frames(n) => o.(maxFrames := Some(n))
    case Level(l) => o.(logLevel := l)
    case DumpDir(dir) => o.(debugDumpPPMDir := Some(dir))
    case Width(n) => o.(width := n)
    case Height(n) => o.(height := n)
    case RingSize(n) => o.(ringSize := n)
    case Output(path) => o.(encode := o.encode.(outputPath := path))
    case Fps(v) => o.(encode := o.encode.(fps := v))
    case Codec(codec) => o.(encode := o.encode.(codec := codec))
    case Crf(v) => o.(encode := o.encode.(crf := v))
    case Preset(preset) => o.(encode := o.encode.(preset := preset))
    case ResizeAfter(n) => o.(ciResizeAfter := Some(n))
    case ResizeWidth(n) => o.(ciResizeWidth := Some(n))
    case ResizeHeight(n) => o.(ciResizeHeight := Some(n))
    case Toy => o.(useToyTemplate := true)
    case NoFocus => o.(noFocus := true)
    case Headless => o.(headless := true)
    case NewToy(name) => o.(createNewToy := true, newToyName := name)
    case Shader(file) => if o.shaderFile == "" then o.(shaderFile := file) else o
  }

  /** The command line for a list of settings, in order. */
  function CommandLine(ss: seq<Setting>): (args: seq<string>)
    ensures ss != [] ==> args != []
  {
    if ss == [] then [] else Arguments(ss[0]) + CommandLine(ss[1..])
  }

  function ApplyAll(o: Options, ss: seq<Setting>): Options
    decreases |ss|
  {
    if ss == [] then o else ApplyAll(Apply(o, ss[0]), ss[1..])
  }

  /** A value flag's setting is stored as the setting says. */
  lemma ValueRoundTrip(s: Setting, o: Options, conv: CountConversion)
    requires Expressible(s) && |Arguments(s)| == 2 && !s.NewToy?
    ensures Arguments(s)[0] in VALUE_FLAGS
    ensures ApplyValue(Arguments(s)[0], Arguments(s)[1], o, conv) == Ok(Apply(o, s))
  {
    if s.Frames? || s.Width? || s.Height? || s.RingSize? || s.ResizeAfter? || s.ResizeWidth? || s.ResizeHeight? {
      CountRoundTripIn(s, o, conv);
    } else if s.Fps? || s.Crf? {
      StoiSigned(if s.Fps? then s.fps else s.crf);
    } else if s.Level? {
      ToLowerKeeps(LevelName(s.level));
      LogLevelRoundTrip(s.level, LevelName(s.level));
    }
  }

  lemma CountRoundTripIn(s: Setting, o: Options, conv: CountConversion)
    requires s.Frames? || s.Width? || s.Height? || s.RingSize? || s.ResizeAfter? || s.ResizeWidth? || s.ResizeHeight?
    requires Expressible(s)
    ensures Arguments(s)[0] in VALUE_FLAGS
    ensures ApplyValue(Arguments(s)[0], Arguments(s)[1], o, conv) == Ok(Apply(o, s))
  {
    var flag := Arguments(s)[0];
    match s
    case Frames(n) => CountDecimal(conv, flag, n, false);
    case Width(n) => CountDecimal(conv, flag, n, true);
    case Height(n) => CountDecimal(conv, flag, n, true);
    case RingSize(n) => CountDecimal(conv, flag, n, true);
    case ResizeAfter(n) => CountDecimal(conv, flag, n, false);
    case ResizeWidth(n) => CountDecimal(conv, flag, n, true);
    case ResizeHeight(n) => CountDecimal(conv, flag, n, true);
  }

  /** A stand-alone argument other than `--help` and `--version` is taken
      on its own, and the loop goes on after it. */
  lemma SwitchRoundTrip(s: Setting, rest: seq<string>, o: Options, conv: CountConversion)
    requires Expressible(s) && |Arguments(s)| == 1
    ensures ParseArgs(Arguments(s) + rest, o, conv) == ParseArgs(rest, Apply(o, s), conv)
  {
    var args := Arguments(s) + rest;
    assert args[0] == Arguments(s)[0] && args[1..] == rest;
    if s.Shader? {
      ShaderFileIsFirstPlainArgument(s.shaderFile, rest, o, conv);
    }
  }

  /** The arguments of one setting are parsed into that setting, and the
      loop goes on after them. */
  lemma SettingRoundTrip(s: Setting, rest: seq<string>, o: Options, conv: CountConversion)
    requires Expressible(s)
    ensures ParseArgs(Arguments(s) + rest, o, conv) == ParseArgs(rest, Apply(o, s), conv)
  {
    if |Arguments(s)| == 1 {
      SwitchRoundTrip(s, rest, o, conv);
    } else if s.NewToy? {
      NewToyName(s.toyName, rest, o, conv);
    } else {
      ValueRoundTrip(s, o, conv);
      ValueFlagConsumesNext(Arguments(s)[0], Arguments(s)[1], rest, o, conv);
      assert Arguments(s) == [Arguments(s)[0], Arguments(s)[1]];
    }
  }

  /** The command line printed from any expressible settings parses back to
      exactly those settings applied in order, whichever count conversion
      the loop uses. */
  lemma {:induction false} CommandLineRoundTrip(ss: seq<Setting>, o: Options, conv: CountConversion)
    requires forall i :: 0 <= i < |ss| ==> Expressible(ss[i])
    ensures ParseArgs(CommandLine(ss), o, conv) == Ok(Collected(ApplyAll(o, ss)))
    decreases |ss|
  {
    if ss != [] {
      SettingRoundTrip(ss[0], CommandLine(ss[1..]), o, conv);
      CommandLineRoundTrip(ss[1..], Apply(o, ss[0]), conv);
    }
  }

  /** `run` collects from such a command line the defaults with the
      settings applied in order. */
  lemma ParseCommandLineRoundTrip(ss: seq<Setting>)
    requires ss != []
    requires forall i :: 0 <= i < |ss| ==> Expressible(ss[i])
    ensures ParseCommandLine(CommandLine(ss)) == Ok(Collected(ApplyAll(DefaultOptions, ss)))
  {
    CommandLineRoundTrip(ss, DefaultOptions, Truncating);
  }

  // ----- after the loop -----

  datatype ToyTemplate = DefaultTemplate | PlotTemplate

  /** "plot" selects the plot template; any other name the default one. */
  function TemplateFor(name: string): (t: ToyTemplate)
    ensures t == PlotTemplate <==> name == "plot"
  {
    if name == "plot" then PlotTemplate else DefaultTemplate
  }

  /** The file name `createNewToyShader` writes: "my_new_toy_N.frag" for the
      random `n` when no name is given, else the name with ".frag" appended
      unless that is already its extension. */
  function NewToyPath(name: string, n: nat): (p: string)
    requires 10000 <= n <= 99999
    ensures name != "" && Paths.Extension(name) == ".frag" ==> p == name
    ensures name != "" && Paths.Extension(name) != ".frag" ==> p == name + ".frag"
  {
    if name == "" then "my_new_toy_" + Decimal(n) + ".frag"
    else if Paths.Extension(name) != ".frag" then name + ".frag"
    else name
  }

  /** The new toy's file always has the ".frag" extension, provided a given
      name does not end in a separator. */
  lemma NewToyPathIsFrag(name: string, n: nat)
    requires 10000 <= n <= 99999
    requires name != "" ==> Paths.Filename(name) != ""
    ensures Paths.Extension(NewToyPath(name, n)) == ".frag"
  {
    assert Paths.SimpleExtension(".frag");
    if name == "" {
      var q := "my_new_toy_" + Decimal(n);
      assert forall i :: 0 <= i < |q| ==> q[i] != '/' by {
        forall i | 0 <= i < |q| ensures q[i] != '/' {
          if i >= 11 {
            assert q[i] == Decimal(n)[i - 11];
            assert IsDigit(Decimal(n)[i - 11]);
          }
        }
      }
      assert Paths.Filename(q) == q;
      assert q != "";
      Paths.ExtensionOfAppended(q, ".frag");
    } else if Paths.Extension(name) != ".frag" {
      Paths.ExtensionOfAppended(name, ".frag");
    }
  }

  /** What `run` goes on to do after the loop. */
  datatype Command =
    | CreateToy(path: string, template: ToyTemplate)
    | RenderOffline(options: Options)
    | RenderOnline(options: Options)

  /** The checks after the loop: a new toy is written unless its file
      exists; otherwise the shader must exist and be a ".frag" file, and
      offline encoding needs a frame count. `fileExists` answers whether a path
      names an existing file. */
  function Decide(o: Options, fileExists: string -> bool, n: nat): (r: Result<Command>)
    requires 10000 <= n <= 99999
    ensures r.Ok? && r.value.RenderOffline? ==> o.encode.outputPath != [] && o.maxFrames.Some?
    ensures r.Ok? && !o.createNewToy ==> fileExists(o.shaderFile) && Paths.Extension(o.shaderFile) == ".frag"
    ensures !o.createNewToy && fileExists(o.shaderFile) && Paths.Extension(o.shaderFile) == ".frag"
            && o.encode.outputPath != [] && o.maxFrames.None? ==>
              r == Err("--frames must be set when using --ffmpeg-output")
    ensures r.Ok? && r.value.RenderOnline? ==> o.encode.outputPath == []
  {
    if o.createNewToy then
      var path := NewToyPath(o.newToyName, n);
      if fileExists(path) then Err("File already exists: " + path)
      else Ok(CreateToy(path, TemplateFor(o.templateName)))
    else if !fileExists(o.shaderFile) then Err("Shader file does not exist: " + o.shaderFile)
    else if Paths.Extension(o.shaderFile) != ".frag" then Err("Shader file is not a .frag file: " + o.shaderFile)
    else if o.encode.outputPath != [] && o.maxFrames.None? then Err("--frames must be set when using --ffmpeg-output")
    else if o.encode.outputPath != [] then Ok(RenderOffline(o))
    else Ok(RenderOnline(o))
  }

  /** `Decide` on options naming a ".frag" shader that exists, without
      `--new-toy`. */
  lemma DecideOnShader(o: Options, fileExists: string -> bool, n: nat)
    requires 10000 <= n <= 99999
    requires !o.createNewToy && fileExists(o.shaderFile) && Paths.Extension(o.shaderFile) == ".frag"
    ensures Decide(o, fileExists, n)
            == if o.encode.outputPath == [] then Ok(RenderOnline(o))
               else if o.maxFrames.None? then Err("--frames must be set when using --ffmpeg-output")
               else Ok(RenderOffline(o))
  {
  }

  /** A command line of one setting collects it. */
  lemma ParsesOne(a: Setting)
    requires Expressible(a)
    ensures ParseCommandLine(CommandLine([a])) == Ok(Collected(Apply(DefaultOptions, a)))
  {
    ParseCommandLineRoundTrip([a]);
    assert [a][1..] == [];
  }

  /** A command line of two settings collects them in order. */
  lemma ParsesTwo(a: Setting, b: Setting)
    requires Expressible(a) && Expressible(b)
    ensures ParseCommandLine(CommandLine([a, b])) == Ok(Collected(Apply(Apply(DefaultOptions, a), b)))
  {
    var ss := [a, b];
    ParseCommandLineRoundTrip(ss);
    assert ss[1..] == [b] && [b][1..] == [];
    assert ApplyAll(DefaultOptions, ss) == ApplyAll(Apply(DefaultOptions, a), [b]) == Apply(Apply(DefaultOptions, a), b);
  }

  /** A command line of three settings collects them in order. */
  lemma ParsesThree(a: Setting, b: Setting, c: Setting)
    requires Expressible(a) && Expressible(b) && Expressible(c)
    ensures ParseCommandLine(CommandLine([a, b, c])) == Ok(Collected(Apply(Apply(Apply(DefaultOptions, a), b), c)))
  {
    var ss := [a, b, c];
    ParseCommandLineRoundTrip(ss);
    var o1 := Apply(DefaultOptions, a);
    assert ss[1..] == [b, c] && [b, c][1..] == [c] && [c][1..] == [];
    assert ApplyAll(DefaultOptions, ss) == ApplyAll(o1, [b, c]) == ApplyAll(Apply(o1, b), [c]);
  }

  /** A ".frag" shader that exists, named alone on the command line, is
      rendered on screen with the default options. */
  lemma ShaderAloneRendersOnline(file: string, fileExists: string -> bool, n: nat)
    requires 10000 <= n <= 99999
    requires !StartsWith(file, "--") && fileExists(file) && Paths.Extension(file) == ".frag"
    ensures ParseCommandLine(CommandLine([Shader(file)])) == Ok(Collected(DefaultOptions.(shaderFile := file)))
    ensures Decide(DefaultOptions.(shaderFile := file), fileExists, n) == Ok(RenderOnline(DefaultOptions.(shaderFile := file)))
  {
    ParsesOne(Shader(file));
    assert Apply(DefaultOptions, Shader(file)) == DefaultOptions.(shaderFile := file);
    DecideOnShader(DefaultOptions.(shaderFile := file), fileExists, n);
  }

  /** With an output file and a frame count the shader is rendered offline,
      with that file and that count. */
  lemma OutputAndFramesRenderOffline(file: string, out: string, k: u32, fileExists: string -> bool, n: nat)
    requires 10000 <= n <= 99999
    requires !StartsWith(file, "--") && fileExists(file) && Paths.Extension(file) == ".frag" && out != []
    ensures var o := DefaultOptions.(shaderFile := file, encode := DefaultOptions.encode.(outputPath := out), maxFrames := Some(k));
            ParseCommandLine(CommandLine([Shader(file), Output(out), Frames(k)])) == Ok(Collected(o))
            && Decide(o, fileExists, n) == Ok(RenderOffline(o))
  {
    ParsesThree(Shader(file), Output(out), Frames(k));
    var o := DefaultOptions.(shaderFile := file, encode := DefaultOptions.encode.(outputPath := out), maxFrames := Some(k));
    assert Apply(Apply(Apply(DefaultOptions, Shader(file)), Output(out)), Frames(k)) == o;
    DecideOnShader(o, fileExists, n);
  }

  /** An output file without a frame count is refused. */
  lemma OutputWithoutFramesRefused(file: string, out: string, fileExists: string -> bool, n: nat)
    requires 10000 <= n <= 99999
    requires !StartsWith(file, "--") && fileExists(file) && Paths.Extension(file) == ".frag" && out != []
    ensures var o := DefaultOptions.(shaderFile := file, encode := DefaultOptions.encode.(outputPath := out));
            ParseCommandLine(CommandLine([Shader(file), Output(out)])) == Ok(Collected(o))
            && Decide(o, fileExists, n) == Err("--frames must be set when using --ffmpeg-output")
  {
    ParsesTwo(Shader(file), Output(out));
    var o := DefaultOptions.(shaderFile := file, encode := DefaultOptions.encode.(outputPath := out));
    assert Apply(Apply(DefaultOptions, Shader(file)), Output(out)) == o;
    DecideOnShader(o, fileExists, n);
  }

  /** `--new-toy` writes the toy's file from the default template unless
      that file exists. */
  lemma NewToyCreatesFile(name: string, fileExists: string -> bool, n: nat)
    requires 10000 <= n <= 99999 && NamesToy(name)
    ensures var p := ParseCommandLine(CommandLine([NewToy(name)]));
            var path := NewToyPath(name, n);
            p.Ok? && p.value.Collected?
            && Decide(p.value.options, fileExists, n)
               == if fileExists(path) then Err("File already exists: " + path) else Ok(CreateToy(path, DefaultTemplate))
  {
    ParseCommandLineRoundTrip([NewToy(name)]);
    var o := ApplyAll(DefaultOptions, [NewToy(name)]);
    assert o.createNewToy && o.newToyName == name && o.templateName == "default";
  }
}
