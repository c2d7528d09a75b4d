/**
 * The argument parser of dvdnav.c: `parse_options` walks argv from index 1,
 * handing each option letter (short, bundled, or mapped from a long name)
 * or each plain argument to the handler `parse_option`, which records the
 * device path in the options record.
 *
 * Result codes: 1 means parsing finished and the report should run; 0 means
 * an option asked for an immediate successful exit (`-h`, `-s`); -1, -2 and
 * -3 are the three usage errors.
 */
module CommandLine {
  import opened Wrappers

  /** One row of the `s_opt_long` table: a long name and the short letter it stands for. */
  datatype LongOption = LongOption(short: char, name: string)

  /** The `s_opt_long` table, in table order. */
  const LONG_OPTIONS: seq<LongOption> := [LongOption('s', "source"), LongOption('h', "help")]

  /** The letter of the first table row at or after `k` whose name is `name`. */
  function LongFrom(name: string, k: nat): Option<char>
    decreases |LONG_OPTIONS| - k
  {
    if k >= |LONG_OPTIONS| then None
    else if LONG_OPTIONS[k].name == name then Some(LONG_OPTIONS[k].short)
    else LongFrom(name, k + 1)
  }

  /** Long option name to short letter; None for a name not in the table. */
  function LongToShort(name: string): Option<char> {
    LongFrom(name, 0)
  }

  /** `--source` and `--help` are the only long options. */
  lemma LongToShortTable(name: string)
    ensures LongToShort(name) == if name == "source" then Some('s')
                                 else if name == "help" then Some('h')
                                 else None
  {
  }

  /** What one call of the handler returns, and the device path it leaves behind. */
  datatype Step = Step(code: int, devpath: Option<string>)

  /**
   * `parse_option`: `h` and `s` print and ask for an exit (0); `-` stands
   * for a plain argument, which becomes the device path unless one is
   * already set (-1); any other letter is unknown (-1).
   */
  function OptionEffect(opt: char, arg: Option<string>, devpath: Option<string>): Step {
    match opt
    case 'h' => Step(0, devpath)
    case 's' => Step(0, devpath)
    case '-' => if devpath.Some? then Step(-1, devpath) else Step(1, arg)
    case _ => Step(-1, devpath)
  }

  /**
   * The inner loop of `parse_options` over the letters of one option
   * argument: the first letter that fails gives -1, the first that asks
   * for an exit gives 0, and 1 means every letter was accepted.
   */
  function BundleEffect(letters: string, next: Option<string>, devpath: Option<string>): Step
    decreases |letters|
  {
    if letters == [] then Step(1, devpath)
    else
      var s := OptionEffect(letters[0], next, devpath);
      if s.code < 0 then Step(-1, s.devpath)
      else if s.code == 0 then Step(0, s.devpath)
      else BundleEffect(letters[1..], next, s.devpath)
  }

  /** An argument the parser reads as an option while `--` has not been seen. */
  predicate IsOptionLike(a: string) {
    |a| > 0 && a[0] == '-'
  }

  /**
   * The letters an option argument `-xyz` or `--name` hands to the handler:
   * its own letters, or the one letter a long name maps to; None for an
   * unknown long name.
   */
  function OptionLetters(a: string): (letters: Option<string>)
    requires |a| >= 2
    ensures letters.Some? ==> |letters.value| > 0 && letters.value[0] != '-'
    ensures a[1] != '-' ==> letters == Some(a[1..])
    ensures a[1] == '-' ==>
              letters == if a[2..] == "help" then Some("h") else if a[2..] == "source" then Some("s") else None
  {
    if a[1] != '-' then Some(a[1..])
    else
      LongToShortTable(a[2..]);
      match LongToShort(a[2..])
      case Some(c) => Some([c])
      case None => None
  }

  /** The argument after position `i`, or None (a NULL pointer) when `i` is the last. */
  function NextArg(argv: seq<string>, i: nat): Option<string> {
    if i + 1 < |argv| then Some(argv[i + 1]) else None
  }

  /**
   * The outer loop of `parse_options` from position `i`, with the
   * `stop_options` flag `stop` and the device path recorded so far.
   */
  function ParseFrom(argv: seq<string>, i: nat, stop: bool, devpath: Option<string>): Step
    decreases |argv| - i
  {
    if i >= |argv| then Step(1, devpath)
    else
      var a := argv[i];
      if IsOptionLike(a) && !stop then
        if |a| == 1 then Step(-3, devpath)
        else if a[1] == '-' && |a| == 2 then ParseFrom(argv, i + 1, true, devpath)
        else
          match OptionLetters(a)
          case None => Step(-2, devpath)
          case Some(ls) =>
            var b := BundleEffect(ls, NextArg(argv, i), devpath);
            if b.code <= 0 then b else ParseFrom(argv, i + 1, stop, b.devpath)
      else
        var s := OptionEffect('-', Some(a), devpath);
        if s.code < 0 then Step(-3, s.devpath)
        else if s.code == 0 then s
        else ParseFrom(argv, i + 1, stop, s.devpath)
  }

  /** `parse_options` on a fresh options record: argv[0] is the program name. */
  function Parse(argv: seq<string>): Step {
    ParseFrom(argv, 1, false, None)
  }

  /** The options record (`options_t`) that the handler fills in. */
  class Options {
    var devpath: Option<string>

    constructor ()
      ensures devpath == None
    {
      devpath := None;
    }

    /** `parse_option`. */
    method ParseOption(opt: char, arg: Option<string>) returns (result: int)
      modifies this
      ensures result == OptionEffect(opt, arg, old(devpath)).code
      ensures devpath == OptionEffect(opt, arg, old(devpath)).devpath
    {
      match opt
      case 'h' => result := 0;
      case 's' => result := 0;
      case '-' =>
        if devpath.Some? {
          return -1;
        }
        devpath := arg;
        result := 1;
      case _ => result := -1;
    }
  }

  /** `parse_options`, proved to follow ParseFrom from position 1. */
  method ParseOptions(argv: seq<string>, options: Options) returns (result: int)
    modifies options
    ensures result == ParseFrom(argv, 1, false, old(options.devpath)).code
    ensures options.devpath == ParseFrom(argv, 1, false, old(options.devpath)).devpath
  {
    ghost var goal := ParseFrom(argv, 1, false, options.devpath);
    var i := 1;
    var stop := false;
    while i < |argv|
      invariant 1 <= i
      invariant ParseFrom(argv, i, stop, options.devpath) == goal
      decreases |argv| - i
    {
      var a := argv[i];
      if |a| > 0 && a[0] == '-' && !stop {
        var shortArgs := a[1..];
        if |shortArgs| == 0 {
          return -3;
        }
        if shortArgs[0] == '-' {
          if |shortArgs| == 1 {
            stop := true;
            i := i + 1;
            continue;
          }
          var k := 0;
          while k < |LONG_OPTIONS| && LONG_OPTIONS[k].name != a[2..]
            invariant 0 <= k <= |LONG_OPTIONS|
            invariant LongFrom(a[2..], k) == LongToShort(a[2..])
          {
            k := k + 1;
          }
          if k == |LONG_OPTIONS| {
            return -2;
          }
          shortArgs := [LONG_OPTIONS[k].short];
        }
        var next := if i + 1 < |argv| then Some(argv[i + 1]) else None;
        ghost var entry := options.devpath;
        var j := 0;
        while j < |shortArgs|
          invariant 0 <= j <= |shortArgs|
          invariant BundleEffect(shortArgs[j..], next, options.devpath) == BundleEffect(shortArgs, next, entry)
        {
          result := options.ParseOption(shortArgs[j], next);
          if result < 0 {
            return -1;
          }
          if result == 0 {
            return 0;
          }
          j := j + 1;
        }
      } else {
        result := options.ParseOption('-', Some(a));
        if result < 0 {
          return -3;
        }
        if result == 0 {
          return 0;
        }
      }
      i := i + 1;
    }
    return 1;
  }

  // Properties of the parser

  /** Every letter is handled with 1, 0 or -1; only `-` (a plain argument) ever answers 1. */
  lemma OptionEffectCodes(opt: char, arg: Option<string>, devpath: Option<string>)
    ensures OptionEffect(opt, arg, devpath).code in {-1, 0, 1}
    ensures OptionEffect(opt, arg, devpath).code == 1 ==> opt == '-'
    ensures OptionEffect(opt, arg, devpath).code == 0 <==> opt == 'h' || opt == 's'
  {
  }

  /** The result of parse_options is always one of the five documented codes. */
  lemma {:induction false} ParseCodeRange(argv: seq<string>, i: nat, stop: bool, devpath: Option<string>)
    ensures ParseFrom(argv, i, stop, devpath).code in {-3, -2, -1, 0, 1}
    decreases |argv| - i
  {
    if i < |argv| {
      var a := argv[i];
      if IsOptionLike(a) && !stop {
        if |a| == 1 {
        } else if a[1] == '-' && |a| == 2 {
          ParseCodeRange(argv, i + 1, true, devpath);
        } else {
          match OptionLetters(a)
          case None =>
          case Some(ls) =>
            BundleCodeRange(ls, NextArg(argv, i), devpath);
            var b := BundleEffect(ls, NextArg(argv, i), devpath);
            if b.code > 0 {
              ParseCodeRange(argv, i + 1, stop, b.devpath);
            }
        }
      } else {
        var s := OptionEffect('-', Some(a), devpath);
        if s.code > 0 {
          ParseCodeRange(argv, i + 1, stop, s.devpath);
        }
      }
    }
  }

  /** A bundle of letters ends with 1, 0 or -1. */
  lemma {:induction false} BundleCodeRange(letters: string, next: Option<string>, devpath: Option<string>)
    ensures BundleEffect(letters, next, devpath).code in {-1, 0, 1}
    decreases |letters|
  {
    if letters != [] {
      var s := OptionEffect(letters[0], next, devpath);
      if s.code > 0 {
        BundleCodeRange(letters[1..], next, s.devpath);
      }
    }
  }

  /**
   * The code an option argument ends parsing with: a bare `-` is a missing
   * option (-3); `--help` and `--source` exit at once (0); any other long
   * name is unknown (-2); a short bundle is decided by its first letter,
   * `h` or `s` exiting (0) and anything else failing (-1).
   */
  function OptionArgCode(a: string): int
    requires IsOptionLike(a) && a != "--"
  {
    if a == "-" then -3
    else if a == "--help" || a == "--source" then 0
    else if a[1] == '-' then -2
    else if a[1] == 'h' || a[1] == 's' then 0
    else -1
  }

  /**
   * Before `--`, the first option argument ends the parse: its code is
   * OptionArgCode, no later letter of the bundle and no later argument is
   * looked at, and the device path is left as it was.
   */
  lemma OptionArgumentDecides(argv: seq<string>, i: nat, devpath: Option<string>)
    requires i < |argv| && IsOptionLike(argv[i]) && argv[i] != "--"
    ensures ParseFrom(argv, i, false, devpath) == Step(OptionArgCode(argv[i]), devpath)
  {
    var a := argv[i];
    if |a| >= 2 {
      LongToShortTable(a[2..]);
      if a[1] == '-' {
        assert a == "--" + a[2..];
        assert (a[2..] == "help") == (a == "--help");
        assert (a[2..] == "source") == (a == "--source");
      }
    }
  }

  /**
   * The arguments the parser takes as plain arguments from position `i`:
   * those not starting with `-` before the first `--`, and every argument
   * after it.
   */
  function Positionals(argv: seq<string>, i: nat, stop: bool): seq<string>
    decreases |argv| - i
  {
    if i >= |argv| then []
    else if !stop && argv[i] == "--" then Positionals(argv, i + 1, true)
    else if !stop && IsOptionLike(argv[i]) then Positionals(argv, i + 1, stop)
    else [argv[i]] + Positionals(argv, i + 1, stop)
  }

  /** No option argument appears from position `i` on, the first `--` apart. */
  predicate OptionFree(argv: seq<string>, i: nat, stop: bool)
    decreases |argv| - i
  {
    i >= |argv| || stop || argv[i] == "--" || (!IsOptionLike(argv[i]) && OptionFree(argv, i + 1, false))
  }

  /**
   * Without options, the first plain argument becomes the device path (if
   * none was set) and a second one is rejected with -3.
   */
  lemma {:induction false} ParseWithoutOptions(argv: seq<string>, i: nat, stop: bool, devpath: Option<string>)
    requires OptionFree(argv, i, stop)
    ensures var n := |Positionals(argv, i, stop)| + (if devpath.Some? then 1 else 0);
            ParseFrom(argv, i, stop, devpath).code == if n <= 1 then 1 else -3
    ensures ParseFrom(argv, i, stop, devpath).devpath
            == if devpath.None? && Positionals(argv, i, stop) != [] then Some(Positionals(argv, i, stop)[0]) else devpath
    decreases |argv| - i
  {
    if i < |argv| {
      var a := argv[i];
      if !stop && a == "--" {
        ParseWithoutOptions(argv, i + 1, true, devpath);
        assert OptionFree(argv, i + 1, true);
      } else {
        assert !IsOptionLike(a) || stop;
        if devpath.None? {
          ParseWithoutOptions(argv, i + 1, stop, Some(a));
        }
      }
    }
  }

  /** An option argument anywhere before `--` means the report never runs: the code is at most 0. */
  lemma {:induction false} ParseWithOption(argv: seq<string>, i: nat, stop: bool, devpath: Option<string>)
    requires !OptionFree(argv, i, stop)
    ensures ParseFrom(argv, i, stop, devpath).code <= 0
    decreases |argv| - i
  {
    var a := argv[i];
    if IsOptionLike(a) {
      OptionArgumentDecides(argv, i, devpath);
    } else if devpath.None? {
      ParseWithOption(argv, i + 1, false, Some(a));
    }
  }

  /**
   * parse_options returns 1 exactly when argv holds no option (bar one
   * `--`) and at most one plain argument; that argument is then the device
   * path, and without one the path stays unset. A second plain argument
   * gives -3.
   */
  lemma ParseSucceedsIff(argv: seq<string>)
    ensures Parse(argv).code == 1 <==> OptionFree(argv, 1, false) && |Positionals(argv, 1, false)| <= 1
    ensures Parse(argv).code == 1 ==>
              Parse(argv).devpath == if Positionals(argv, 1, false) == [] then None else Some(Positionals(argv, 1, false)[0])
    ensures OptionFree(argv, 1, false) && |Positionals(argv, 1, false)| >= 2 ==> Parse(argv).code == -3
  {
    if OptionFree(argv, 1, false) {
      ParseWithoutOptions(argv, 1, false, None);
    } else {
      ParseWithOption(argv, 1, false, None);
    }
  }
}
