/** Command-line handling of lib/argv.js: the wrapper's own options, read
    from the environment and the argument vector, and the preparation of
    `process.argv` before the wrapped CLI runs. The wrapper's flags are
    removed; YOLO mode also adds `--dangerously-skip-permissions`. */
module Argv {
  const SKIP_PERMISSIONS: string := "--dangerously-skip-permissions"
  const SAFE: string := "--safe"
  const NO_YOLO: string := "--no-yolo"
  const NO_CONSENT: string := "--no-consent"
  const SILENT: string := "--silent"
  const NO_UPDATE: string := "--no-update"

  /** The flags the wrapper reads and the wrapped CLI must not see. */
  predicate WrapperFlag(arg: string) {
    arg == SAFE || arg == NO_YOLO || arg == NO_CONSENT || arg == SILENT || arg == NO_UPDATE
  }

  datatype Options = Options(isSilent: bool, skipConsent: bool, safeMode: bool, noUpdate: bool)

  /** An environment variable set to `1` or `true`. */
  predicate EnvFlag(env: map<string, string>, name: string) {
    name in env && (env[name] == "1" || env[name] == "true")
  }

  /** `parseArgs()`, over `process.env` and `process.argv`. */
  function ParseArgs(env: map<string, string>, argv: seq<string>): Options {
    Options(
      EnvFlag(env, "CLAUDE_YOLO_SILENT") || SILENT in argv,
      EnvFlag(env, "CLAUDE_YOLO_SKIP_CONSENT") || NO_CONSENT in argv,
      SAFE in argv || NO_YOLO in argv,
      EnvFlag(env, "CLAUDE_UNLEASHED_NO_UPDATE") || NO_UPDATE in argv)
  }

  /** `argv.filter(arg => !wrapperFlag(arg))`. */
  function Strip(argv: seq<string>): (r: seq<string>)
    ensures forall a :: a in r <==> a in argv && !WrapperFlag(a)
  {
    if argv == [] then []
    else (if WrapperFlag(argv[0]) then [] else [argv[0]]) + Strip(argv[1..])
  }

  /** The vector `prepareYoloArgv` leaves. */
  function YoloArgv(argv: seq<string>): (r: seq<string>)
    ensures SKIP_PERMISSIONS in r
    ensures forall a :: a in r <==> (a in argv || a == SKIP_PERMISSIONS) && !WrapperFlag(a)
  {
    Strip(if SKIP_PERMISSIONS in argv then argv else argv + [SKIP_PERMISSIONS])
  }

  /** `process`, as far as these functions touch it. */
  class Process {
    var env: map<string, string>
    var argv: seq<string>

    constructor(env: map<string, string>, argv: seq<string>)
      ensures this.env == env && this.argv == argv
    {
      this.env := env;
      this.argv := argv;
    }

    function Parse(): Options
      reads this
    {
      ParseArgs(env, argv)
    }

    /** `prepareYoloArgv()`. */
    method PrepareYolo()
      modifies this
      ensures argv == YoloArgv(old(argv)) && env == old(env)
    {
      if SKIP_PERMISSIONS !in argv {
        argv := argv + [SKIP_PERMISSIONS];
      }
      argv := Strip(argv);
    }

    /** `prepareSafeArgv()`. */
    method PrepareSafe()
      modifies this
      ensures argv == Strip(old(argv)) && env == old(env)
    {
      argv := Strip(argv);
    }
  }

  /** The filter keeps every other argument as often as it occurs, drops
      every wrapper flag, and keeps the order. */
  lemma {:induction false} StripCounts(argv: seq<string>)
    ensures forall x :: multiset(Strip(argv))[x] == if WrapperFlag(x) then 0 else multiset(argv)[x]
  {
    if argv != [] {
      StripCounts(argv[1..]);
      assert argv == [argv[0]] + argv[1..];
    }
  }

  lemma {:induction false} StripConcat(a: seq<string>, b: seq<string>)
    ensures Strip(a + b) == Strip(a) + Strip(b)
  {
    if a == [] {
      assert a + b == b;
    } else {
      assert (a + b)[0] == a[0] && (a + b)[1..] == a[1..] + b;
      StripConcat(a[1..], b);
    }
  }

  /** Filtering twice filters once. */
  lemma {:induction false} StripIdempotent(argv: seq<string>)
    ensures Strip(Strip(argv)) == Strip(argv)
  {
    if argv != [] {
      StripIdempotent(argv[1..]);
      StripConcat(if WrapperFlag(argv[0]) then [] else [argv[0]], Strip(argv[1..]));
    }
  }

  /** YOLO mode is the filtered vector with the skip-permissions flag at
      the end when it was missing. */
  lemma YoloSplit(argv: seq<string>)
    ensures YoloArgv(argv) == Strip(argv) + (if SKIP_PERMISSIONS in argv then [] else [SKIP_PERMISSIONS])
  {
    StripConcat(argv, [SKIP_PERMISSIONS]);
    assert !WrapperFlag(SKIP_PERMISSIONS);
    assert Strip([SKIP_PERMISSIONS]) == [SKIP_PERMISSIONS];
  }

  /** After YOLO preparation the skip-permissions flag is present: once if
      it was missing, as often as before otherwise. */
  lemma YoloFlag(argv: seq<string>)
    ensures SKIP_PERMISSIONS in YoloArgv(argv)
    ensures SKIP_PERMISSIONS !in argv ==> multiset(YoloArgv(argv))[SKIP_PERMISSIONS] == 1
    ensures SKIP_PERMISSIONS in argv ==> multiset(YoloArgv(argv))[SKIP_PERMISSIONS] == multiset(argv)[SKIP_PERMISSIONS]
  {
    var y := if SKIP_PERMISSIONS in argv then argv else argv + [SKIP_PERMISSIONS];
    assert !WrapperFlag(SKIP_PERMISSIONS);
    StripCounts(y);
    assert multiset(y)[SKIP_PERMISSIONS] > 0;
    if SKIP_PERMISSIONS !in argv {
      assert multiset(argv)[SKIP_PERMISSIONS] == 0;
    }
  }

  /** Preparing for YOLO mode twice is preparing once. */
  lemma YoloIdempotent(argv: seq<string>)
    ensures YoloArgv(YoloArgv(argv)) == YoloArgv(argv)
  {
    var extra := if SKIP_PERMISSIONS in argv then [] else [SKIP_PERMISSIONS];
    var y := YoloArgv(argv);
    YoloSplit(argv);
    YoloFlag(argv);
    YoloSplit(y);
    assert YoloArgv(y) == Strip(y);
    StripConcat(Strip(argv), extra);
    StripIdempotent(argv);
    assert Strip(extra) == extra;
  }

  /** After either preparation the flags are consumed: parsing again sees
      only the environment, and never safe mode. */
  lemma ParseAfterPrepare(env: map<string, string>, argv: seq<string>)
    ensures var expected := Options(
        EnvFlag(env, "CLAUDE_YOLO_SILENT"), EnvFlag(env, "CLAUDE_YOLO_SKIP_CONSENT"), false,
        EnvFlag(env, "CLAUDE_UNLEASHED_NO_UPDATE"));
      ParseArgs(env, Strip(argv)) == expected && ParseArgs(env, YoloArgv(argv)) == expected
  {
    StripCounts(argv);
    var y := if SKIP_PERMISSIONS in argv then argv else argv + [SKIP_PERMISSIONS];
    StripCounts(y);
    forall x | WrapperFlag(x)
      ensures x !in Strip(argv) && x !in YoloArgv(argv)
    {
      assert multiset(Strip(argv))[x] == 0;
      assert multiset(Strip(y))[x] == 0;
    }
  }
}
