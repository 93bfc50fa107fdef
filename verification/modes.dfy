/**
 Command-line mode derivation: each argument becomes a mode flag, a
 `factor=N` setting or a usage error; three defaulting rules complete the
 mode; a dispatch decides which measured phases run.

 The C `run_mode` is an `int` used as a bit set over `enum modes`
 (MODE_CMP = 1<<0, MODE_LOW_IPC = 1<<1, MODE_HIGH_IPC = 1<<2,
 MODE_NO_TSC = 1<<3, MODE_RDTSCP = 1<<4, MODE_RDTSC = 1<<5,
 MODE_RDTSC_LFENCE = 1<<6, MODE_RDTSC_CAS = 1<<7, MODE_GETTIME = 1<<8,
 MODE_GETTIME_NON_MONOTONIC = 1<<9). Each bit is a distinct `Mode` here and
 `run_mode` is the set of its bits, so `run_mode |= B` is `m + {B}` and
 `run_mode & MASK` is non-zero exactly when `m * MASK != {}`.
 */
module Modes {
  import opened Basics

  datatype Mode =
    | Cmp | LowIpc | HighIpc | NoTsc
    | Rdtscp | Rdtsc | RdtscLfence | RdtscCas | Gettime | GettimeNonMonotonic

  const IpcModeMask: set<Mode> := {LowIpc, HighIpc}
  const TscModeMask: set<Mode> :=
    {Rdtscp, Rdtsc, Gettime, NoTsc, RdtscLfence, RdtscCas, GettimeNonMonotonic}
  const ClockModeMask: set<Mode> := TscModeMask - {NoTsc}

  /** `run_mode & mask` is non-zero. */
  predicate Any(m: set<Mode>, mask: set<Mode>) {
    m * mask != {}
  }

  /** The spelling of the argument that sets each mode bit. */
  function Keyword(m: Mode): string {
    match m
    case Cmp => "cmp"
    case LowIpc => "low_ipc"
    case HighIpc => "high_ipc"
    case NoTsc => "notsc"
    case Rdtscp => "rdtscp"
    case Rdtsc => "rdtsc"
    case RdtscLfence => "rdtsc_lfence"
    case RdtscCas => "rdtsc_cas"
    case Gettime => "clock_gettime"
    case GettimeNonMonotonic => "clock_gettime_non_monotonic"
  }

  /** What one argument means to the argument loop. */
  datatype Arg = Flag(mode: Mode) | Factor(value: int) | Unknown

  const FactorPrefix: string := "factor="

  /** `strncmp(str, "factor=", 7) == 0`: the argument starts with "factor=". */
  predicate IsFactorArg(s: string) {
    |s| >= |FactorPrefix| && s[..|FactorPrefix|] == FactorPrefix
  }

  /** The `strcmp` chain: exact keywords, else the factor prefix, else an error. */
  function KeywordMode(s: string): Option<Mode> {
    if s == "low_ipc" then Some(LowIpc)
    else if s == "notsc" then Some(NoTsc)
    else if s == "rdtscp" then Some(Rdtscp)
    else if s == "rdtsc" then Some(Rdtsc)
    else if s == "rdtsc_lfence" then Some(RdtscLfence)
    else if s == "rdtsc_cas" then Some(RdtscCas)
    else if s == "clock_gettime_non_monotonic" then Some(GettimeNonMonotonic)
    else if s == "clock_gettime" then Some(Gettime)
    else if s == "cmp" then Some(Cmp)
    else if s == "high_ipc" then Some(HighIpc)
    else None
  }

  /**
   One argument of the loop in `main`. `atoi` is the C library conversion,
   taken as a parameter: the model does not fix how it reads digits.
   */
  function Classify(s: string, atoi: string -> int): (a: Arg)
    ensures a.Flag? ==> s == Keyword(a.mode)
    ensures a.Factor? <==> IsFactorArg(s)
    ensures a.Factor? ==> a.value == atoi(s[|FactorPrefix|..])
    ensures a.Unknown? <==> !IsFactorArg(s) && forall m: Mode :: s != Keyword(m)
  {
    match KeywordMode(s)
    case Some(m) =>
      assert s[0] != FactorPrefix[0];
      Flag(m)
    case None =>
      if IsFactorArg(s) then Factor(atoi(s[|FactorPrefix|..])) else Unknown
  }

  /** Every mode has exactly one keyword, and that keyword sets it. */
  lemma KeywordRoundTrip(m: Mode, atoi: string -> int)
    ensures Classify(Keyword(m), atoi) == Flag(m)
    ensures forall m': Mode :: Keyword(m') == Keyword(m) ==> m' == m
  {
  }

  /** The state the argument loop builds: `run_mode` and `factor`. */
  datatype Settings = Settings(mode: set<Mode>, factor: int)

  const InitialSettings: Settings := Settings({}, 1)

  /**
   The argument loop of `main` over `av[1..]`, left to right. The first
   unrecognised argument ends the process with the usage text.
   */
  function ParseArgs(args: seq<string>, atoi: string -> int): (r: Result<Settings>)
    ensures r.Exit? ==> r.fatal == Usage
  {
    if |args| == 0 then Ok(InitialSettings)
    else
      match ParseArgs(args[..|args| - 1], atoi)
      case Exit(f) => Exit(f)
      case Ok(s) =>
        match Classify(args[|args| - 1], atoi)
        case Flag(m) => Ok(s.(mode := s.mode + {m}))
        case Factor(v) => Ok(s.(factor := v))
        case Unknown => Exit(Usage)
  }

  /** The mode bits named by the arguments, in no particular order. */
  function FlagsOf(args: seq<string>): set<Mode> {
    set a, m | a in args && KeywordMode(a) == Some(m) :: m
  }

  /** Some argument is neither a keyword nor a factor setting. */
  predicate HasUnknown(args: seq<string>, atoi: string -> int) {
    exists i :: 0 <= i < |args| && Classify(args[i], atoi).Unknown?
  }

  /**
   The argument loop fails exactly when some argument is unrecognised, and
   otherwise `run_mode` is the union of the arguments' bits.
   */
  lemma {:induction false} ParseArgsMode(args: seq<string>, atoi: string -> int)
    ensures ParseArgs(args, atoi).Exit? <==> HasUnknown(args, atoi)
    ensures ParseArgs(args, atoi).Ok? ==> ParseArgs(args, atoi).value.mode == FlagsOf(args)
  {
    if |args| > 0 {
      var init := args[..|args| - 1];
      var last := args[|args| - 1];
      ParseArgsMode(init, atoi);
      assert args == init + [last];
      assert HasUnknown(args, atoi) <==> HasUnknown(init, atoi) || Classify(last, atoi).Unknown? by {
        if HasUnknown(init, atoi) {
          var i :| 0 <= i < |init| && Classify(init[i], atoi).Unknown?;
          assert args[i] == init[i];
        }
        if HasUnknown(args, atoi) {
          var i :| 0 <= i < |args| && Classify(args[i], atoi).Unknown?;
          if i < |init| {
            assert init[i] == args[i];
          }
        }
      }
      if ParseArgs(args, atoi).Ok? {
        var s := ParseArgs(init, atoi).value;
        assert FlagsOf(args) == FlagsOf(init) + (if KeywordMode(last).Some? then {KeywordMode(last).value} else {}) by {
          forall m | m in FlagsOf(args)
            ensures m in FlagsOf(init) || KeywordMode(last) == Some(m)
          {
            var a :| a in args && KeywordMode(a) == Some(m);
            if a != last {
              var i :| 0 <= i < |args| && args[i] == a;
              assert init[i] == a;
            }
          }
          forall m | m in FlagsOf(init) ensures m in FlagsOf(args) {
            var a :| a in init && KeywordMode(a) == Some(m);
            var i :| 0 <= i < |init| && init[i] == a;
            assert args[i] == a;
          }
        }
      }
    } else {
      assert FlagsOf(args) == {};
    }
  }

  /** Reordering or repeating the arguments changes neither failure nor `run_mode`. */
  lemma ModeIgnoresOrder(a: seq<string>, b: seq<string>, atoi: string -> int)
    requires forall x :: x in a <==> x in b
    ensures ParseArgs(a, atoi).Exit? <==> ParseArgs(b, atoi).Exit?
    ensures ParseArgs(a, atoi).Ok? ==> ParseArgs(a, atoi).value.mode == ParseArgs(b, atoi).value.mode
  {
    ParseArgsMode(a, atoi);
    ParseArgsMode(b, atoi);
    if HasUnknown(a, atoi) {
      var i :| 0 <= i < |a| && Classify(a[i], atoi).Unknown?;
      assert a[i] in b;
      var k :| 0 <= k < |b| && b[k] == a[i];
      assert Classify(b[k], atoi).Unknown?;
    }
    if HasUnknown(b, atoi) {
      var i :| 0 <= i < |b| && Classify(b[i], atoi).Unknown?;
      assert b[i] in a;
      var k :| 0 <= k < |a| && a[k] == b[i];
      assert Classify(a[k], atoi).Unknown?;
    }
  }

  /**
   `factor` is set by assignment, so the last `factor=` argument wins and
   the default 1 survives when there is none.
   */
  lemma {:induction false} ParseArgsFactor(args: seq<string>, atoi: string -> int)
    requires ParseArgs(args, atoi).Ok?
    ensures (forall i :: 0 <= i < |args| ==> !IsFactorArg(args[i])) ==>
              ParseArgs(args, atoi).value.factor == 1
    ensures forall i :: 0 <= i < |args| && IsFactorArg(args[i]) &&
                        (forall k :: i < k < |args| ==> !IsFactorArg(args[k])) ==>
              ParseArgs(args, atoi).value.factor == atoi(args[i][|FactorPrefix|..])
  {
    if |args| > 0 {
      var init := args[..|args| - 1];
      ParseArgsFactor(init, atoi);
      forall i | 0 <= i < |init| ensures init[i] == args[i] { }
    }
  }

  /** The defaulting rules applied to `run_mode` after the argument loop. */
  function ApplyDefaults(m: set<Mode>): (r: set<Mode>)
    // only ever adds bits, and only LOW_IPC and RDTSCP
    ensures m <= r && r - m <= {LowIpc, Rdtscp}
    // with neither a clock nor a workload named, the low IPC workload runs
    ensures !Any(m, ClockModeMask + IpcModeMask) ==> LowIpc in r
    // a comparison always has a workload to compare
    ensures Cmp in r ==> Any(r, IpcModeMask)
    // some timestamp mode is always chosen; RDTSCP only when none was named
    ensures Any(r, TscModeMask)
    ensures Rdtscp in r - m <==> !Any(m, TscModeMask)
    // LOW_IPC is added exactly when nothing runnable or only `cmp` was named
    ensures LowIpc in r - m <==>
              LowIpc !in m &&
              (!Any(m, ClockModeMask + IpcModeMask) || (Cmp in m && !Any(m, IpcModeMask)))
  {
    var m1 := if !Any(m, ClockModeMask + IpcModeMask) then m + {LowIpc} else m;
    var m2 := if Cmp in m1 && !Any(m1, IpcModeMask) then m1 + {LowIpc} else m1;
    if !Any(m2, TscModeMask) then m2 + {Rdtscp} else m2
  }

  /** Defaulting a defaulted mode changes nothing. */
  lemma DefaultsIdempotent(m: set<Mode>)
    ensures ApplyDefaults(ApplyDefaults(m)) == ApplyDefaults(m)
  {
    var r := ApplyDefaults(m);
    assert LowIpc in r || Any(r, ClockModeMask + IpcModeMask);
  }

  /** The thread function `run_for_secs` is given. */
  datatype Workload = LowIpcLoop | HighIpcLoop | ReadTscLoop

  /** One call of `run_for_secs`, with the value `skip_rdtsc` holds during it. */
  datatype Phase = Phase(workload: Workload, skipRdtsc: bool)

  /** The measured run of an IPC workload, then its notsc rerun under `cmp`. */
  function IpcPhases(w: Workload, m: set<Mode>): seq<Phase> {
    [Phase(w, NoTsc in m)] + (if Cmp in m then [Phase(w, true)] else [])
  }

  /** The dispatch at the end of `main`. */
  function Plan(m: set<Mode>): (p: seq<Phase>)
    ensures |p| <= 2
    ensures forall k :: 0 <= k < |p| ==> p[k].workload == p[0].workload
    // LOW_IPC takes precedence over HIGH_IPC
    ensures |p| > 0 && p[0].workload == LowIpcLoop <==> LowIpc in m
    ensures |p| > 0 && p[0].workload == HighIpcLoop <==> HighIpc in m && LowIpc !in m
    // the bare clock loop runs only when no IPC bit is set
    ensures |p| > 0 && p[0].workload == ReadTscLoop <==> !Any(m, IpcModeMask) && Any(m, ClockModeMask)
    ensures |p| == 0 <==> !Any(m, IpcModeMask + ClockModeMask)
    // comparison: a second run of the same workload with reads disabled
    ensures |p| == 2 <==> Cmp in m && Any(m, IpcModeMask)
    ensures |p| == 2 ==> p[1].skipRdtsc
    // the first run skips reads only for an IPC workload under notsc
    ensures |p| > 0 ==> (p[0].skipRdtsc <==> NoTsc in m && Any(m, IpcModeMask))
  {
    if LowIpc in m then
      assert LowIpc in m * IpcModeMask;
      IpcPhases(LowIpcLoop, m)
    else if HighIpc in m then
      assert HighIpc in m * IpcModeMask;
      IpcPhases(HighIpcLoop, m)
    else if Any(m, ClockModeMask) then [Phase(ReadTscLoop, false)]
    else []
  }

  /** After defaulting, the dispatch always runs something. */
  lemma DefaultedPlanRuns(m: set<Mode>)
    ensures |Plan(ApplyDefaults(m))| > 0
  {
  }

  /** The configuration `main` reaches before allocating the matrix. */
  datatype Config = Config(mode: set<Mode>, factor: int, phases: seq<Phase>)

  /** Argument loop, defaulting and dispatch together. */
  function Configure(args: seq<string>, atoi: string -> int): (r: Result<Config>)
    ensures r.Exit? <==> HasUnknown(args, atoi)
    ensures r.Exit? ==> r.fatal == Usage
    ensures r.Ok? ==> |r.value.phases| > 0 && Any(r.value.mode, TscModeMask)
    ensures r.Ok? ==> FlagsOf(args) <= r.value.mode && r.value.mode - FlagsOf(args) <= {LowIpc, Rdtscp}
  {
    ParseArgsMode(args, atoi);
    match ParseArgs(args, atoi)
    case Exit(f) => Exit(f)
    case Ok(s) =>
      var mode := ApplyDefaults(s.mode);
      DefaultedPlanRuns(s.mode);
      Ok(Config(mode, s.factor, Plan(mode)))
  }

  /** `tsc` with no arguments: one low IPC run with rdtscp, factor 1. */
  lemma NoArgumentsRunLowIpc(atoi: string -> int)
    ensures Configure([], atoi) == Ok(Config({LowIpc, Rdtscp}, 1, [Phase(LowIpcLoop, false)]))
  {
    assert ParseArgs([], atoi) == Ok(InitialSettings);
    assert ApplyDefaults({}) == {LowIpc, Rdtscp} by {
      assert !Any({LowIpc}, TscModeMask);
    }
    assert Plan({LowIpc, Rdtscp}) == [Phase(LowIpcLoop, false)];
  }

  /** `tsc rdtsc`: only the bare rdtsc loop runs. */
  lemma BareClockRunsReadLoop(atoi: string -> int)
    ensures Configure(["rdtsc"], atoi) == Ok(Config({Rdtsc}, 1, [Phase(ReadTscLoop, false)]))
  {
    var args := ["rdtsc"];
    assert args[..|args| - 1] == [];
    assert ParseArgs(args[..|args| - 1], atoi) == Ok(InitialSettings);
    assert KeywordMode("rdtsc") == Some(Rdtsc);
    assert Classify(args[|args| - 1], atoi) == Flag(Rdtsc);
    assert InitialSettings.(mode := InitialSettings.mode + {Rdtsc}) == Settings({Rdtsc}, 1);
    assert ParseArgs(args, atoi) == Ok(Settings({Rdtsc}, 1));
    assert ApplyDefaults({Rdtsc}) == {Rdtsc} by {
      assert Rdtsc in {Rdtsc} * (ClockModeMask + IpcModeMask);
      assert Rdtsc in {Rdtsc} * TscModeMask;
    }
    assert Plan({Rdtsc}) == [Phase(ReadTscLoop, false)] by {
      assert Rdtsc in {Rdtsc} * ClockModeMask;
    }
  }

  /** `tsc low_ipc cmp rdtsc`: low IPC with rdtsc, then again with reads skipped. */
  lemma CompareLowIpc(atoi: string -> int)
    ensures Configure(["low_ipc", "cmp", "rdtsc"], atoi).Ok?
    ensures Configure(["low_ipc", "cmp", "rdtsc"], atoi).value.phases ==
              [Phase(LowIpcLoop, false), Phase(LowIpcLoop, true)]
  {
    ParseArgsMode(["low_ipc", "cmp", "rdtsc"], atoi);
    assert ["low_ipc", "cmp", "rdtsc"][0] == "low_ipc";
    assert FlagsOf(["low_ipc", "cmp", "rdtsc"]) == {LowIpc, Cmp, Rdtsc};
  }

  /** `tsc cmp`: a comparison with no workload named compares the low IPC loop. */
  lemma CompareDefaultsToLowIpc(atoi: string -> int)
    ensures Configure(["cmp"], atoi) ==
              Ok(Config({Cmp, LowIpc, Rdtscp}, 1, [Phase(LowIpcLoop, false), Phase(LowIpcLoop, true)]))
  {
    var args := ["cmp"];
    assert args[..|args| - 1] == [];
    assert ParseArgs(args[..|args| - 1], atoi) == Ok(InitialSettings);
    assert KeywordMode("cmp") == Some(Cmp);
    assert Classify(args[|args| - 1], atoi) == Flag(Cmp);
    assert InitialSettings.(mode := InitialSettings.mode + {Cmp}) == Settings({Cmp}, 1);
    assert ParseArgs(args, atoi) == Ok(Settings({Cmp}, 1));
    assert ApplyDefaults({Cmp}) == {Cmp, LowIpc, Rdtscp} by {
      assert !Any({Cmp, LowIpc}, TscModeMask);
    }
    assert NoTsc !in {Cmp, LowIpc, Rdtscp};
    assert Plan({Cmp, LowIpc, Rdtscp}) == [Phase(LowIpcLoop, false), Phase(LowIpcLoop, true)];
  }

  /** `tsc bogus`: the usage text and exit status 1. */
  lemma UnknownArgumentIsUsage(atoi: string -> int)
    ensures Configure(["low_ipc", "bogus"], atoi) == Exit(Usage)
  {
    assert Classify("bogus", atoi).Unknown?;
    assert ["low_ipc", "bogus"][1] == "bogus";
  }
}
