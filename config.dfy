/**
 * The command-line options `-p <num_procesos> -t <token_inicial> -M <max_random>`,
 * after `getopt` has split them and `atoi` has turned each argument into an
 * integer, and the checks the program applies before it starts any process.
 */
module Config {
  import opened Wrappers

  /** MAX_PROCESOS: the size of the process table. */
  const MAX_PROCESSES := 100

  /** The three options the program knows. */
  datatype Flag = Processes | InitialToken | MaxRandom

  /** One option as `getopt` reports it: a known flag with its argument as
      `atoi` read it, or anything else (an unknown flag, a missing argument). */
  datatype Opt = Given(flag: Flag, value: int) | Unrecognized

  /** Each way the program exits with EXIT_FAILURE before the game starts. */
  datatype ConfigError = BadProcessCount | BadInitialToken | BadMaxRandom | Usage

  datatype GameConfig = GameConfig(processes: int, token: int, maxRandom: int)

  /** What a game needs: between 1 and MAX_PROCESSES processes, a positive
      initial token and a positive bound for the random decrement. */
  predicate ValidConfig(c: GameConfig)
  {
    1 <= c.processes <= MAX_PROCESSES && c.token > 0 && c.maxRandom > 0
  }

  /** The error message each option's check reports. */
  function FlagError(f: Flag): (e: ConfigError)
  {
    match f
    case Processes => BadProcessCount
    case InitialToken => BadInitialToken
    case MaxRandom => BadMaxRandom
  }

  /** The check each `case` of the option switch applies to its argument. */
  function Reject(o: Opt): (e: Option<ConfigError>)
    ensures o.Unrecognized? ==> e == Some(Usage)
    ensures o.Given? ==> e.None? || e == Some(FlagError(o.flag))
    ensures o.Given? && o.flag == Processes ==> (e.Some? <==> !(1 <= o.value <= MAX_PROCESSES))
    ensures o.Given? && o.flag != Processes ==> (e.Some? <==> o.value <= 0)
  {
    match o
    case Given(Processes, v) => if v <= 0 || v > MAX_PROCESSES then Some(BadProcessCount) else None
    case Given(InitialToken, v) => if v <= 0 then Some(BadInitialToken) else None
    case Given(MaxRandom, v) => if v <= 0 then Some(BadMaxRandom) else None
    case Unrecognized => Some(Usage)
  }

  /** Whether `f` appears among the options. */
  predicate Mentions(opts: seq<Opt>, f: Flag)
  {
    exists i :: 0 <= i < |opts| && opts[i].Given? && opts[i].flag == f
  }

  /** Whether option `o` sets flag `f`. */
  predicate Sets(o: Opt, f: Flag)
  {
    o.Given? && o.flag == f
  }

  /** The position of the last option that sets `f`, or -1 when none does. */
  function LastIndex(opts: seq<Opt>, f: Flag): (i: int)
    ensures -1 <= i < |opts|
    ensures i >= 0 ==> Sets(opts[i], f)
    ensures forall j :: i < j < |opts| ==> !Sets(opts[j], f)
  {
    if |opts| == 0 then -1
    else if Sets(opts[|opts| - 1], f) then |opts| - 1
    else
      var front := opts[..|opts| - 1];
      assert forall j :: 0 <= j < |front| ==> front[j] == opts[j];
      LastIndex(front, f)
  }

  /** The value `f` ends up with: the argument of its last occurrence, or the
      variable's initial 0 when it never appears. */
  function Last(opts: seq<Opt>, f: Flag): (v: int)
  {
    var i := LastIndex(opts, f);
    if i < 0 then 0 else opts[i].value
  }

  /** `f` is mentioned exactly when it has a last occurrence, and its value is
      that occurrence's argument, or 0 when there is none. */
  lemma LastOccurrence(opts: seq<Opt>, f: Flag)
    ensures Mentions(opts, f) <==> LastIndex(opts, f) >= 0
    ensures !Mentions(opts, f) ==> Last(opts, f) == 0
    ensures Mentions(opts, f) ==> opts[LastIndex(opts, f)] == Given(f, Last(opts, f))
  {
    var i := LastIndex(opts, f);
    if i >= 0 {
      assert opts[i].Given? && opts[i].flag == f;
    }
  }

  /** One more option changes the value of `f` exactly when it sets `f`. */
  lemma LastAppend(opts: seq<Opt>, o: Opt, f: Flag)
    ensures Last(opts + [o], f) == if Sets(o, f) then o.value else Last(opts, f)
  {
    assert (opts + [o])[..|opts|] == opts;
  }

  /** The option loop of `main` and the check that follows it: the first
      option that fails its check ends the program with that check's error;
      a missing option ends it with the usage message; otherwise the last
      value given for each option is the configuration. */
  method ParseOptions(opts: seq<Opt>) returns (r: Result<GameConfig, ConfigError>)
    ensures r.Success? <==>
      && (forall i :: 0 <= i < |opts| ==> Reject(opts[i]).None?)
      && Mentions(opts, Processes) && Mentions(opts, InitialToken) && Mentions(opts, MaxRandom)
    ensures r.Success? ==> ValidConfig(r.value)
    ensures r.Success? ==> r.value == GameConfig(Last(opts, Processes), Last(opts, InitialToken), Last(opts, MaxRandom))
    ensures r.Failure? ==>
      || (exists i :: 0 <= i < |opts| && Reject(opts[i]) == Some(r.error) && forall j :: 0 <= j < i ==> Reject(opts[j]).None?)
      || (r.error == Usage && forall i :: 0 <= i < |opts| ==> Reject(opts[i]).None?)
  {
    var processes, token, maxRandom := 0, 0, 0;
    var i := 0;
    while i < |opts|
      invariant 0 <= i <= |opts|
      invariant forall j :: 0 <= j < i ==> Reject(opts[j]).None?
      invariant processes == Last(opts[..i], Processes)
      invariant token == Last(opts[..i], InitialToken)
      invariant maxRandom == Last(opts[..i], MaxRandom)
    {
      var e := Reject(opts[i]);
      if e.Some? {
        return Failure(e.value);
      }
      assert opts[..i + 1] == opts[..i] + [opts[i]];
      LastAppend(opts[..i], opts[i], Processes);
      LastAppend(opts[..i], opts[i], InitialToken);
      LastAppend(opts[..i], opts[i], MaxRandom);
      match opts[i] {
        case Given(Processes, v) => processes := v;
        case Given(InitialToken, v) => token := v;
        case Given(MaxRandom, v) => maxRandom := v;
      }
      i := i + 1;
    }
    assert opts[..i] == opts;
    AcceptedLast(opts, Processes);
    AcceptedLast(opts, InitialToken);
    AcceptedLast(opts, MaxRandom);
    if processes == 0 || token == 0 || maxRandom == 0 {
      return Failure(Usage);
    }
    r := Success(GameConfig(processes, token, maxRandom));
  }

  /** Once every option has passed its check, an option's final value is 0
      exactly when the option is missing, and otherwise passes its check. */
  lemma AcceptedLast(opts: seq<Opt>, f: Flag)
    requires forall i :: 0 <= i < |opts| ==> Reject(opts[i]).None?
    ensures Last(opts, f) == 0 <==> !Mentions(opts, f)
    ensures Mentions(opts, f) ==> Reject(Given(f, Last(opts, f))).None?
  {
    LastOccurrence(opts, f);
    if Mentions(opts, f) {
      assert Reject(opts[LastIndex(opts, f)]).None?;
    }
  }

  /** A configuration is valid exactly when the three options that spell it
      out all pass their checks. */
  lemma ValidConfigAccepted(c: GameConfig)
    ensures ValidConfig(c) <==>
      && Reject(Given(Processes, c.processes)).None?
      && Reject(Given(InitialToken, c.token)).None?
      && Reject(Given(MaxRandom, c.maxRandom)).None?
  {
  }
}
