/** The decision logic of `createApp` that does not depend on the
    orchestrator: building the create options from the command's flags, and
    classifying what the create call returned. The create call itself (and
    the template pass before it) is an input here. */
module Create {
  import opened Wrappers
  import opened ParamResolution

  /** The boolean flags of the `create` command, as looked up. */
  datatype Switches = Switches(wait: bool, force: bool, ignoreMissing: bool, stopDeploy: bool, dryRun: bool)

  /** Everything the merge and the options need from the command line. */
  datatype CreateFlags = CreateFlags(switches: Switches, paramsFile: string, tokens: seq<string>)

  /** `marathon.CreateOptions` as `createApp` fills it in. */
  datatype CreateOptions = CreateOptions(
    wait: bool,
    force: bool,
    errorOnMissingParams: bool,
    stopDeploy: bool,
    dryRun: bool,
    envParams: EnvParams)

  /** Reads the command's switches back out of a set of options. */
  function SwitchesOf(o: CreateOptions): Switches
  {
    Switches(o.wait, o.force, !o.errorOnMissingParams, o.stopDeploy, o.dryRun)
  }

  /** The options literal: strict parameter checking unless the ignore flag
      is given, every other switch copied as is. */
  function NewCreateOptions(s: Switches, env: EnvParams): (o: CreateOptions)
    ensures o.errorOnMissingParams <==> !s.ignoreMissing
    ensures SwitchesOf(o) == s
    ensures o.envParams == env
  {
    CreateOptions(s.wait, s.force, !s.ignoreMissing, s.stopDeploy, s.dryRun, env)
  }

  /** Every set of options is the literal built from its own switches, so
      `SwitchesOf` and `NewCreateOptions` are mutually inverse. */
  lemma OptionsFromOwnSwitches(o: CreateOptions)
    ensures NewCreateOptions(SwitchesOf(o), o.envParams) == o
  {
  }

  /** The state of `createApp` just before it talks to the orchestrator:
      options ready, or the process has panicked in the merge. */
  datatype CreateSetup = Ready(options: CreateOptions) | PanickedInMerge

  /** Lines 168-184 of `createApp`. `fileRead` is the outcome of reading the
      parameter file named by the flags. */
  function PrepareCreate(flags: CreateFlags, fileRead: Option<string>): (r: CreateSetup)
    ensures r.PanickedInMerge? <==> ResolveParams(flags.paramsFile, fileRead, flags.tokens).Panicked?
    ensures r.Ready? ==> SwitchesOf(r.options) == flags.switches
    ensures r.Ready? ==> r.options.envParams == ResolveParams(flags.paramsFile, fileRead, flags.tokens).env
    ensures r.Ready? ==> (r.options.errorOnMissingParams <==> !flags.switches.ignoreMissing)
  {
    match ResolveParams(flags.paramsFile, fileRead, flags.tokens)
    case Panicked => PanickedInMerge
    case Resolved(env) => Ready(NewCreateOptions(flags.switches, env))
  }

  /** A failed read of a named parameter file panics exactly when some
      explicit token would be stored; otherwise the map stays nil. */
  lemma PrepareCreateUnreadableFile(flags: CreateFlags)
    requires flags.paramsFile != ""
    ensures PrepareCreate(flags, None).PanickedInMerge? <==>
              exists i :: 0 <= i < |flags.tokens| && Assigns(flags.tokens[i])
    ensures PrepareCreate(flags, None).Ready? ==> PrepareCreate(flags, None).options.envParams == NilMap
  {
  }

  /** The error the create call reported. `AppExists` is the client's
      sentinel `marathon.ErrorAppExists`, compared by identity, with the text
      its `Error()` returns; every other error is `OtherError`. */
  datatype ClientError = AppExists(message: string) | OtherError(message: string)

  /** The remedy appended to the "already exists" error. */
  const ForceHint: string := ", consider using the --force flag to update when an application exists"

  /** How `createApp` ends. */
  datatype CreateOutcome<A> =
    | ForceHintExit(message: string)        // exitWithError: the message is output, then exit status 1
    | ErrorExit(printed: Option<string>)     // an optional "[ERROR] ..." line, then exit status 1
    | Rendered(result: A, err: Option<ClientError>)  // the result is handed to the output layer

  /** Lines 204-214 of `createApp`: classify the create call's result. */
  function ClassifyCreate<A>(result: Option<A>, err: Option<ClientError>): (r: CreateOutcome<A>)
    ensures r.ForceHintExit? <==> err.Some? && err.value.AppExists?
    ensures r.ForceHintExit? ==> r.message == err.value.message + ForceHint
    ensures r.ErrorExit? <==> result.None? && !(err.Some? && err.value.AppExists?)
    ensures r.ErrorExit? ==> (r.printed.Some? <==> err.Some?)
    ensures r.ErrorExit? && err.Some? ==> r.printed == Some("[ERROR] " + err.value.message + "\n")
    ensures r.Rendered? <==> result.Some? && !(err.Some? && err.value.AppExists?)
    ensures r.Rendered? ==> result == Some(r.result) && r.err == err
  {
    if err.Some? && err.value.AppExists? then
      ForceHintExit(err.value.message + ForceHint)
    else if result.None? then
      ErrorExit(if err.Some? then Some("[ERROR] " + err.value.message + "\n") else None)
    else
      Rendered(result.value, err)
  }

  /** The exit status `createApp` itself sets: 1 on both failure paths. On
      the output path the status is up to the output layer (None). */
  function ExitStatus<A>(o: CreateOutcome<A>): (status: Option<int>)
    ensures status.Some? <==> !o.Rendered?
    ensures status.Some? ==> status.value == 1
  {
    match o
    case ForceHintExit(_) => Some(1)
    case ErrorExit(_) => Some(1)
    case Rendered(_, _) => None
  }

  /** `createApp` exits with status 1 exactly when the application already
      exists or no result came back; an "already exists" error wins even
      over a returned result. */
  lemma CreateFailsIff<A>(result: Option<A>, err: Option<ClientError>)
    ensures ExitStatus(ClassifyCreate(result, err)) == Some(1) <==>
              (err.Some? && err.value.AppExists?) || result.None?
    ensures err.Some? && err.value.AppExists? ==>
              var o := ClassifyCreate(result, err);
              && o.ForceHintExit?
              && o.message[..|err.value.message|] == err.value.message
              && o.message[|err.value.message|..] == ForceHint
  {
  }
}
