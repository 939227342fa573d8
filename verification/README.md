# depcon `app` commands — decision logic

A Dafny model of the pure decision rules inside the Marathon `app` command
handlers of depcon (`commands/marathon/app_cmds.go`): how parameter files
and `-p KEY=VALUE` tokens are parsed and merged for `app create`, how the
create options are built from the flags, how the outcome of the create call
is classified, which version `app rollback` targets, when a command waits
for its deployment, and which output template a command uses.

Everything the handlers hand to the orchestrator client, the file system or
the terminal is an input or is left out: the parameter file's contents (or
the failed read) is an `Option<string>`, the version listing is a
`VersionListing`, flag lookups are plain values, and the create call's
result and error are parameters.

Modules, leaf to root:

- `Wrappers` — `Option`.
- `GoStrings` — Go's `strings.Split` and `strings.Contains` for a
  one-character separator, with `Split` characterised as the unique
  separator-free decomposition that joins back to the input.
- `Params` — one `KEY=VALUE` line (`ParseEntry`), the in-order fold of lines
  into a map (`Assign`) and `parseParamsFile` without the read
  (`ParseParams`).
- `ParamResolution` — the merge in `createApp`: file map (or empty map, or a
  nil map after a failed read) updated by the explicit tokens, including the
  panic that storing into a nil map causes.
- `Create` — the `CreateOptions` literal, the option and parameter setup
  (lines 168-184 of `createApp`), and the three ways `createApp` ends after
  the create call.
- `Rollback` — the rollback target version and update.
- `Selectors` — `waitForDeploymentIfFlagged` and `templateFormat`.

Behaviours of the code the model keeps:

- A rollback without an explicit version and with fewer than two recorded
  versions (or a failed listing) targets the empty string; no error is
  raised.
- An unreadable parameter file is not reported: the error is discarded, the
  parameter map stays nil, and the first explicit token containing '='
  makes the process panic. With no such token the nil map is passed on.
- The wait bound is always 80 seconds; the declared `timeout` flag is never
  read.

## Model

| member | source | states |
|---|---|---|
| GoStrings.Split | commands/marathon/app_cmds.go:232 | splitting yields at least one piece, exactly one iff the separator is absent, no piece holds the separator, and joining the pieces gives the input back |
| GoStrings.SplitUnique | commands/marathon/app_cmds.go:232 | any separator-free list of pieces that joins back to the text is its split, so the split is fully determined |
| GoStrings.SplitTrailingSeparator | commands/marathon/app_cmds.go:232 | a trailing newline adds exactly one empty last line and changes no other line |
| Params.ParseEntry | commands/marathon/app_cmds.go:236-238 | a line yields an entry exactly when it contains '=' |
| Params.ParseEntrySound | commands/marathon/app_cmds.go:236-238 | the entry's key is the text before the first '=', its value the text up to the next '=' or the end of the line |
| Params.ParseEntryComplete | commands/marathon/app_cmds.go:236-238 | any key/value the line reads as `key=value` or `key=value=...` (neither containing '=') is the entry returned |
| Params.ParseEntryIff | commands/marathon/app_cmds.go:236-238 | both directions together: the entry is (k, v) iff the line is `k=v` or begins `k=v=` with '=' in neither |
| Params.Put | commands/marathon/app_cmds.go:236-239 | one loop step: a line without '=' leaves the map as it was; otherwise the line's key is stored with its value and every other key keeps its value |
| Params.Assign | commands/marathon/app_cmds.go:234-240 | after the loop a key is present iff it was in the starting map or some line assigns it |
| Params.ParseParams | commands/marathon/app_cmds.go:231-241 | the parsed file holds exactly the keys that some newline-separated line assigns |
| Params.ParseEntrySecondEqualsExample | commands/marathon/app_cmds.go:237-238 | `A=b=c` assigns "b" to A; text after the second '=' is lost |
| Params.AssignUntouched | commands/marathon/app_cmds.go:234-241 | a key that no line defines is present and valued exactly as in the starting map |
| Params.AssignLastWins | commands/marathon/app_cmds.go:235-239 | the last line defining a key decides its value, for file lines and explicit tokens alike |
| Params.AssignSkipsInert | commands/marathon/app_cmds.go:235-239 | a line without '=' anywhere in the input can be removed without changing the resulting map |
| Params.AssignOverBase | commands/marathon/app_cmds.go:170-184 | applying lines to a starting map equals the starting map overridden by the lines applied to the empty map |
| Params.ParseParamsTrailingNewline | commands/marathon/app_cmds.go:231-239 | a parameter file with a trailing newline parses to the same map as without it |
| Params.ParseParamsExample | commands/marathon/app_cmds.go:231-241 | the file "A=1\nB=2\n" parses to {A: "1", B: "2"} |
| ParamResolution.ApplyTokens | commands/marathon/app_cmds.go:177-184 | on a real map the token loop is the in-order fold; on a nil map it panics iff some token contains '=' and otherwise leaves the map nil |
| ParamResolution.BaseParams | commands/marathon/app_cmds.go:170-175 | the map before the tokens: empty when no file is named, the parsed file when it was read, nil exactly when a named file could not be read |
| ParamResolution.ResolveParams | commands/marathon/app_cmds.go:170-184 | no file: the tokens applied to the empty map; a read file: the file map overridden by the tokens' map; a failed read: panic iff a token contains '=', and otherwise the map stays nil; a nil result only after a failed read |
| ParamResolution.ExplicitOverridesFile | commands/marathon/app_cmds.go:170-184 | when the map is real, the last explicit token defining a key gives its value whatever the file says |
| ParamResolution.FileValueKept | commands/marathon/app_cmds.go:170-184 | a key no token defines keeps the file's value, and is absent when no file was named |
| Create.NewCreateOptions | commands/marathon/app_cmds.go:168 | strict missing-parameter checking iff the ignore flag is off; the flags can be read back unchanged from the options |
| Create.OptionsFromOwnSwitches | commands/marathon/app_cmds.go:168 | every options value is the literal built from its own flags (the inverse direction) |
| Create.PrepareCreate | commands/marathon/app_cmds.go:168-184 | setup panics iff the merge panics; otherwise the options carry the flags and the merged parameters |
| Create.PrepareCreateUnreadableFile | commands/marathon/app_cmds.go:170-184 | with an unreadable parameter file, setup panics iff some explicit token contains '='; otherwise the parameters stay nil |
| Create.ClassifyCreate | commands/marathon/app_cmds.go:204-214 | an app-exists error ends with the error text plus the --force hint; otherwise no result ends in exit after printing "[ERROR] ..." iff an error was returned; a result is output with its error |
| Create.ExitStatus | commands/marathon/app_cmds.go:204-219 | `createApp` itself sets exit status 1 on both failure paths and no status on the output path |
| Create.CreateFailsIff | commands/marathon/app_cmds.go:204-213 | create exits with status 1 iff the app exists or no result came back, and the hint message is the error text followed by the hint |
| Rollback.RollbackTarget | commands/marathon/app_cmds.go:321-330 | the explicit version if given; else the second listed version if the listing succeeded with more than one entry; else "" |
| Rollback.RollbackRequest | commands/marathon/app_cmds.go:321-331 | the update targets the named application at the selected rollback version; without an explicit version a non-empty target implies a successful listing of more than one version |
| Rollback.ExplicitVersionIgnoresHistory | commands/marathon/app_cmds.go:323-324 | an explicit version is used verbatim whatever the history or listing outcome |
| Rollback.NoRollbackToCurrent | commands/marathon/app_cmds.go:325-330 | a one-entry history or a failed listing gives "", never the current version |
| Rollback.TargetComesFromHistory | commands/marathon/app_cmds.go:325-330 | without an explicit version a non-empty target occurs in the history after its most recent entry |
| Rollback.RollbackExamples | commands/marathon/app_cmds.go:321-330 | history v5,v4,v3 targets v4; history v5 targets ""; explicit v3 targets v3 |
| Selectors.WaitIfFlagged | commands/marathon/app_cmds.go:347-351 | a wait is issued iff the wait flag was read as true, always for the given deployment with an 80-second bound |
| Selectors.TimeoutFlagIgnored | commands/marathon/app_cmds.go:347-356 | the timeout flag has no effect on whether or how long the command waits (it holds by construction, as the flag is never read) |
| Selectors.TemplateFormat | commands/marathon/app_cmds.go:360-367 | a non-empty custom format replaces the default; an empty one keeps it |
| Selectors.TemplateFormatStable | commands/marathon/app_cmds.go:360-367 | re-applying the same custom format is a no-op, and the chosen format is empty iff both candidates are |

## Left out

- Cobra command definitions, `init` registration and flag lookup: framework plumbing. Flag values are inputs.
- File I/O in `parseParamsFile` (`os.Open`, `ioutil.ReadAll`): the read's outcome is an input (`Option<string>`).
- All orchestrator client calls (`CreateApplicationFromFile`, `CreateApplicationFromString`, `UpdateApplication`, `ListVersions`, `ScaleApplication`, `RestartApplication`, `DestroyApplication`, `GetApplication`, `ListApplicationsWithFilters`, `WaitForDeployment`): external; their results are inputs and the force/stop-deploy create-versus-update policy lives inside the client.
- Template transformation (`TemplateExists`, `LoadTemplateContext`, `Transform`): defined outside this file; the create outcome is modelled for whichever create call ran.
- `updateAppCPU`, `updateAppMemory`, `scaleApp`: the only logic is `strconv.ParseFloat`/`strconv.Atoi` (floating point and a library parser) before a client call.
- `restartApp`, `destroyApp`, the `list`, `get` and `versions` handlers: a client call followed by output; their use of wait gating and template selection is modelled by `Selectors`.
- `cli.Output`, `cli.EvalPrintUsage`, `os.Exit`, `fmt.Printf`, `convertFile`: output, usage checking (its semantics are not part of this model) and format conversion. The exit status on the output path is therefore left open.
- `StringSlice` flag parsing of `-p` values (comma splitting): flag plumbing; the model starts from the resulting token list.
- Non-UTF-8 parameter files: each character of the model stands for one byte of the file, so the byte-level split of Go is modelled, not a decoding of the file's text.
