/** The parameter merge at the top of `createApp`: the parameter file (if a
    path was given) forms the base map, then every explicit `-p` token is
    applied on top with the same line rule.

    The file read is an input here: `fileRead` is the outcome of reading the
    file named `paramsFile` (None when opening or reading it failed). The Go
    code discards that error, so a failed read leaves the map nil; Go reads a
    nil map as empty but panics on the first assignment into it. */
module ParamResolution {
  import opened Wrappers
  import opened Params

  /** `options.EnvParams`: either a nil map or a real one. */
  datatype EnvParams = NilMap | Table(entries: map<string, string>)

  /** The end of the merge: a parameter map, or a run-time panic. */
  datatype Resolution = Resolved(env: EnvParams) | Panicked

  /** A token that the merge loop would assign (it contains '='). */
  predicate Assigns(token: string)
  {
    '=' in token
  }

  /** The explicit-token loop, in token order, over a possibly nil map. */
  function ApplyTokens(env: EnvParams, tokens: seq<string>): (r: Resolution)
    ensures env.Table? ==> r == Resolved(Table(Assign(env.entries, tokens)))
    ensures env.NilMap? ==> (r.Panicked? <==> exists i :: 0 <= i < |tokens| && Assigns(tokens[i]))
    ensures env.NilMap? && r.Resolved? ==> r.env == NilMap
    decreases |tokens|
  {
    if |tokens| == 0 then Resolved(env)
    else
      var rest := tokens[1..];
      assert forall i :: 0 < i < |tokens| ==> tokens[i] == rest[i - 1];
      match ParseEntry(tokens[0])
      case None => ApplyTokens(env, rest)
      case Some(e) =>
        match env
        case NilMap => Panicked
        case Table(m) => ApplyTokens(Table(m[e.key := e.value]), rest)
  }

  /** The map before the explicit tokens are applied. */
  function BaseParams(paramsFile: string, fileRead: Option<string>): (env: EnvParams)
    ensures env.NilMap? <==> paramsFile != "" && fileRead.None?
    ensures paramsFile == "" ==> env == Table(map[])
    ensures paramsFile != "" && fileRead.Some? ==> env == Table(ParseParams(fileRead.value))
  {
    if paramsFile != "" then
      match fileRead
      case Some(data) => Table(ParseParams(data))
      case None => NilMap
    else Table(map[])
  }

  /** The whole merge (lines 170-184 of `createApp`). */
  function ResolveParams(paramsFile: string, fileRead: Option<string>, tokens: seq<string>): (r: Resolution)
    ensures paramsFile == "" ==> r == Resolved(Table(Assign(map[], tokens)))
    ensures paramsFile != "" && fileRead.Some? ==>
              r == Resolved(Table(ParseParams(fileRead.value) + Assign(map[], tokens)))
    ensures paramsFile != "" && fileRead.None? ==>
              (r.Panicked? <==> exists i :: 0 <= i < |tokens| && Assigns(tokens[i]))
    ensures paramsFile != "" && fileRead.None? && r.Resolved? ==> r.env == NilMap
    ensures r.Resolved? && r.env.NilMap? ==> paramsFile != "" && fileRead.None?
  {
    var base := BaseParams(paramsFile, fileRead);
    match base
    case Table(m) =>
      AssignOverBase(m, tokens);
      ApplyTokens(base, tokens)
    case NilMap => ApplyTokens(base, tokens)
  }

  /** An explicit token always beats the file: the last token that defines a
      key decides its value, whatever the file says about that key. */
  lemma ExplicitOverridesFile(paramsFile: string, fileRead: Option<string>, tokens: seq<string>,
                              i: nat, key: string, value: string)
    requires paramsFile == "" || fileRead.Some?
    requires i < |tokens|
    requires ParseEntry(tokens[i]) == Some(Entry(key, value))
    requires forall j :: i < j < |tokens| ==> !DefinesKey(tokens[j], key)
    ensures ResolveParams(paramsFile, fileRead, tokens).Resolved?
    ensures ResolveParams(paramsFile, fileRead, tokens).env.Table?
    ensures var m := ResolveParams(paramsFile, fileRead, tokens).env.entries;
            key in m && m[key] == value
  {
    AssignLastWins(map[], tokens, i, key, value);
  }

  /** A key no explicit token defines keeps the file's value, and is absent
      when there is no file. */
  lemma FileValueKept(paramsFile: string, fileRead: Option<string>, tokens: seq<string>, key: string)
    requires paramsFile == "" || fileRead.Some?
    requires forall j :: 0 <= j < |tokens| ==> !DefinesKey(tokens[j], key)
    ensures var r := ResolveParams(paramsFile, fileRead, tokens);
            && r.Resolved? && r.env.Table?
            && (paramsFile == "" ==> key !in r.env.entries)
            && (paramsFile != "" ==>
                  && (key in r.env.entries <==> key in ParseParams(fileRead.value))
                  && (key in r.env.entries ==> r.env.entries[key] == ParseParams(fileRead.value)[key]))
  {
    AssignUntouched(map[], tokens, key);
  }
}
