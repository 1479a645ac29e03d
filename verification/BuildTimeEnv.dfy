/** Build-time variables of a stage container, exported at the head of its script. */
module BuildTimeEnv {
  import opened ShellWords
  import opened NameOrder
  import opened PackagesCommands

  /** How the script is put together. */
  const EXPORT := "export "
  const AND := " && "

  /** The script stops, or reaches its first command that is not an export. */
  datatype Reached = Failed | Reached(vars: Vars, commands: string)

  /** Runs the exports at the head of a script of commands joined by ` && `. */
  function Exported(s: string, vars: Vars): Reached
    decreases |s|
  {
    if !("export " <= s) then Reached(vars, s)
    else
      var t := s[7..];
      var n := Assigned(t);
      if n == 0 then Failed
      else
        var w := Unquoted(t[n + 1..], vars, map[]);
        if w.Bad? then Failed
        else if w.rest == [] then Reached(vars[t[..n] := w.value], "")
        else if " && " <= w.rest then Exported(w.rest[4..], vars[t[..n] := w.value])
        else Failed
  }

  function Export(env: Env, k: string): string
    requires k in env
  {
    EXPORT + (k + "=" + SingleQuoted(env[k]))
  }

  function Exports(env: Env, keys: seq<string>): seq<string>
    requires Keys(env, keys)
  {
    if keys == [] then [] else [Export(env, keys[0])] + Exports(env, keys[1..])
  }

  function Overlaid(env: Env, keys: seq<string>, vars: Vars): Vars
    requires Keys(env, keys)
    decreases |keys|
  {
    if keys == [] then vars else Overlaid(env, keys[1..], vars[keys[0] := env[keys[0]]])
  }

  lemma {:induction false} OverlaidIs(env: Env, keys: seq<string>, vars: Vars)
    requires Keys(env, keys)
    ensures var all := Overlaid(env, keys, vars);
            forall k :: (k in all <==> k in vars || k in keys)
                        && (k in all ==> all[k] == if k in keys then env[k] else vars[k])
    decreases |keys|
  {
    if keys != [] {
      OverlaidIs(env, keys[1..], vars[keys[0] := env[keys[0]]]);
      assert keys == [keys[0]] + keys[1..];
    }
  }

  lemma ExportRuns(k: string, v: string, after: string, vars: Vars)
    requires IsName(k) && (after == [] || AND <= after)
    ensures Exported(EXPORT + (k + "=" + (SingleQuoted(v) + after)), vars) ==
            Exported(if after == [] then "" else after[|AND|..], vars[k := v])
  {
    var t := k + "=" + (SingleQuoted(v) + after);
    AssignedIs(k, SingleQuoted(v) + after);
    SingleQuotedQuotes();
    assert after != [] ==> after[0] == AND[0];
    assert Unquoted(after, vars, map[]) == Word("", after, Unset);
    assert v + "" == v;
    assert (EXPORT + t)[|EXPORT|..] == t;
  }

  lemma {:induction false} ExportsRun(env: Env, keys: seq<string>, commands: seq<string>, vars: Vars)
    requires Keys(env, keys) && forall k :: k in env ==> IsName(k)
    ensures Exported(Join(Exports(env, keys) + commands, AND), vars) ==
            Exported(Join(commands, AND), Overlaid(env, keys, vars))
    decreases |keys|
  {
    if keys == [] {
      assert [] + commands == commands;
    } else {
      var k, rest := keys[0], Exports(env, keys[1..]) + commands;
      ExportsRun(env, keys[1..], commands, vars[k := env[k]]);
      ExportsFirst(env, keys, commands);
      FirstRuns(k, env[k], rest, vars);
    }
  }

  lemma ExportsFirst(env: Env, keys: seq<string>, commands: seq<string>)
    requires Keys(env, keys) && keys != []
    ensures Join(Exports(env, keys) + commands, AND) ==
            Join([EXPORT + (keys[0] + "=" + SingleQuoted(env[keys[0]]))] + (Exports(env, keys[1..]) + commands), AND)
  {
    var first, rest := EXPORT + (keys[0] + "=" + SingleQuoted(env[keys[0]])), Exports(env, keys[1..]);
    assert Exports(env, keys) == [first] + rest;
    assert [first] + rest + commands == [first] + (rest + commands);
  }

  lemma FirstRuns(k: string, v: string, rest: seq<string>, vars: Vars)
    requires IsName(k)
    ensures Exported(Join([EXPORT + (k + "=" + SingleQuoted(v))] + rest, AND), vars) ==
            Exported(Join(rest, AND), vars[k := v])
  {
    var after := if rest == [] then "" else AND + Join(rest, AND);
    JoinFirst(EXPORT + (k + "=" + SingleQuoted(v)), rest, AND);
    assert EXPORT + (k + "=" + SingleQuoted(v)) + after == EXPORT + (k + "=" + (SingleQuoted(v) + after));
    assert rest != [] ==> after[|AND|..] == Join(rest, AND);
    ExportRuns(k, v, after, vars);
  }

  lemma JoinFirst(first: string, rest: seq<string>, sep: string)
    ensures Join([first] + rest, sep) == first + if rest == [] then "" else sep + Join(rest, sep)
  {
    assert ([first] + rest)[1..] == rest;
  }

  /** The script starts its commands with every build-time variable at its very value. */
  lemma ExportsExact(env: Env, keys: seq<string>, commands: seq<string>, vars: Vars)
    requires forall k :: k in keys <==> k in env
    requires forall k :: k in env ==> IsName(k)
    ensures Keys(env, keys)
    ensures Exported(Join(Exports(env, keys) + commands, AND), vars) == Exported(Join(commands, AND), vars + env)
  {
    ExportsRun(env, keys, commands, vars);
    OverlaidIs(env, keys, vars);
    assert Overlaid(env, keys, vars) == vars + env;
  }

  lemma ExportsAlways(env: Env, keys: seq<string>, commands: seq<string>, text: string)
    requires Keys(env, keys) && forall k :: k in keys <==> k in env
    requires forall k :: k in env ==> IsName(k)
    requires text == Join(Exports(env, keys) + commands, AND)
    ensures forall vars :: Exported(text, vars) == Exported(Join(commands, AND), vars + env)
  {
    forall vars ensures Exported(text, vars) == Exported(Join(commands, AND), vars + env) {
      ExportsExact(env, keys, commands, vars);
    }
  }

  lemma ColumnsIsName(env: Env, width: string)
    requires forall k :: k in env ==> IsName(k)
    ensures forall k :: k in env["COLUMNS" := width] ==> IsName(k)
  {
  }

  class LegacyStageImageContainer {
    var buildTimeEnv: Env

    constructor ()
      ensures buildTimeEnv == map[]
    {
      buildTimeEnv := map[];
    }

    /** Later values win. */
    method AddBuildTimeEnv(envs: Env)
      modifies this
      ensures buildTimeEnv == old(buildTimeEnv) + envs
    {
      var left := envs.Keys;
      while left != {}
        invariant left <= envs.Keys
        invariant buildTimeEnv == old(buildTimeEnv) + (map k | k in envs && k !in left :: envs[k])
        decreases left
      {
        var k :| k in left;
        buildTimeEnv := buildTimeEnv[k := envs[k]];
        left := left - {k};
      }
      assert (map k | k in envs && k !in left :: envs[k]) == envs;
    }

    method PrepareBuildTimeEnvExports(width: string) returns (exports: seq<string>, ghost sorted: seq<string>)
      ensures Increasing(sorted) && forall k :: k in sorted <==> k in buildTimeEnv["COLUMNS" := width]
      ensures Keys(buildTimeEnv["COLUMNS" := width], sorted)
      ensures exports == Exports(buildTimeEnv["COLUMNS" := width], sorted)
    {
      var envs := buildTimeEnv["COLUMNS" := width];
      var keys := Sort(envs.Keys);
      sorted := keys;
      exports := ExportKeys(envs, keys);
    }

    /** Whatever shell variables there were, the commands run with the build-time ones on top. */
    method PrepareRunCommand(width: string, commands: seq<string>) returns (text: string)
      requires forall k :: k in buildTimeEnv ==> IsName(k)
      ensures forall vars :: Exported(text, vars) ==
                Exported(Join(commands, AND), vars + buildTimeEnv["COLUMNS" := width])
    {
      var exports, keys := PrepareBuildTimeEnvExports(width);
      text := Join(exports + commands, AND);
      ColumnsIsName(buildTimeEnv, width);
      ExportsAlways(buildTimeEnv["COLUMNS" := width], keys, commands, text);
    }
  }

  method ExportKeys(env: Env, keys: seq<string>) returns (exports: seq<string>)
    requires Keys(env, keys)
    ensures exports == Exports(env, keys)
  {
    exports := [];
    var i := 0;
    assert keys[0..] == keys && [] + Exports(env, keys) == Exports(env, keys);
    while i < |keys|
      invariant 0 <= i <= |keys| && exports + Exports(env, keys[i..]) == Exports(env, keys)
    {
      ExportsStep(env, keys, i, exports);
      exports := exports + [EXPORT + (keys[i] + "=" + SingleQuoted(env[keys[i]]))];
      i := i + 1;
    }
    assert keys[i..] == [] && exports + [] == exports;
  }

  lemma ExportsStep(env: Env, keys: seq<string>, i: nat, exports: seq<string>)
    requires Keys(env, keys) && i < |keys|
    ensures exports + Exports(env, keys[i..]) == exports + [Export(env, keys[i])] + Exports(env, keys[i + 1..])
  {
    assert keys[i..][0] == keys[i] && keys[i..][1..] == keys[i + 1..];
  }
}
