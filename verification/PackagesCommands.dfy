/** The script that hands `packages[].env` to a package manager: values read from a secret are
    assigned in statements of their own, and the command gets everything in its prefix.
    As in `PackagesEnv`, lists are compared as `Some(x) == Some(y)` in loop invariants. */
module PackagesCommands {
  import opened Basics
  import opened ShellWords
  import opened NameOrder
  import opened PackagesEnv

  type Env = map<string, string>

  // ---- Running a directive.

  /** Either the directive stops before the command, or the command runs with `env` on top of its
      inherited environment and `after` are the variables of the calling shell. */
  datatype Outcome = Stopped | Invoked(env: Env, command: string, after: Vars)

  /** Where `NAME=` at the start of the text ends, or 0. */
  function Assigned(s: string): (n: nat)
    ensures n < |s| || n == 0
    ensures n > 0 ==> IsName(s[..n]) && s[n] == '='
  {
    var n := NameLength(s);
    if n < |s| && s[n] == '=' && IsName(s[..n]) then n else 0
  }

  /** Runs statements separated by `; ` under `set -e`. Assignments with no command after them set
      shell variables, and the status of their last command substitution is the statement's: a failed
      one stops the script. Assignments in front of a command, collected in `pending`, go to its
      environment, and the command runs however they went (section 2.9.1 of the POSIX Shell Command
      Language). */
  function Statements(s: string, vars: Vars, pending: Env, status: Status, files: Files): Outcome
    decreases |s|
  {
    var n := Assigned(s);
    if n == 0 then Invoked(pending, s, vars)
    else
      var w := Unquoted(s[n + 1..], vars + pending, files);
      if w.Bad? then Stopped
      else if "; " <= w.rest then
        if Then(status, w.status).Unread? then Stopped
        else Statements(w.rest[2..], vars + pending[s[..n] := w.value], map[], Unset, files)
      else if " " <= w.rest then
        Statements(w.rest[1..], vars, pending[s[..n] := w.value], Then(status, w.status), files)
      else Stopped
  }

  function Script(s: string, vars: Vars, files: Files): Outcome {
    Statements(s, vars, map[], Unset, files)
  }

  /** Parentheses run a directive in a subshell, which keeps the variables of the caller. */
  function Run(s: string, vars: Vars, files: Files): Outcome {
    if |s| >= 2 && s[0] == '(' then
      if s[|s| - 1] != ')' then Stopped
      else
        match Script(s[1..|s| - 1], vars, files)
        case Stopped => Stopped
        case Invoked(env, command, after) => Invoked(env, command, vars)
    else Script(s, vars, files)
  }

  /** A command that does not itself start with an assignment or a subshell. */
  predicate IsCommand(c: string) {
    c != [] && c[0] != '(' && Assigned(c) == 0
  }

  // ---- What the directive is.

  predicate Apart(env: Env, standalone: seq<string>, k: string)
    requires k in env
  {
    k in standalone || ReadsSecret(env[k])
  }

  function Assignment(quote: string -> string, env: Env, k: string): string
    requires k in env
  {
    k + "=" + Format(quote, env[k])
  }

  function PrefixPart(quote: string -> string, env: Env, standalone: seq<string>, k: string): string
    requires k in env
  {
    if Apart(env, standalone, k) then k + "=" + ("\"$" + k + "\"") else Assignment(quote, env, k)
  }

  ghost predicate Keys(env: Env, keys: seq<string>) {
    forall i :: 0 <= i < |keys| ==> keys[i] in env
  }

  function Assignments(quote: string -> string, env: Env, standalone: seq<string>, keys: seq<string>): seq<string>
    requires Keys(env, keys)
  {
    if keys == [] then []
    else
      var rest := Assignments(quote, env, standalone, keys[1..]);
      if Apart(env, standalone, keys[0]) then [Assignment(quote, env, keys[0])] + rest else rest
  }

  function PrefixParts(quote: string -> string, env: Env, standalone: seq<string>, keys: seq<string>): seq<string>
    requires Keys(env, keys)
  {
    if keys == [] then []
    else [PrefixPart(quote, env, standalone, keys[0])] + PrefixParts(quote, env, standalone, keys[1..])
  }

  function Join(items: seq<string>, sep: string): string {
    if items == [] then ""
    else if |items| == 1 then items[0]
    else items[0] + sep + Join(items[1..], sep)
  }

  /** Every item followed by the separator. */
  function Ended(items: seq<string>, sep: string): string {
    if items == [] then "" else items[0] + sep + Ended(items[1..], sep)
  }

  lemma {:induction false} JoinLast(items: seq<string>, sep: string, last: string)
    ensures Join(items + [last], sep) == Ended(items, sep) + last
    decreases |items|
  {
    if items == [] {
      assert items + [last] == [last];
    } else {
      assert (items + [last])[1..] == items[1..] + [last];
      JoinLast(items[1..], sep, last);
      assert items[0] + sep + (Ended(items[1..], sep) + last) == items[0] + sep + Ended(items[1..], sep) + last;
    }
  }

  lemma {:induction false} JoinEnded(items: seq<string>, sep: string)
    requires items != []
    ensures Join(items, sep) + sep == Ended(items, sep)
    decreases |items|
  {
    if |items| == 1 {
      assert items[1..] == [];
      assert items[0] + sep + "" == items[0] + sep;
    } else {
      JoinEnded(items[1..], sep);
      assert items[0] + sep + Join(items[1..], sep) + sep == items[0] + sep + (Join(items[1..], sep) + sep);
    }
  }

  /** The statements for the keys from the first on, then the prefix and the command. */
  function AssignText(quote: string -> string, env: Env, standalone: seq<string>, keys: seq<string>): string
    requires Keys(env, keys)
  {
    Ended(Assignments(quote, env, standalone, keys), "; ")
  }

  function PrefixText(quote: string -> string, env: Env, standalone: seq<string>, keys: seq<string>): string
    requires Keys(env, keys)
  {
    Ended(PrefixParts(quote, env, standalone, keys), " ")
  }

  // ---- One assignment.

  lemma AssignedIs(k: string, rest: string)
    requires IsName(k)
    ensures Assigned(k + "=" + rest) == |k|
    ensures (k + "=" + rest)[..|k|] == k && (k + "=" + rest)[|k| + 1..] == rest
  {
    var s := k + "=" + rest;
    assert s == k + ("=" + rest);
    NameLengthIs(k, "=" + rest);
    assert s[..|k|] == k;
  }

  lemma StatementEnds(s: string, k: string, piece: Piece, rest: string, text: string, vars: Vars, files: Files)
    requires k != [] && Assigned(s) == |k| && s[..|k|] == k && text == "; " + rest
    requires Unquoted(s[|k| + 1..], vars, files) == Word(piece.text, text, piece.status)
    ensures Script(s, vars, files) ==
            if piece.status.Unread? then Stopped else Script(rest, vars[k := piece.text], files)
  {
    assert text[2..] == rest && "; " <= text;
    assert vars + map[] == vars && vars + map[][k := piece.text] == vars[k := piece.text];
  }

  lemma PrefixGoesOn(s: string, k: string, piece: Piece, rest: string, text: string, vars: Vars, pending: Env, status: Status, files: Files)
    requires k != [] && Assigned(s) == |k| && s[..|k|] == k && text == " " + rest
    requires Unquoted(s[|k| + 1..], vars + pending, files) == Word(piece.text, text, piece.status)
    ensures Statements(s, vars, pending, status, files) ==
            Statements(rest, vars, pending[k := piece.text], Then(status, piece.status), files)
  {
    assert text[1..] == rest && " " <= text && text[0] != ';';
  }

  lemma WordStops(piece: Piece, text: string, vars: Vars, files: Files)
    requires text != [] && EndsWord(text[0])
    ensures Prepend(piece, Unquoted(text, vars, files)) == Word(piece.text, text, piece.status)
  {
    assert piece.text + "" == piece.text;
  }

  /** A word in a statement of its own: a failed last substitution stops the script. */
  lemma StatementRuns(k: string, word: string, rest: string, piece: Piece, vars: Vars, files: Files)
    requires IsName(k)
    requires Unquoted(word + ("; " + rest), vars, files) == Prepend(piece, Unquoted("; " + rest, vars, files))
    ensures Script(k + "=" + (word + ("; " + rest)), vars, files) ==
            if piece.status.Unread? then Stopped else Script(rest, vars[k := piece.text], files)
  {
    var text := "; " + rest;
    AssignedIs(k, word + text);
    WordStops(piece, text, vars, files);
    StatementEnds(k + "=" + (word + text), k, piece, rest, text, vars, files);
  }

  /** A word in front of a command: however its substitutions went, the text goes on. */
  lemma PrefixRuns(k: string, word: string, rest: string, piece: Piece, vars: Vars, pending: Env, status: Status, files: Files)
    requires IsName(k)
    requires Unquoted(word + (" " + rest), vars + pending, files) == Prepend(piece, Unquoted(" " + rest, vars + pending, files))
    ensures Statements(k + "=" + (word + (" " + rest)), vars, pending, status, files) ==
            Statements(rest, vars, pending[k := piece.text], Then(status, piece.status), files)
  {
    var text := " " + rest;
    AssignedIs(k, word + text);
    WordStops(piece, text, vars + pending, files);
    PrefixGoesOn(k + "=" + (word + text), k, piece, rest, text, vars, pending, status, files);
  }

  /** Why values read from a secret are assigned on their own: in the prefix, an unreadable one would
      let the command run with whatever the rest of the value is. */
  lemma PrefixHidesFailure(quote: string -> string, k: string, v: string, command: string, vars: Vars, files: Files)
    requires Quotes(quote) && IsName(k) && IsCommand(command)
    ensures Script(k + "=" + (Format(quote, v) + (" " + command)), vars, files) ==
            Invoked(map[k := Expansion(v, files).text], command, vars)
  {
    FormatEvaluates(quote, v, " " + command, vars + map[], files);
    PrefixRuns(k, Format(quote, v), command, Expansion(v, files), vars, map[], Unset, files);
  }

  // ---- All of them.

  /** What the shell hands over. */
  function EnvExpansion(env: Env, files: Files): Env {
    map k | k in env :: Expansion(env[k], files).text
  }

  predicate Readable(env: Env, files: Files) {
    forall k :: k in env ==> Meaning(env[k], files).Some?
  }

  /** Some value ends in a secret that is not there: the last reference it reads is unreadable. */
  predicate EndsUnreadable(env: Env, files: Files) {
    exists k :: k in env && LastUnreadable(env[k], files)
  }

  function AfterAssignments(env: Env, standalone: seq<string>, keys: seq<string>, vars: Vars, files: Files): Option<Vars>
    requires Keys(env, keys)
    decreases |keys|
  {
    if keys == [] then Some(vars)
    else if !Apart(env, standalone, keys[0]) then AfterAssignments(env, standalone, keys[1..], vars, files)
    else if Expansion(env[keys[0]], files).status.Unread? then None
    else AfterAssignments(env, standalone, keys[1..], vars[keys[0] := Expansion(env[keys[0]], files).text], files)
  }

  function PrefixEnv(env: Env, standalone: seq<string>, keys: seq<string>, vars: Vars, pending: Env): Env
    requires Keys(env, keys)
    decreases |keys|
  {
    if keys == [] then pending
    else
      var k := keys[0];
      var value := if Apart(env, standalone, k) then Lookup(vars + pending, k) else Expansion(env[k], map[]).text;
      PrefixEnv(env, standalone, keys[1..], vars, pending[k := value])
  }

  lemma {:induction false} AssignmentsRun(quote: string -> string, env: Env, standalone: seq<string>, keys: seq<string>,
                                          rest: string, vars: Vars, files: Files)
    requires Quotes(quote) && Keys(env, keys) && forall k :: k in env ==> IsName(k)
    ensures Script(AssignText(quote, env, standalone, keys) + rest, vars, files) ==
            var after := AfterAssignments(env, standalone, keys, vars, files);
            if after.None? then Stopped else Script(rest, after.value, files)
    decreases |keys|
  {
    if keys == [] {
      assert "" + rest == rest;
    } else {
      var k, tail := keys[0], AssignText(quote, env, standalone, keys[1..]);
      if Apart(env, standalone, k) {
        var word, piece := Format(quote, env[k]), Expansion(env[k], files);
        AssignTextStep(quote, env, standalone, keys, rest);
        FormatEvaluates(quote, env[k], "; " + (tail + rest), vars, files);
        StatementRuns(k, word, tail + rest, piece, vars, files);
        if !piece.status.Unread? { AssignmentsRun(quote, env, standalone, keys[1..], rest, vars[k := piece.text], files); }
      } else {
        AssignmentsRun(quote, env, standalone, keys[1..], rest, vars, files);
      }
    }
  }

  lemma AssignTextStep(quote: string -> string, env: Env, standalone: seq<string>, keys: seq<string>, rest: string)
    requires Keys(env, keys) && keys != [] && Apart(env, standalone, keys[0])
    ensures AssignText(quote, env, standalone, keys) + rest ==
            keys[0] + "=" + (Format(quote, env[keys[0]]) + ("; " + (AssignText(quote, env, standalone, keys[1..]) + rest)))
  {
    var items := Assignments(quote, env, standalone, keys);
    assert items[1..] == Assignments(quote, env, standalone, keys[1..]);
  }

  lemma PrefixTextStep(quote: string -> string, env: Env, standalone: seq<string>, keys: seq<string>, word: string, rest: string)
    requires Keys(env, keys) && keys != [] && PrefixPart(quote, env, standalone, keys[0]) == keys[0] + "=" + word
    ensures PrefixText(quote, env, standalone, keys) + rest ==
            keys[0] + "=" + (word + (" " + (PrefixText(quote, env, standalone, keys[1..]) + rest)))
  {
    var items := PrefixParts(quote, env, standalone, keys);
    assert items[1..] == PrefixParts(quote, env, standalone, keys[1..]);
  }

  /** The prefix reads no file: what it evaluates to depends on the variables alone. */
  lemma {:induction false} PrefixReadsNoSecret(quote: string -> string, env: Env, standalone: seq<string>, keys: seq<string>,
                                               command: string, vars: Vars, pending: Env, status: Status, files: Files)
    requires Quotes(quote) && Keys(env, keys) && IsCommand(command) && forall k :: k in env ==> IsName(k)
    ensures Statements(PrefixText(quote, env, standalone, keys) + command, vars, pending, status, files) ==
            Invoked(PrefixEnv(env, standalone, keys, vars, pending), command, vars)
    decreases |keys|
  {
    if keys == [] {
      assert "" + command == command;
    } else {
      var k, after := keys[0], PrefixText(quote, env, standalone, keys[1..]) + command;
      if Apart(env, standalone, k) {
        var word, value := "\"$" + k + "\"", Lookup(vars + pending, k);
        PrefixTextStep(quote, env, standalone, keys, word, command);
        VariableEvaluates(k, " " + after, vars + pending, files);
        PrefixRuns(k, word, after, Plain(value), vars, pending, status, files);
        PrefixReadsNoSecret(quote, env, standalone, keys[1..], command, vars, pending[k := value], status, files);
      } else {
        var word, piece := Format(quote, env[k]), Expansion(env[k], files);
        PrefixTextStep(quote, env, standalone, keys, word, command);
        ExpansionNeedsFiles(env[k], files);
        FormatEvaluates(quote, env[k], " " + after, vars + pending, files);
        PrefixRuns(k, word, after, piece, vars, pending, status, files);
        PrefixReadsNoSecret(quote, env, standalone, keys[1..], command, vars, pending[k := piece.text], status, files);
      }
    }
  }

  // ---- What the command gets.

  /** Every standalone key holds what its value expands to. */
  ghost predicate Set(env: Env, standalone: seq<string>, keys: seq<string>, vars: Vars, files: Files)
    requires Keys(env, keys)
  {
    forall i :: 0 <= i < |keys| && Apart(env, standalone, keys[i]) ==> Holds(env, keys[i], vars, files)
  }

  ghost predicate Holds(env: Env, k: string, vars: Vars, files: Files) {
    k in env && k in vars && vars[k] == Expansion(env[k], files).text
  }

  lemma UnreadIsLast(v: string, files: Files)
    ensures Expansion(v, files).status.Unread? <==> LastUnreadable(v, files)
    ensures !ReadsSecret(v) ==> !LastUnreadable(v, files)
  {
    StatusIsLast(v, files);
    if !ReadsSecret(v) { ExpansionNeedsFiles(v, files); }
  }

  /** The assignments stop exactly if the last secret of some value cannot be read; an earlier one of
      the same value is not noticed. */
  lemma {:induction false} AssignmentsExact(env: Env, standalone: seq<string>, keys: seq<string>, vars: Vars, files: Files)
    requires Keys(env, keys)
    ensures var after := AfterAssignments(env, standalone, keys, vars, files);
            && (after.None? <==> exists i :: 0 <= i < |keys| && LastUnreadable(env[keys[i]], files))
            && (after.Some? ==> Set(env, standalone, keys, after.value, files))
            && (after.Some? ==> forall k :: Holds(env, k, vars, files) ==> Holds(env, k, after.value, files))
    decreases |keys|
  {
    if keys != [] {
      var k, piece, rest := keys[0], Expansion(env[keys[0]], files), keys[1..];
      assert forall i :: 0 <= i < |rest| ==> rest[i] == keys[i + 1];
      assert forall i :: 0 < i < |keys| ==> rest[i - 1] == keys[i];
      UnreadIsLast(env[k], files);
      if !Apart(env, standalone, k) {
        AssignmentsExact(env, standalone, rest, vars, files);
      } else if !piece.status.Unread? {
        AssignmentsExact(env, standalone, rest, vars[k := piece.text], files);
        assert Holds(env, k, vars[k := piece.text], files);
      }
    }
  }

  ghost predicate Partial(env: Env, pending: Env, files: Files) {
    forall k :: k in pending ==> Holds(env, k, pending, files)
  }

  lemma {:induction false} PrefixExact(env: Env, standalone: seq<string>, keys: seq<string>, vars: Vars, pending: Env, files: Files)
    requires Keys(env, keys) && Set(env, standalone, keys, vars, files) && Partial(env, pending, files)
    ensures var all := PrefixEnv(env, standalone, keys, vars, pending);
            Partial(env, all, files) && forall k :: k in all <==> k in pending || k in keys
    decreases |keys|
  {
    if keys != [] {
      var k, rest := keys[0], keys[1..];
      var value := if Apart(env, standalone, k) then Lookup(vars + pending, k) else Expansion(env[k], map[]).text;
      assert Expansion(env[k], files).text == value by {
        if Apart(env, standalone, k) {
          assert Holds(env, k, vars, files);
          assert k in pending ==> Holds(env, k, pending, files);
        } else {
          ExpansionNeedsFiles(env[k], files);
        }
      }
      assert Set(env, standalone, rest, vars, files) by {
        assert forall i :: 0 <= i < |rest| ==> rest[i] == keys[i + 1];
      }
      assert Holds(env, k, pending[k := value], files);
      assert Partial(env, pending[k := value], files) by {
        assert forall j :: j in pending ==> Holds(env, j, pending, files);
      }
      PrefixExact(env, standalone, rest, vars, pending[k := value], files);
      assert keys == [k] + rest;
    }
  }

  /** Running the assignments and then the prefix: it stops exactly if the last secret of some value
      is unreadable, and otherwise the command gets every value as the shell expands it. */
  lemma ScriptRuns(quote: string -> string, env: Env, standalone: seq<string>, keys: seq<string>, command: string,
                   vars: Vars, files: Files)
    requires Quotes(quote) && IsCommand(command) && forall k :: k in env ==> IsName(k)
    requires Keys(env, keys) && forall k :: k in keys <==> k in env
    ensures var after := AfterAssignments(env, standalone, keys, vars, files);
            && (after.None? <==> EndsUnreadable(env, files))
            && Script(AssignText(quote, env, standalone, keys) + (PrefixText(quote, env, standalone, keys) + command), vars, files) ==
               if after.None? then Stopped else Invoked(EnvExpansion(env, files), command, after.value)
  {
    var after := AfterAssignments(env, standalone, keys, vars, files);
    AssignmentsRun(quote, env, standalone, keys, PrefixText(quote, env, standalone, keys) + command, vars, files);
    AssignmentsExact(env, standalone, keys, vars, files);
    UnreadableKeys(env, keys, files);
    if after.Some? {
      PrefixReadsNoSecret(quote, env, standalone, keys, command, after.value, map[], Unset, files);
      PrefixExact(env, standalone, keys, after.value, map[], files);
      EnvIs(env, PrefixEnv(env, standalone, keys, after.value, map[]), files);
    }
  }

  lemma UnreadableKeys(env: Env, keys: seq<string>, files: Files)
    requires Keys(env, keys) && forall k :: k in keys <==> k in env
    ensures EndsUnreadable(env, files) <==> exists i :: 0 <= i < |keys| && LastUnreadable(env[keys[i]], files)
  {
    if i :| 0 <= i < |keys| && LastUnreadable(env[keys[i]], files) { assert keys[i] in env; }
  }

  lemma EnvIs(env: Env, all: Env, files: Files)
    requires Partial(env, all, files) && forall k :: k in all <==> k in env
    ensures all == EnvExpansion(env, files)
  {
    forall k | k in all ensures all[k] == EnvExpansion(env, files)[k] { assert Holds(env, k, all, files); }
  }

  // ---- The whole directive.

  /** Which variables get a statement of their own: those listed, and those that read a secret. */
  lemma {:induction false} StatementsExact(quote: string -> string, env: Env, standalone: seq<string>, keys: seq<string>, k: string)
    requires Keys(env, keys) && k in env && k in keys && forall n :: n in env ==> IsName(n)
    ensures (exists i :: 0 <= i < |Assignments(quote, env, standalone, keys)|
                         && k + "=" <= Assignments(quote, env, standalone, keys)[i]) <==>
            k in standalone || ReadsSecret(env[k])
    decreases |keys|
  {
    if k in standalone || ReadsSecret(env[k]) {
      StatementGiven(quote, env, standalone, keys, k);
    } else {
      StatementNotGiven(quote, env, standalone, keys, k);
    }
  }

  lemma {:induction false} StatementGiven(quote: string -> string, env: Env, standalone: seq<string>, keys: seq<string>, k: string)
    requires Keys(env, keys) && k in keys && k in env && (k in standalone || ReadsSecret(env[k]))
    ensures exists i :: 0 <= i < |Assignments(quote, env, standalone, keys)|
                        && k + "=" <= Assignments(quote, env, standalone, keys)[i]
    decreases |keys|
  {
    var items, rest := Assignments(quote, env, standalone, keys), Assignments(quote, env, standalone, keys[1..]);
    if keys[0] == k {
      assert k + "=" <= items[0];
    } else {
      assert k in keys[1..] by { assert keys == [keys[0]] + keys[1..]; }
      StatementGiven(quote, env, standalone, keys[1..], k);
      var i :| 0 <= i < |rest| && k + "=" <= rest[i];
      var j := if Apart(env, standalone, keys[0]) then i + 1 else i;
      assert items[j] == rest[i];
    }
  }

  lemma {:induction false} StatementNotGiven(quote: string -> string, env: Env, standalone: seq<string>, keys: seq<string>, k: string)
    requires Keys(env, keys) && k in env && !(k in standalone || ReadsSecret(env[k])) && forall n :: n in env ==> IsName(n)
    ensures forall i :: 0 <= i < |Assignments(quote, env, standalone, keys)| ==>
              !(k + "=" <= Assignments(quote, env, standalone, keys)[i])
    decreases |keys|
  {
    if keys != [] {
      StatementNotGiven(quote, env, standalone, keys[1..], k);
      if Apart(env, standalone, keys[0]) { OtherName(k, keys[0], Format(quote, env[keys[0]])); }
    }
  }

  lemma OtherName(k: string, n: string, word: string)
    requires IsName(k) && IsName(n) && k != n
    ensures !(k + "=" <= n + "=" + word)
  {
    AssignedIs(n, word);
    var text := n + "=" + word;
    if k + "=" <= text {
      var rest := text[|k| + 1..];
      assert text == k + "=" + rest;
      AssignedIs(k, rest);
    }
  }

  function JoinDirective(assignments: seq<string>, commands: seq<string>): string {
    if assignments == [] then Join(commands, "; ") else "(" + Join(assignments + commands, "; ") + ")"
  }

  function PrefixedCommand(prefix: string, command: string): string {
    if prefix != "" then prefix + " " + command else command
  }

  /** The directive for one command, the names in the order `keys`. */
  function Directive(quote: string -> string, env: Env, standalone: seq<string>, keys: seq<string>, command: string): string
    requires Keys(env, keys)
  {
    JoinDirective(Assignments(quote, env, standalone, keys),
                  [PrefixedCommand(Join(PrefixParts(quote, env, standalone, keys), " "), command)])
  }

  /** What the directive does, for every environment and whatever secrets can be read. The variables
      of the calling shell stay as they are. */
  lemma DirectiveRuns(quote: string -> string, env: Env, standalone: seq<string>, keys: seq<string>, command: string,
                      vars: Vars, files: Files)
    requires Quotes(quote) && IsCommand(command) && forall k :: k in env ==> IsName(k)
    requires Keys(env, keys) && forall k :: k in keys <==> k in env
    ensures Run(Directive(quote, env, standalone, keys, command), vars, files) ==
            if EndsUnreadable(env, files) then Stopped else Invoked(EnvExpansion(env, files), command, vars)
  {
    var last := PrefixedCommand(Join(PrefixParts(quote, env, standalone, keys), " "), command);
    LastCommand(quote, env, standalone, keys, Join(PrefixParts(quote, env, standalone, keys), " "), command);
    ScriptRuns(quote, env, standalone, keys, command, vars, files);
    JoinedRuns(quote, env, standalone, keys, command, last, vars, files);
    if Assignments(quote, env, standalone, keys) == [] { NothingAssigned(quote, env, standalone, keys, vars, files); }
  }

  /** The command runs with every reference replaced by its secret or path. */
  predicate Delivered(env: Env, files: Files, outcome: Outcome) {
    outcome.Invoked? && outcome.env.Keys == env.Keys && forall k :: k in env ==> Meaning(env[k], files) == Some(outcome.env[k])
  }

  /** The command gets what is meant if and only if every secret can be read. The promise that it
      otherwise does not run is kept if and only if, of some value, the last secret cannot be. */
  lemma DirectiveExact(quote: string -> string, env: Env, standalone: seq<string>, keys: seq<string>, command: string,
                       vars: Vars, files: Files)
    requires Quotes(quote) && IsCommand(command) && forall k :: k in env ==> IsName(k)
    requires Keys(env, keys) && forall k :: k in keys <==> k in env
    ensures var outcome := Run(Directive(quote, env, standalone, keys, command), vars, files);
            && (Delivered(env, files, outcome) <==> Readable(env, files))
            && (outcome.Stopped? <==> EndsUnreadable(env, files))
  {
    DirectiveRuns(quote, env, standalone, keys, command, vars, files);
    if Readable(env, files) {
      forall k | k in env ensures !LastUnreadable(env[k], files) && Meaning(env[k], files) == Some(Expansion(env[k], files).text) {
        ExpansionMeans(env[k], files);
        StatusIsLast(env[k], files);
      }
    }
  }

  // ---- A secret that is not noticed to be missing.

  const TWO_SECRETS := "%secret:A%:%secret:B%"
  const ONLY_B: Files := map["/run/secrets/B" := "b"]

  /** Of two secrets in one value only the last is there: the command runs all the same, with the
      value cut short. */
  lemma MissingSecretRuns(quote: string -> string, command: string, vars: Vars)
    requires Quotes(quote) && IsCommand(command)
    ensures Meaning(TWO_SECRETS, ONLY_B) == None
    ensures Run(Directive(quote, map["K" := TWO_SECRETS], [], ["K"], command), vars, ONLY_B) ==
            Invoked(map["K" := ":b"], command, vars)
  {
    TwoSecretsExpand();
    OneVariable(quote, "K", TWO_SECRETS, command, vars, ONLY_B);
  }

  lemma OneVariable(quote: string -> string, k: string, v: string, command: string, vars: Vars, files: Files)
    requires Quotes(quote) && IsCommand(command) && IsName(k) && !Expansion(v, files).status.Unread?
    ensures Run(Directive(quote, map[k := v], [], [k], command), vars, files) ==
            Invoked(map[k := Expansion(v, files).text], command, vars)
  {
    StatusIsLast(v, files);
    DirectiveRuns(quote, map[k := v], [], [k], command, vars, files);
    assert EnvExpansion(map[k := v], files) == map[k := Expansion(v, files).text];
  }

  lemma TwoSecretsSplit()
    ensures Split(TWO_SECRETS) == Some([Secret("A"), Literal(":"), Secret("B")])
  {
    var v, first, second := TWO_SECRETS, Match(0, 10, Secret("A")), Match(11, 21, Secret("B"));
    TwoSecretsMatch();
    assert FindAll(v, 21) == [] && FindAll(v, 11) == [second] && FindAll(v, 10) == [second];
    assert FindAll(v, 0) == [first, second];
    assert AllValid([first, second]);
    assert v[10..11] == ":";
    assert PartsOf(v, [], 21) == [] && [first, second][1..] == [second] && [second][1..] == [];
    assert PartsOf(v, [second], 10) == [Literal(":"), Secret("B")];
    assert PartsOf(v, [first, second], 0) == [Secret("A")] + PartsOf(v, [second], 10);
    assert PartsOf(v, [first, second], 0) == [Secret("A"), Literal(":"), Secret("B")];
  }

  lemma TwoSecretsMatch()
    ensures MatchAt(TWO_SECRETS, 0) == Some(Match(0, 10, Secret("A"))) && MatchAt(TWO_SECRETS, 10) == None
    ensures MatchAt(TWO_SECRETS, 11) == Some(Match(11, 21, Secret("B")))
  {
    var v := TWO_SECRETS;
    assert PercentFrom(v, 8) == 9 && PercentFrom(v, 19) == 20;
    assert v[0..8] == SECRET && v[11..19] == SECRET && v[8..9] == "A" && v[19..20] == "B";
    assert SECRET_PATH[7] == '_' && v[10] == ':';
    assert v[10..18][0] == ':' && SECRET[0] == '%';
    assert !PrefixAt(v, 0, SECRET_PATH) && !PrefixAt(v, 10, SECRET_PATH) && !PrefixAt(v, 11, SECRET_PATH);
  }

  lemma TwoSecretsExpand()
    ensures Meaning(TWO_SECRETS, ONLY_B) == None
    ensures Expansion(TWO_SECRETS, ONLY_B) == Piece(":b", Read)
  {
    TwoSecretsSplit();
    var a, c, b := Secret("A"), Literal(":"), Secret("B");
    assert [a, c, b][1..] == [c, b] && [c, b][1..] == [b] && [b][1..] == [];
    assert SECRETS_DIR + "B" == "/run/secrets/B";
    assert (SECRETS_DIR + "A")[13] == 'A' && "/run/secrets/B"[13] == 'B';
    assert Trimmed("b") == "b";
    assert PartsExpansion([b], ONLY_B) == Piece("b", Read);
    assert PartsExpansion([c, b], ONLY_B) == Piece(":b", Read);
  }

  // ---- The code.

  method FormatEnvVars(quote: string -> string, env: Env, standalone: seq<string>)
    returns (assignments: seq<string>, prefix: string, ghost sorted: seq<string>)
    ensures Increasing(sorted) && forall k :: k in sorted <==> k in env
    ensures Keys(env, sorted)
    ensures assignments == Assignments(quote, env, standalone, sorted)
    ensures prefix == Join(PrefixParts(quote, env, standalone, sorted), " ")
  {
    if env == map[] { return [], "", []; }
    var keys := Sort(env.Keys);
    sorted := keys;
    var parts;
    assignments, parts := FormatKeys(quote, env, standalone, keys);
    prefix := Join(parts, " ");
  }

  /** The loop over the sorted names. */
  method FormatKeys(quote: string -> string, env: Env, standalone: seq<string>, keys: seq<string>)
    returns (assignments: seq<string>, parts: seq<string>)
    requires Keys(env, keys)
    ensures assignments == Assignments(quote, env, standalone, keys)
    ensures parts == PrefixParts(quote, env, standalone, keys)
  {
    assignments, parts := [], [];
    var i := 0;
    FormattedStarts(quote, env, standalone, keys);
    while i < |keys|
      invariant 0 <= i <= |keys| && Formatted(quote, env, standalone, keys, i, assignments, parts)
    {
      var key := keys[i];
      var word := FormatPackageEnvValue(quote, env[key]);
      FormattedStep(quote, env, standalone, keys, i, assignments, parts);
      if key !in standalone && !ReadsSecret(env[key]) {
        parts := parts + [key + "=" + word];
      } else {
        assignments := assignments + [key + "=" + word];
        parts := parts + [key + "=" + ("\"$" + key + "\"")];
      }
      i := i + 1;
    }
    FormattedEnds(quote, env, standalone, keys, assignments, parts);
  }

  ghost predicate Formatted(quote: string -> string, env: Env, standalone: seq<string>, keys: seq<string>, i: nat,
                            assignments: seq<string>, parts: seq<string>)
    requires Keys(env, keys) && i <= |keys|
  {
    && Some(assignments + Assignments(quote, env, standalone, keys[i..])) == Some(Assignments(quote, env, standalone, keys))
    && Some(parts + PrefixParts(quote, env, standalone, keys[i..])) == Some(PrefixParts(quote, env, standalone, keys))
  }

  lemma FormattedStarts(quote: string -> string, env: Env, standalone: seq<string>, keys: seq<string>)
    requires Keys(env, keys)
    ensures Formatted(quote, env, standalone, keys, 0, [], [])
  {
    assert keys[0..] == keys;
    var a, p := Assignments(quote, env, standalone, keys), PrefixParts(quote, env, standalone, keys);
    assert [] + a == a && [] + p == p;
  }

  lemma FormattedStep(quote: string -> string, env: Env, standalone: seq<string>, keys: seq<string>, i: nat,
                      assignments: seq<string>, parts: seq<string>)
    requires Keys(env, keys) && i < |keys| && Formatted(quote, env, standalone, keys, i, assignments, parts)
    ensures Formatted(quote, env, standalone, keys, i + 1,
                      if Apart(env, standalone, keys[i]) then assignments + [Assignment(quote, env, keys[i])] else assignments,
                      parts + [PrefixPart(quote, env, standalone, keys[i])])
  {
    var k := keys[i];
    assert keys[i..][0] == k && keys[i..][1..] == keys[i + 1..];
    var a, p := Assignments(quote, env, standalone, keys[i + 1..]), PrefixParts(quote, env, standalone, keys[i + 1..]);
    assert assignments + ([Assignment(quote, env, k)] + a) == assignments + [Assignment(quote, env, k)] + a;
    assert parts + ([PrefixPart(quote, env, standalone, k)] + p) == parts + [PrefixPart(quote, env, standalone, k)] + p;
  }

  lemma FormattedEnds(quote: string -> string, env: Env, standalone: seq<string>, keys: seq<string>,
                      assignments: seq<string>, parts: seq<string>)
    requires Keys(env, keys) && Formatted(quote, env, standalone, keys, |keys|, assignments, parts)
    ensures assignments == Assignments(quote, env, standalone, keys) && parts == PrefixParts(quote, env, standalone, keys)
  {
    assert keys[|keys|..] == [];
    assert assignments + [] == assignments && parts + [] == parts;
  }

  /** The directive for one command, as a caller would run it. */
  method InstallDirective(quote: string -> string, env: Env, standalone: seq<string>, command: string) returns (text: string)
    requires Quotes(quote) && IsCommand(command) && forall k :: k in env ==> IsName(k)
    ensures forall vars, files :: Run(text, vars, files) ==
              if EndsUnreadable(env, files) then Stopped else Invoked(EnvExpansion(env, files), command, vars)
    ensures forall vars, files :: Delivered(env, files, Run(text, vars, files)) <==> Readable(env, files)
  {
    var assignments, prefix, keys := FormatEnvVars(quote, env, standalone);
    text := JoinDirective(assignments, [PrefixedCommand(prefix, command)]);
    forall vars, files
      ensures Run(text, vars, files) ==
              if EndsUnreadable(env, files) then Stopped else Invoked(EnvExpansion(env, files), command, vars)
      ensures Delivered(env, files, Run(text, vars, files)) <==> Readable(env, files)
    {
      DirectiveRuns(quote, env, standalone, keys, command, vars, files);
      DirectiveExact(quote, env, standalone, keys, command, vars, files);
    }
  }

  lemma LastCommand(quote: string -> string, env: Env, standalone: seq<string>, keys: seq<string>, prefix: string, command: string)
    requires Keys(env, keys) && prefix == Join(PrefixParts(quote, env, standalone, keys), " ")
    requires forall k :: k in env ==> IsName(k)
    ensures PrefixedCommand(prefix, command) == PrefixText(quote, env, standalone, keys) + command
  {
    var parts := PrefixParts(quote, env, standalone, keys);
    if keys != [] {
      JoinEnded(parts, " ");
      assert keys[0] in env && prefix[0] == parts[0][0];
    }
  }

  /** Without a secret to read there is no subshell, and no variable it would have to protect. */
  lemma {:induction false} NothingAssigned(quote: string -> string, env: Env, standalone: seq<string>, keys: seq<string>,
                                           vars: Vars, files: Files)
    requires Keys(env, keys) && Assignments(quote, env, standalone, keys) == []
    ensures AfterAssignments(env, standalone, keys, vars, files) == Some(vars)
    decreases |keys|
  {
    if keys != [] { NothingAssigned(quote, env, standalone, keys[1..], vars, files); }
  }

  lemma PrefixTextStarts(quote: string -> string, env: Env, standalone: seq<string>, keys: seq<string>, command: string)
    requires Keys(env, keys) && IsCommand(command) && forall k :: k in env ==> IsName(k)
    ensures var s := PrefixText(quote, env, standalone, keys) + command; s != [] && s[0] != '('
  {
    if keys != [] {
      assert keys[0] in env;
      var part := PrefixPart(quote, env, standalone, keys[0]);
      assert part[0] == keys[0][0];
    }
  }

  lemma JoinedRuns(quote: string -> string, env: Env, standalone: seq<string>, keys: seq<string>, command: string, last: string,
                   vars: Vars, files: Files)
    requires Keys(env, keys) && IsCommand(command) && forall k :: k in env ==> IsName(k)
    requires last == PrefixText(quote, env, standalone, keys) + command
    ensures var text := JoinDirective(Assignments(quote, env, standalone, keys), [last]);
            var inside := Script(AssignText(quote, env, standalone, keys) + last, vars, files);
            Run(text, vars, files) ==
            if inside.Stopped? then Stopped
            else if Assignments(quote, env, standalone, keys) == [] then inside
            else Invoked(inside.env, inside.command, vars)
  {
    var items := Assignments(quote, env, standalone, keys);
    if items == [] {
      assert AssignText(quote, env, standalone, keys) + last == last;
      PrefixTextStarts(quote, env, standalone, keys, command);
    } else {
      JoinLast(items, "; ", last);
      var s := AssignText(quote, env, standalone, keys) + last;
      assert ("(" + s + ")")[1..|s| + 1] == s;
    }
  }
}
