/** The part of shell word evaluation generated scripts rely on: quoting, variables and `$(<file)`
    (sections 2.2 and 2.6 of the POSIX Shell Command Language, and the file form of command
    substitution of bash). A file that cannot be read expands to nothing and leaves a failed status,
    which the next substitution of the word overwrites. Anything else evaluates to `Bad`. */
module ShellWords {
  type Vars = map<string, string>
  type Files = map<string, string>

  /** How the last command substitution of a word went, if it has one. */
  datatype Status = Unset | Read | Unread

  function Then(earlier: Status, later: Status): Status {
    if later.Unset? then earlier else later
  }

  /** What a part of a word expands to. */
  datatype Piece = Piece(text: string, status: Status)

  function Plain(text: string): Piece { Piece(text, Unset) }

  function Sum(a: Piece, b: Piece): Piece { Piece(a.text + b.text, Then(a.status, b.status)) }

  /** The value of the word, the text after it, and the status its substitutions leave. */
  datatype Word = Bad | Word(value: string, rest: string, status: Status)

  function Prepend(p: Piece, w: Word): Word {
    if w.Bad? then Bad else Word(p.text + w.value, w.rest, Then(p.status, w.status))
  }

  predicate Letter(c: char) { 'a' <= c <= 'z' || 'A' <= c <= 'Z' || c == '_' }
  predicate Digit(c: char) { '0' <= c <= '9' }
  predicate NameChar(c: char) { Letter(c) || Digit(c) }

  /** Names a shell takes for variables. */
  predicate IsName(n: string) {
    n != [] && Letter(n[0]) && forall i :: 0 <= i < |n| ==> NameChar(n[i])
  }

  /** Characters that end an unquoted word. */
  predicate EndsWord(c: char) {
    || c == ' ' || c == '\t' || c == '\n' || c == ';' || c == '&'
    || c == '|' || c == '(' || c == ')' || c == '<' || c == '>'
  }

  /** Unquoted characters with a meaning this evaluator does not cover. */
  predicate Unsupported(c: char) {
    c == '$' || c == '`' || c == '*' || c == '?' || c == '[' || c == '~' || c == '#'
  }

  function NameLength(s: string): (n: nat)
    ensures n <= |s|
  {
    if s != [] && NameChar(s[0]) then 1 + NameLength(s[1..]) else 0
  }

  function ParenLength(s: string): (n: nat)
    ensures n <= |s|
  {
    if s == [] || s[0] == ')' then 0 else 1 + ParenLength(s[1..])
  }

  /** Characters a file name needs no quotes for. */
  predicate PlainPath(p: string) {
    p != [] && forall i :: 0 <= i < |p| ==> NameChar(p[i]) || p[i] == '/' || p[i] == '.' || p[i] == '-'
  }

  /** Command substitution drops all trailing newlines. */
  function Trimmed(s: string): string {
    if s != [] && s[|s| - 1] == '\n' then Trimmed(s[..|s| - 1]) else s
  }

  /** Exactly the newlines at the end go. */
  lemma {:induction false} TrimmedExact(s: string)
    ensures Trimmed(s) <= s && forall i :: |Trimmed(s)| <= i < |s| ==> s[i] == '\n'
    ensures Trimmed(s) != [] ==> Trimmed(s)[|Trimmed(s)| - 1] != '\n'
    decreases |s|
  {
    if s != [] && s[|s| - 1] == '\n' {
      var t := s[..|s| - 1];
      TrimmedExact(t);
      forall i | |Trimmed(s)| <= i < |s| ensures s[i] == '\n' { if i < |t| { assert s[i] == t[i]; } }
    }
  }

  /** What `$(<path)` expands to. */
  function Contents(files: Files, path: string): Piece {
    if path in files then Piece(Trimmed(files[path]), Read) else Piece("", Unread)
  }

  function Lookup(vars: Vars, n: string): string {
    if n in vars then vars[n] else ""
  }

  function Unquoted(s: string, vars: Vars, files: Files): (w: Word)
    ensures w.Word? ==> |w.rest| <= |s|
    decreases |s|
  {
    if s == [] || EndsWord(s[0]) then Word("", s, Unset)
    else if s[0] == '\'' then Single(s[1..], vars, files)
    else if s[0] == '"' then Double(s[1..], vars, files)
    else if s[0] == '\\' then
      if |s| < 2 || s[1] == '\n' then Bad else Prepend(Plain([s[1]]), Unquoted(s[2..], vars, files))
    else if Unsupported(s[0]) then Bad
    else Prepend(Plain([s[0]]), Unquoted(s[1..], vars, files))
  }

  function Single(s: string, vars: Vars, files: Files): (w: Word)
    ensures w.Word? ==> |w.rest| <= |s|
    decreases |s|
  {
    if s == [] then Bad
    else if s[0] == '\'' then Unquoted(s[1..], vars, files)
    else Prepend(Plain([s[0]]), Single(s[1..], vars, files))
  }

  function Double(s: string, vars: Vars, files: Files): (w: Word)
    ensures w.Word? ==> |w.rest| <= |s|
    decreases |s|
  {
    if s == [] || s[0] == '\\' || s[0] == '`' then Bad
    else if s[0] == '"' then Unquoted(s[1..], vars, files)
    else if "$(<" <= s then
      var n := ParenLength(s[3..]);
      var path := s[3..3 + n];
      if 3 + n == |s| || !PlainPath(path) then Bad
      else Prepend(Contents(files, path), Double(s[4 + n..], vars, files))
    else if s[0] == '$' then
      var n := NameLength(s[1..]);
      var name := s[1..1 + n];
      if !IsName(name) then Bad else Prepend(Plain(Lookup(vars, name)), Double(s[1 + n..], vars, files))
    else Prepend(Plain([s[0]]), Double(s[1..], vars, files))
  }

  lemma PrependSum(a: Piece, b: Piece, w: Word)
    ensures Prepend(a, Prepend(b, w)) == Prepend(Sum(a, b), w)
  {
    if w.Word? { assert a.text + (b.text + w.value) == a.text + b.text + w.value; }
  }

  lemma PrependNothing(w: Word)
    ensures Prepend(Plain(""), w) == w
  {
    if w.Word? { assert "" + w.value == w.value; }
  }

  // ---- Quoting.

  /** Quoted text evaluates to itself, wherever in a word it stands. */
  ghost predicate Quotes(quote: string -> string) {
    forall s, rest, vars, files :: Unquoted(quote(s) + rest, vars, files) == Prepend(Plain(s), Unquoted(rest, vars, files))
  }

  /** `'` becomes `'\\''`. */
  function EscapedChar(c: char): string { if c == '\'' then "'\\''" else [c] }

  function Escaped(v: string): string {
    if v == [] then [] else EscapedChar(v[0]) + Escaped(v[1..])
  }

  function SingleQuoted(v: string): string {
    "'" + Escaped(v) + "'"
  }

  lemma {:induction false} EscapedEvaluates(v: string, rest: string, vars: Vars, files: Files)
    ensures Single(Escaped(v) + "'" + rest, vars, files) == Prepend(Plain(v), Unquoted(rest, vars, files))
    decreases |v|
  {
    if v == [] {
      assert Escaped(v) + "'" + rest == "'" + rest;
      CloseSingle(rest, vars, files);
    } else {
      var tail := Escaped(v[1..]) + "'" + rest;
      EscapedEvaluates(v[1..], rest, vars, files);
      EscapedStep(v, rest);
      CharEvaluates(v[0], tail, vars, files);
      PrependSum(Plain([v[0]]), Plain(v[1..]), Unquoted(rest, vars, files));
      assert [v[0]] + v[1..] == v;
    }
  }

  lemma EscapedStep(v: string, rest: string)
    requires v != []
    ensures Escaped(v) + "'" + rest == EscapedChar(v[0]) + (Escaped(v[1..]) + "'" + rest)
  {
  }

  lemma CharEvaluates(c: char, tail: string, vars: Vars, files: Files)
    ensures Single(EscapedChar(c) + tail, vars, files) == Prepend(Plain([c]), Single(tail, vars, files))
  {
    if c == '\'' { QuoteInside(tail, vars, files); } else { assert ([c] + tail)[1..] == tail; }
  }

  lemma CloseSingle(rest: string, vars: Vars, files: Files)
    ensures Single("'" + rest, vars, files) == Prepend(Plain(""), Unquoted(rest, vars, files))
  {
    assert ("'" + rest)[1..] == rest;
    PrependNothing(Unquoted(rest, vars, files));
  }

  lemma QuoteInside(tail: string, vars: Vars, files: Files)
    ensures Single("'\\''" + tail, vars, files) == Prepend(Plain("'"), Single(tail, vars, files))
  {
    var a, b := "\\''" + tail, "'" + tail;
    assert ("'\\''" + tail)[0] == '\'' && ("'\\''" + tail)[1..] == a;
    assert a[0] == '\\' && a[1] == '\'' && a[2..] == b;
    assert b[0] == '\'' && b[1..] == tail;
    assert Unquoted(b, vars, files) == Single(tail, vars, files);
    assert Unquoted(a, vars, files) == Prepend(Plain("'"), Unquoted(b, vars, files));
  }

  /** Single-quote parsing undoes the quoting of the exports, for every string. */
  lemma SingleQuotedQuotes()
    ensures Quotes(SingleQuoted)
  {
    forall s, rest, vars, files
      ensures Unquoted(SingleQuoted(s) + rest, vars, files) == Prepend(Plain(s), Unquoted(rest, vars, files))
    {
      var text := Escaped(s) + "'" + rest;
      assert SingleQuoted(s) + rest == "'" + text;
      assert ("'" + text)[1..] == text;
      EscapedEvaluates(s, rest, vars, files);
    }
  }

  /** Characters that mean themselves without quotes. */
  predicate Harmless(c: char) {
    || 'a' <= c <= 'z' || 'A' <= c <= 'Z' || '0' <= c <= '9' || c == '_' || c == '@' || c == '%'
    || c == '+' || c == '=' || c == ':' || c == ',' || c == '.' || c == '/' || c == '-'
  }

  /** Quotes only where there is need to. */
  function QuotedIfNeeded(v: string): string {
    if v != [] && forall i :: 0 <= i < |v| ==> Harmless(v[i]) then v else SingleQuoted(v)
  }

  lemma {:induction false} HarmlessEvaluates(v: string, rest: string, vars: Vars, files: Files)
    requires forall i :: 0 <= i < |v| ==> Harmless(v[i])
    ensures Unquoted(v + rest, vars, files) == Prepend(Plain(v), Unquoted(rest, vars, files))
    decreases |v|
  {
    if v == [] {
      assert v + rest == rest;
      PrependNothing(Unquoted(rest, vars, files));
    } else {
      HarmlessEvaluates(v[1..], rest, vars, files);
      CharUnquoted(v[0], v[1..] + rest, vars, files);
      assert v + rest == [v[0]] + (v[1..] + rest);
      PrependSum(Plain([v[0]]), Plain(v[1..]), Unquoted(rest, vars, files));
      assert [v[0]] + v[1..] == v;
    }
  }

  lemma CharUnquoted(c: char, tail: string, vars: Vars, files: Files)
    requires Harmless(c)
    ensures Unquoted([c] + tail, vars, files) == Prepend(Plain([c]), Unquoted(tail, vars, files))
  {
    assert ([c] + tail)[1..] == tail;
  }

  /** Such quoting, too, is undone wherever in a word it stands. */
  lemma QuotedIfNeededQuotes()
    ensures Quotes(QuotedIfNeeded)
  {
    SingleQuotedQuotes();
    forall s, rest, vars, files
      ensures Unquoted(QuotedIfNeeded(s) + rest, vars, files) == Prepend(Plain(s), Unquoted(rest, vars, files))
    {
      if QuotedIfNeeded(s) == s && s != [] && forall i :: 0 <= i < |s| ==> Harmless(s[i]) {
        HarmlessEvaluates(s, rest, vars, files);
      }
    }
  }

  // ---- Variables and files in double quotes.

  lemma {:induction false} NameLengthIs(n: string, rest: string)
    requires forall i :: 0 <= i < |n| ==> NameChar(n[i])
    requires rest == [] || !NameChar(rest[0])
    ensures NameLength(n + rest) == |n|
    decreases |n|
  {
    if n == [] {
      assert n + rest == rest;
    } else {
      assert (n + rest)[1..] == n[1..] + rest;
      NameLengthIs(n[1..], rest);
    }
  }

  lemma {:induction false} ParenLengthIs(p: string, rest: string)
    requires forall i :: 0 <= i < |p| ==> p[i] != ')'
    ensures ParenLength(p + ")" + rest) == |p|
    decreases |p|
  {
    if p != [] {
      assert (p + ")" + rest)[1..] == p[1..] + ")" + rest;
      ParenLengthIs(p[1..], rest);
    }
  }

  /** `"$NAME"` is the variable's value. */
  lemma VariableEvaluates(n: string, rest: string, vars: Vars, files: Files)
    requires IsName(n)
    ensures Unquoted("\"$" + n + "\"" + rest, vars, files) == Prepend(Plain(Lookup(vars, n)), Unquoted(rest, vars, files))
  {
    var s := "$" + n + "\"" + rest;
    assert "\"$" + n + "\"" + rest == "\"" + s;
    OpenDouble(s, vars, files);
    DoubleVariable(n, rest, s, vars, files);
    CloseDouble(rest, vars, files);
  }

  lemma OpenDouble(s: string, vars: Vars, files: Files)
    ensures Unquoted("\"" + s, vars, files) == Double(s, vars, files)
  {
    assert ("\"" + s)[0] == '"' && ("\"" + s)[1..] == s;
  }

  lemma CloseDouble(s: string, vars: Vars, files: Files)
    ensures Double("\"" + s, vars, files) == Unquoted(s, vars, files)
  {
    assert ("\"" + s)[0] == '"' && ("\"" + s)[1..] == s;
  }

  lemma DoubleVariable(n: string, rest: string, s: string, vars: Vars, files: Files)
    requires IsName(n) && s == "$" + n + "\"" + rest
    ensures Double(s, vars, files) == Prepend(Plain(Lookup(vars, n)), Double("\"" + rest, vars, files))
  {
    var after := "\"" + rest;
    assert s[0] == '$' && s[1] == n[0] && s[1..] == n + after;
    assert !("$(<" <= s) by { assert "$(<"[1] == '('; }
    NameLengthIs(n, after);
    assert s[1..1 + |n|] == n && s[1 + |n|..] == after;
  }

  /** `"$(<path)"` is the file's contents without trailing newlines, or nothing with a failed status. */
  lemma FileEvaluates(p: string, rest: string, vars: Vars, files: Files)
    requires PlainPath(p)
    ensures Unquoted("\"$(<" + p + ")\"" + rest, vars, files) == Prepend(Contents(files, p), Unquoted(rest, vars, files))
  {
    var s := "$(<" + p + ")" + ("\"" + rest);
    assert "\"$(<" + p + ")\"" + rest == "\"" + s;
    OpenDouble(s, vars, files);
    DoubleFile(p, "\"" + rest, s, vars, files);
    CloseDouble(rest, vars, files);
  }

  lemma DoubleFile(p: string, after: string, s: string, vars: Vars, files: Files)
    requires PlainPath(p) && s == "$(<" + p + ")" + after
    ensures Double(s, vars, files) == Prepend(Contents(files, p), Double(after, vars, files))
  {
    assert s[0] == '$' && "$(<" <= s && s[3..] == p + ")" + after;
    ParenLengthIs(p, after);
    assert s[3..3 + |p|] == p && s[4 + |p|..] == after;
  }
}
