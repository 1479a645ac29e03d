/** `packages[].env` values: the secret references in them and the shell words they are printed as.
    Loop invariants compare sequences as `Some(x) == Some(y)`: equality of datatypes, which the
    solver takes as it is instead of comparing element by element. */
module PackagesEnv {
  import opened Basics
  import opened ShellWords

  const SECRETS_DIR := "/run/secrets/"
  const SECRET := "%secret:"
  const SECRET_PATH := "%secret_path:"

  datatype Part = Literal(text: string) | Secret(id: string) | SecretPath(id: string)

  /** A reference found in a value: `value[start..stop]`. */
  datatype Match = Match(start: nat, stop: nat, part: Part)

  predicate IDChar(c: char) { NameChar(c) || c == '.' || c == '-' }

  predicate ValidID(id: string) {
    id != [] && forall i :: 0 <= i < |id| ==> IDChar(id[i])
  }

  // ---- Finding references.

  function PercentFrom(v: string, i: nat): (n: nat)
    requires i <= |v|
    ensures i <= n <= |v| && (n < |v| ==> v[n] == '%')
    decreases |v| - i
  {
    if i == |v| || v[i] == '%' then i else PercentFrom(v, i + 1)
  }

  predicate PrefixAt(v: string, i: nat, p: string) {
    i + |p| <= |v| && v[i..i + |p|] == p
  }

  /** A whole reference starting at position `i`. */
  function MatchAt(v: string, i: nat): (r: Option<Match>)
    requires i <= |v|
    ensures r.Some? ==> r.value.start == i < r.value.stop <= |v| && !r.value.part.Literal?
  {
    if PrefixAt(v, i, SECRET_PATH) then
      var n := PercentFrom(v, i + |SECRET_PATH|);
      if n < |v| then Some(Match(i, n + 1, SecretPath(v[i + |SECRET_PATH|..n]))) else None
    else if PrefixAt(v, i, SECRET) then
      var n := PercentFrom(v, i + |SECRET|);
      if n < |v| then Some(Match(i, n + 1, Secret(v[i + |SECRET|..n]))) else None
    else None
  }

  /** All references from position `from` on, left to right, none overlapping. */
  function FindAll(v: string, from: nat): seq<Match>
    requires from <= |v|
    decreases |v| - from
  {
    if from == |v| then []
    else match MatchAt(v, from)
      case Some(m) => [m] + FindAll(v, m.stop)
      case None => FindAll(v, from + 1)
  }

  ghost predicate Ordered(v: string, ms: seq<Match>, end: nat)
    decreases |ms|
  {
    end <= |v| &&
    (ms == [] ||
     (end <= ms[0].start < ms[0].stop <= |v| && !ms[0].part.Literal?
      && v[ms[0].start..ms[0].stop] == Print(ms[0].part) && Ordered(v, ms[1..], ms[0].stop)))
  }

  function Print(p: Part): string {
    match p
    case Literal(text) => text
    case Secret(id) => SECRET + id + "%"
    case SecretPath(id) => SECRET_PATH + id + "%"
  }

  lemma MatchPrints(v: string, i: nat)
    requires i <= |v| && MatchAt(v, i).Some?
    ensures var m := MatchAt(v, i).value; v[m.start..m.stop] == Print(m.part)
  {
    var p := if PrefixAt(v, i, SECRET_PATH) then SECRET_PATH else SECRET;
    Between(v, i, p, PercentFrom(v, i + |p|));
  }

  /** The text from a prefix to the `%` at `n`. */
  lemma Between(v: string, i: nat, p: string, n: nat)
    requires PrefixAt(v, i, p) && i + |p| <= n < |v| && v[n] == '%'
    ensures v[i..n + 1] == p + v[i + |p|..n] + "%"
  {
    assert v[i..n + 1] == v[i..i + |p|] + v[i + |p|..n] + [v[n]];
  }

  lemma {:induction false} FindAllOrdered(v: string, from: nat, end: nat)
    requires end <= from <= |v|
    ensures Ordered(v, FindAll(v, from), end)
    decreases |v| - from
  {
    if from < |v| {
      match MatchAt(v, from)
      case Some(m) =>
        MatchPrints(v, from);
        FindAllOrdered(v, m.stop, m.stop);
        assert ([m] + FindAll(v, m.stop))[1..] == FindAll(v, m.stop);
      case None => FindAllOrdered(v, from + 1, end);
    }
  }

  /** No reference is missed: one that starts anywhere is found or starts inside one that is. */
  lemma {:induction false} FindAllMissesNothing(v: string, from: nat, j: nat)
    requires from <= j <= |v| && MatchAt(v, j).Some?
    ensures exists k :: 0 <= k < |FindAll(v, from)| && FindAll(v, from)[k].start <= j < FindAll(v, from)[k].stop
    decreases |v| - from
  {
    var ms := FindAll(v, from);
    match MatchAt(v, from)
    case Some(m) =>
      assert ms[0] == m;
      if j >= m.stop {
        FindAllMissesNothing(v, m.stop, j);
        var k :| 0 <= k < |FindAll(v, m.stop)| && FindAll(v, m.stop)[k].start <= j < FindAll(v, m.stop)[k].stop;
        assert ms[k + 1] == FindAll(v, m.stop)[k];
      }
    case None =>
      FindAllMissesNothing(v, from + 1, j);
  }

  // ---- References, letter by letter.

  /** The text stands at position `i`. */
  ghost predicate StandsAt(v: string, i: nat, text: string) {
    i + |text| <= |v| && v[i..i + |text|] == text
  }

  lemma {:induction false} PercentFromIs(v: string, i: nat, n: nat)
    requires i <= n < |v| && v[n] == '%' && forall j :: i <= j < n ==> v[j] != '%'
    ensures PercentFrom(v, i) == n
    decreases |v| - i
  {
    if i < n { PercentFromIs(v, i + 1, n); }
  }

  lemma {:induction false} PercentFromFirst(v: string, i: nat)
    requires i <= |v|
    ensures forall j :: i <= j < PercentFrom(v, i) ==> v[j] != '%'
    decreases |v| - i
  {
    if i < |v| && v[i] != '%' { PercentFromFirst(v, i + 1); }
  }

  /** Where an ID without `%` stands between `prefix` and `%`. */
  lemma PercentAfter(v: string, i: nat, prefix: string, id: string)
    requires StandsAt(v, i, prefix + id + "%") && '%' !in id
    ensures StandsAt(v, i, prefix) && i + |prefix| <= |v|
    ensures PercentFrom(v, i + |prefix|) == i + |prefix| + |id|
    ensures v[i + |prefix|..i + |prefix| + |id|] == id
  {
    var text, from := prefix + id + "%", i + |prefix|;
    var found := v[i..i + |text|];
    assert v[i..from] == found[..|prefix|] && v[from..from + |id|] == found[|prefix|..|prefix| + |id|];
    assert text[..|prefix|] == prefix && text[|prefix|..|prefix| + |id|] == id;
    forall j | from <= j < from + |id| ensures v[j] != '%' { assert v[j] == v[from..from + |id|][j - from]; }
    assert v[from + |id|] == found[|prefix| + |id|];
    PercentFromIs(v, from, from + |id|);
  }

  /** A reference is recognised where it stands, with the ID it has and to its end. */
  lemma MatchFound(v: string, i: nat, id: string)
    requires i <= |v| && '%' !in id
    ensures StandsAt(v, i, "%secret_path:" + id + "%") ==> MatchAt(v, i) == Some(Match(i, i + 14 + |id|, SecretPath(id)))
    ensures StandsAt(v, i, "%secret:" + id + "%") ==> MatchAt(v, i) == Some(Match(i, i + 9 + |id|, Secret(id)))
  {
    if StandsAt(v, i, "%secret_path:" + id + "%") {
      PercentAfter(v, i, "%secret_path:", id);
      PrefixesApart(v, i);
    }
    if StandsAt(v, i, "%secret:" + id + "%") {
      PercentAfter(v, i, "%secret:", id);
      PrefixesApart(v, i);
    }
  }

  lemma PrefixesApart(v: string, i: nat)
    ensures StandsAt(v, i, "%secret_path:") ==> v[i + 7] == '_'
    ensures StandsAt(v, i, "%secret:") ==> v[i + 7] == ':'
  {
    if StandsAt(v, i, "%secret_path:") { assert v[i + 7] == v[i..i + 13][7]; }
    if StandsAt(v, i, "%secret:") { assert v[i + 7] == v[i..i + 8][7]; }
  }

  ghost predicate Reference(v: string, i: nat, id: string) {
    '%' !in id && (StandsAt(v, i, "%secret_path:" + id + "%") || StandsAt(v, i, "%secret:" + id + "%"))
  }

  /** And nothing else is. */
  lemma MatchExact(v: string, i: nat)
    requires i <= |v|
    ensures MatchAt(v, i).Some? <==> exists id :: Reference(v, i, id)
  {
    if MatchAt(v, i).Some? {
      var m := MatchAt(v, i).value;
      MatchPrints(v, i);
      PercentFromFirst(v, i + (if m.part.SecretPath? then 13 else 8));
      assert '%' !in m.part.id by { IdHasNoPercent(v, i, m); }
      assert Reference(v, i, m.part.id);
    }
    if id :| Reference(v, i, id) { MatchFound(v, i, id); }
  }

  lemma IdHasNoPercent(v: string, i: nat, m: Match)
    requires i <= |v| && MatchAt(v, i) == Some(m)
    ensures '%' !in m.part.id
  {
    var from := i + (if m.part.SecretPath? then |SECRET_PATH| else |SECRET|);
    PercentFromFirst(v, from);
    assert m.part.id == v[from..m.stop - 1];
    forall j | 0 <= j < |m.part.id| ensures m.part.id[j] != '%' { assert m.part.id[j] == v[from + j]; }
  }

  // ---- Splitting.

  /** The references with the literal text between them. */
  function PartsOf(v: string, ms: seq<Match>, end: nat): seq<Part>
    decreases |ms|
  {
    if ms == [] then (if end < |v| then [Literal(v[end..])] else [])
    else
      var rest := [ms[0].part] + PartsOf(v, ms[1..], ms[0].stop);
      if end < ms[0].start <= |v| then [Literal(v[end..ms[0].start])] + rest else rest
  }

  function Printed(ps: seq<Part>): string {
    if ps == [] then "" else Print(ps[0]) + Printed(ps[1..])
  }

  lemma PrintedCons(p: Part, ps: seq<Part>)
    ensures Printed([p] + ps) == Print(p) + Printed(ps)
  {
    assert ([p] + ps)[0] == p && ([p] + ps)[1..] == ps;
  }

  lemma {:induction false} PartsPrint(v: string, ms: seq<Match>, end: nat)
    requires Ordered(v, ms, end)
    ensures Printed(PartsOf(v, ms, end)) == v[end..]
    decreases |ms|
  {
    if ms == [] {
      if end < |v| { PrintedLast(v[end..]); }
    } else {
      var m := ms[0];
      var rest := PartsOf(v, ms[1..], m.stop);
      PartsPrint(v, ms[1..], m.stop);
      PrintedCons(m.part, rest);
      Cut(v, end, m.start, m.stop);
      if end < m.start { PrintedCons(Literal(v[end..m.start]), [m.part] + rest); }
    }
  }

  lemma PrintedLast(text: string)
    ensures Printed([Literal(text)]) == text
  {
    assert [Literal(text)][1..] == [];
    assert text + "" == text;
  }

  lemma Cut(v: string, i: nat, j: nat, k: nat)
    requires i <= j <= k <= |v|
    ensures v[i..] == v[i..j] + (v[j..k] + v[k..])
    ensures i == j ==> v[i..] == v[j..k] + v[k..]
  {
  }

  predicate AllValid(ms: seq<Match>) {
    forall k :: 0 <= k < |ms| ==> !ms[k].part.Literal? && ValidID(ms[k].part.id)
  }

  /** The parts of a value, or nothing if a reference has a malformed ID. */
  function Split(v: string): Option<seq<Part>> {
    var ms := FindAll(v, 0);
    if AllValid(ms) then Some(PartsOf(v, ms, 0)) else None
  }

  /** Whatever can be split prints back to what it was. */
  lemma SplitPrintsBack(v: string)
    ensures Split(v).Some? ==> Printed(Split(v).value) == v
  {
    FindAllOrdered(v, 0, 0);
    PartsPrint(v, FindAll(v, 0), 0);
    assert v[0..] == v;
  }

  method SplitPackageEnvValue(value: string) returns (r: Option<seq<Part>>)
    ensures r == Split(value)
  {
    var parts: seq<Part> := [];
    var end := 0;
    var ms := FindAll(value, 0);
    var k := 0;
    SplitStarts(value, ms);
    while k < |ms|
      invariant SplitSoFar(value, ms, k, end, parts)
    {
      var m := ms[k];
      if !ValidID(m.part.id) { return None; }
      SplitStep(value, ms, k, end, parts);
      if m.start > end { parts := parts + [Literal(value[end..m.start])]; }
      parts := parts + [m.part];
      end := m.stop;
      k := k + 1;
    }
    SplitEnds(value, ms, end, parts);
    if end < |value| { parts := parts + [Literal(value[end..])]; }
    return Some(parts);
  }

  /** The first `k` references have been taken in and the value read up to `end`. */
  ghost predicate SplitSoFar(v: string, ms: seq<Match>, k: int, end: int, parts: seq<Part>) {
    && 0 <= k <= |ms| && 0 <= end && Ordered(v, ms[k..], end)
    && (k < |ms| ==> end <= ms[k].start < ms[k].stop <= |v| && !ms[k].part.Literal?)
    && AllValid(ms[..k])
    && Some(parts + PartsOf(v, ms[k..], end)) == Some(PartsOf(v, ms, 0))
  }

  lemma SplitStarts(v: string, ms: seq<Match>)
    requires ms == FindAll(v, 0)
    ensures SplitSoFar(v, ms, 0, 0, [])
  {
    FindAllOrdered(v, 0, 0);
    assert ms[0..] == ms;
    assert [] + PartsOf(v, ms, 0) == PartsOf(v, ms, 0);
  }

  lemma SplitStep(v: string, ms: seq<Match>, k: nat, end: nat, parts: seq<Part>)
    requires k < |ms| && SplitSoFar(v, ms, k, end, parts) && ValidID(ms[k].part.id)
    ensures SplitSoFar(v, ms, k + 1, ms[k].stop,
                       (if ms[k].start > end then parts + [Literal(v[end..ms[k].start])] else parts) + [ms[k].part])
  {
    assert ms[k..][0] == ms[k] && ms[k..][1..] == ms[k + 1..];
    PartsStep(v, ms[k..], end, parts);
    assert ms[..k + 1] == ms[..k] + [ms[k]];
    if k + 1 < |ms| { assert ms[k + 1..][0] == ms[k + 1]; }
  }

  lemma SplitEnds(v: string, ms: seq<Match>, end: nat, parts: seq<Part>)
    requires SplitSoFar(v, ms, |ms|, end, parts)
    ensures AllValid(ms)
    ensures Some(if end < |v| then parts + [Literal(v[end..])] else parts) == Some(PartsOf(v, ms, 0))
  {
    assert ms[|ms|..] == [] && ms[..|ms|] == ms;
    assert parts + [] == parts;
  }

  lemma PartsStep(v: string, ms: seq<Match>, end: nat, parts: seq<Part>)
    requires ms != [] && Ordered(v, ms, end)
    ensures Some(parts + PartsOf(v, ms, end)) ==
            Some((if ms[0].start > end then parts + [Literal(v[end..ms[0].start])] else parts) + [ms[0].part]
                 + PartsOf(v, ms[1..], ms[0].stop))
  {
    var rest := PartsOf(v, ms[1..], ms[0].stop);
    if ms[0].start > end {
      var text := Literal(v[end..ms[0].start]);
      assert parts + ([text] + ([ms[0].part] + rest)) == parts + [text] + [ms[0].part] + rest;
    } else {
      assert parts + ([ms[0].part] + rest) == parts + [ms[0].part] + rest;
    }
  }

  predicate ReadsSecret(v: string) {
    Split(v).Some? && exists k :: 0 <= k < |Split(v).value| && Split(v).value[k].Secret?
  }

  // ---- Printing shell words.

  function FormatPart(quote: string -> string, p: Part): string {
    match p
    case Secret(id) => "\"$(<" + (SECRETS_DIR + id) + ")\""
    case SecretPath(id) => quote(SECRETS_DIR + id)
    case Literal(text) => quote(text)
  }

  function FormatParts(quote: string -> string, ps: seq<Part>): string {
    if ps == [] then "" else FormatPart(quote, ps[0]) + FormatParts(quote, ps[1..])
  }

  /** A value that cannot be split stays literal. */
  function Format(quote: string -> string, v: string): string {
    match Split(v)
    case None => quote(v)
    case Some(ps) => if ps == [] then quote("") else FormatParts(quote, ps)
  }

  method FormatPackageEnvValue(quote: string -> string, value: string) returns (word: string)
    ensures word == Format(quote, value)
  {
    var split := SplitPackageEnvValue(value);
    if split.None? { return quote(value); }
    var parts := split.value;
    if parts == [] { return quote(""); }
    word := "";
    var k := 0;
    assert parts[0..] == parts && "" + FormatParts(quote, parts) == FormatParts(quote, parts);
    while k < |parts|
      invariant 0 <= k <= |parts| && Some(word + FormatParts(quote, parts[k..])) == Some(FormatParts(quote, parts))
    {
      FormatStep(quote, parts, k, word);
      word := word + FormatPart(quote, parts[k]);
      k := k + 1;
    }
    assert parts[k..] == [] && word + "" == word;
  }

  lemma FormatStep(quote: string -> string, parts: seq<Part>, k: nat, word: string)
    requires k < |parts|
    ensures word + FormatParts(quote, parts[k..]) == word + FormatPart(quote, parts[k]) + FormatParts(quote, parts[k + 1..])
  {
    assert parts[k..][0] == parts[k] && parts[k..][1..] == parts[k + 1..];
  }

  // ---- What a value means, given the secret files.

  function PartMeaning(p: Part, files: Files): Option<string> {
    match p
    case Literal(text) => Some(text)
    case SecretPath(id) => Some(SECRETS_DIR + id)
    case Secret(id) => if SECRETS_DIR + id in files then Some(Trimmed(files[SECRETS_DIR + id])) else None
  }

  function PartsMeaning(ps: seq<Part>, files: Files): Option<string> {
    if ps == [] then Some("")
    else
      var m, rest := PartMeaning(ps[0], files), PartsMeaning(ps[1..], files);
      if m.None? || rest.None? then None else Some(m.value + rest.value)
  }

  /** The value with every reference replaced by the secret or its path; nothing if a secret cannot
      be read. */
  function Meaning(v: string, files: Files): Option<string> {
    if Split(v).None? then Some(v) else PartsMeaning(Split(v).value, files)
  }

  // ---- What the shell makes of it.

  function PartExpansion(p: Part, files: Files): Piece {
    match p
    case Literal(text) => Plain(text)
    case SecretPath(id) => Plain(SECRETS_DIR + id)
    case Secret(id) => Contents(files, SECRETS_DIR + id)
  }

  function PartsExpansion(ps: seq<Part>, files: Files): Piece {
    if ps == [] then Plain("") else Sum(PartExpansion(ps[0], files), PartsExpansion(ps[1..], files))
  }

  /** The value with unreadable secrets left out, and how reading the last one went. */
  function Expansion(v: string, files: Files): Piece {
    if Split(v).None? then Plain(v) else PartsExpansion(Split(v).value, files)
  }

  /** The last secret a list of parts reads. */
  function LastSecret(ps: seq<Part>): Option<string> {
    if ps == [] then None
    else if LastSecret(ps[1..]).Some? then LastSecret(ps[1..])
    else if ps[0].Secret? then Some(ps[0].id)
    else None
  }

  /** The value reads a secret, and the last one it reads is not there. */
  predicate LastUnreadable(v: string, files: Files) {
    Split(v).Some? && LastSecret(Split(v).value).Some? && SECRETS_DIR + LastSecret(Split(v).value).value !in files
  }

  lemma {:induction false} PartsStatus(ps: seq<Part>, files: Files)
    ensures var last := LastSecret(ps);
            PartsExpansion(ps, files).status ==
            if last.None? then Unset else if SECRETS_DIR + last.value in files then Read else Unread
    decreases |ps|
  {
    if ps != [] { PartsStatus(ps[1..], files); }
  }

  /** The status a value leaves is that of its last secret, whatever became of the others. */
  lemma StatusIsLast(v: string, files: Files)
    ensures Expansion(v, files).status.Unread? <==> LastUnreadable(v, files)
  {
    if Split(v).Some? { PartsStatus(Split(v).value, files); }
  }

  lemma {:induction false} PartsExpansionMeans(ps: seq<Part>, files: Files)
    ensures PartsMeaning(ps, files).Some? ==> PartsExpansion(ps, files).text == PartsMeaning(ps, files).value
    ensures PartsMeaning(ps, files).Some? ==> !PartsExpansion(ps, files).status.Unread?
    decreases |ps|
  {
    if ps != [] { PartsExpansionMeans(ps[1..], files); }
  }

  /** Where every secret can be read, the shell makes of a value what it means. */
  lemma ExpansionMeans(v: string, files: Files)
    requires Meaning(v, files).Some?
    ensures Expansion(v, files).text == Meaning(v, files).value && !Expansion(v, files).status.Unread?
  {
    if Split(v).Some? { PartsExpansionMeans(Split(v).value, files); }
  }

  ghost predicate ValidParts(ps: seq<Part>) {
    forall k :: 0 <= k < |ps| ==> ps[k].Literal? || ValidID(ps[k].id)
  }

  lemma {:induction false} PartsValid(v: string, ms: seq<Match>, end: nat)
    requires AllValid(ms)
    ensures ValidParts(PartsOf(v, ms, end))
    decreases |ms|
  {
    if ms != [] { PartsValid(v, ms[1..], ms[0].stop); }
  }

  lemma PartEvaluates(quote: string -> string, p: Part, rest: string, vars: Vars, files: Files)
    requires Quotes(quote) && (p.Literal? || ValidID(p.id))
    ensures Unquoted(FormatPart(quote, p) + rest, vars, files) ==
            Prepend(PartExpansion(p, files), Unquoted(rest, vars, files))
  {
    if p.Secret? {
      var path := SECRETS_DIR + p.id;
      assert PlainPath(path) by {
        forall i | 0 <= i < |path| ensures NameChar(path[i]) || path[i] == '/' || path[i] == '.' || path[i] == '-' {
          if i >= |SECRETS_DIR| { assert path[i] == p.id[i - |SECRETS_DIR|]; }
        }
      }
      FileEvaluates(path, rest, vars, files);
    }
  }

  lemma {:induction false} PartsEvaluate(quote: string -> string, ps: seq<Part>, rest: string, vars: Vars, files: Files)
    requires Quotes(quote) && ValidParts(ps)
    ensures Unquoted(FormatParts(quote, ps) + rest, vars, files) ==
            Prepend(PartsExpansion(ps, files), Unquoted(rest, vars, files))
    decreases |ps|
  {
    if ps == [] {
      assert "" + rest == rest;
      PrependNothing(Unquoted(rest, vars, files));
    } else {
      var tail := FormatParts(quote, ps[1..]);
      assert FormatParts(quote, ps) + rest == FormatPart(quote, ps[0]) + (tail + rest);
      PartEvaluates(quote, ps[0], tail + rest, vars, files);
      PartsEvaluate(quote, ps[1..], rest, vars, files);
      PrependSum(PartExpansion(ps[0], files), PartsExpansion(ps[1..], files), Unquoted(rest, vars, files));
    }
  }

  /** The printed word expands to the value with its references replaced, whatever stands after it. */
  lemma FormatEvaluates(quote: string -> string, v: string, rest: string, vars: Vars, files: Files)
    requires Quotes(quote)
    ensures Unquoted(Format(quote, v) + rest, vars, files) == Prepend(Expansion(v, files), Unquoted(rest, vars, files))
  {
    if Split(v).Some? && Split(v).value != [] {
      PartsValid(v, FindAll(v, 0), 0);
      PartsEvaluate(quote, Split(v).value, rest, vars, files);
    }
  }

  lemma {:induction false} NoSecretNoFiles(ps: seq<Part>, files: Files)
    requires forall k :: 0 <= k < |ps| ==> !ps[k].Secret?
    ensures PartsMeaning(ps, files).Some? && PartsMeaning(ps, files) == PartsMeaning(ps, map[])
    ensures PartsExpansion(ps, files) == PartsExpansion(ps, map[]) && PartsExpansion(ps, files).status.Unset?
    decreases |ps|
  {
    if ps != [] { NoSecretNoFiles(ps[1..], files); }
  }

  /** Only values that read a secret depend on the files. */
  lemma ExpansionNeedsFiles(v: string, files: Files)
    requires !ReadsSecret(v)
    ensures Meaning(v, files).Some? && Meaning(v, files) == Meaning(v, map[])
    ensures Expansion(v, files) == Expansion(v, map[]) && Expansion(v, files).status.Unset?
  {
    if Split(v).Some? { NoSecretNoFiles(Split(v).value, files); }
  }

  // ---- What a single reference comes to.

  /** Letters, digits, `_`, `.` and `-`, at least one of them. */
  predicate PlainID(id: string) {
    id != [] && forall i :: 0 <= i < |id| ==>
      'a' <= id[i] <= 'z' || 'A' <= id[i] <= 'Z' || '0' <= id[i] <= '9' || id[i] == '_' || id[i] == '.' || id[i] == '-'
  }

  lemma PlainIsValid(id: string)
    ensures PlainID(id) <==> ValidID(id)
  {
  }

  /** A value that is one reference and nothing else. */
  lemma OneReference(v: string, m: Match)
    requires MatchAt(v, 0) == Some(m) && m.stop == |v|
    ensures Split(v) == if PlainID(m.part.id) then Some([m.part]) else None
  {
    assert FindAll(v, |v|) == [];
    assert FindAll(v, 0) == [m] + [];
    PlainIsValid(m.part.id);
    OneValid(m);
    OnePart(v, m);
  }

  lemma OneValid(m: Match)
    requires !m.part.Literal?
    ensures AllValid([m]) <==> ValidID(m.part.id)
  {
    assert [m][0] == m;
  }

  lemma OnePart(v: string, m: Match)
    requires m.start == 0 && m.stop == |v|
    ensures PartsOf(v, [m], 0) == [m.part]
  {
    assert [m][1..] == [] && PartsOf(v, [], |v|) == [];
  }

  /** A reference means the secret or its path; one with a malformed ID is just text. */
  lemma ReferenceMeaning(id: string, files: Files)
    requires '%' !in id
    ensures var v := "%secret_path:" + id + "%";
            Meaning(v, files) == Some(if PlainID(id) then "/run/secrets/" + id else v) && !ReadsSecret(v)
    ensures var v := "%secret:" + id + "%";
            && Meaning(v, files) ==
               (if !PlainID(id) then Some(v)
                else if "/run/secrets/" + id in files then Some(Trimmed(files["/run/secrets/" + id]))
                else None)
            && (ReadsSecret(v) <==> PlainID(id))
  {
    PathMeaning(id, files);
    SecretMeaning(id, files);
  }

  lemma PathMeaning(id: string, files: Files)
    requires '%' !in id
    ensures var v := "%secret_path:" + id + "%";
            Meaning(v, files) == Some(if PlainID(id) then "/run/secrets/" + id else v) && !ReadsSecret(v)
  {
    var v, p := "%secret_path:" + id + "%", SecretPath(id);
    assert v[0..|v|] == v;
    MatchFound(v, 0, id);
    OneReference(v, Match(0, |v|, p));
    SinglePart(p, files);
  }

  lemma SecretMeaning(id: string, files: Files)
    requires '%' !in id
    ensures var v := "%secret:" + id + "%";
            && Meaning(v, files) ==
               (if !PlainID(id) then Some(v)
                else if "/run/secrets/" + id in files then Some(Trimmed(files["/run/secrets/" + id]))
                else None)
            && (ReadsSecret(v) <==> PlainID(id))
  {
    var v, p := "%secret:" + id + "%", Secret(id);
    assert v[0..|v|] == v;
    MatchFound(v, 0, id);
    OneReference(v, Match(0, |v|, p));
    SinglePart(p, files);
    assert [p][0] == p;
  }

  lemma SinglePart(p: Part, files: Files)
    ensures PartsMeaning([p], files) == PartMeaning(p, files)
  {
    assert [p][1..] == [];
    var m := PartMeaning(p, files);
    if m.Some? { assert m.value + "" == m.value; }
  }

  lemma MatchStarts(v: string, i: nat)
    requires i < |v|
    ensures MatchAt(v, i).Some? ==> v[i] == '%'
  {
    if PrefixAt(v, i, SECRET_PATH) {
      assert v[i] == v[i..i + |SECRET_PATH|][0];
    } else if PrefixAt(v, i, SECRET) {
      assert v[i] == v[i..i + |SECRET|][0];
    }
  }

  /** Text without `%` is itself. */
  lemma {:induction false} PlainTextFrom(v: string, from: nat)
    requires from <= |v| && '%' !in v
    ensures FindAll(v, from) == []
    decreases |v| - from
  {
    if from < |v| {
      MatchStarts(v, from);
      assert v[from] in v;
      PlainTextFrom(v, from + 1);
    }
  }

  lemma PlainTextMeaning(v: string, files: Files)
    requires '%' !in v
    ensures Meaning(v, files) == Some(v) && !ReadsSecret(v)
  {
    PlainTextFrom(v, 0);
    if v != [] {
      assert v[0..] == v;
      SinglePart(Literal(v), files);
    }
  }
}
