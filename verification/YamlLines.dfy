/** Lines, separators and documents of a YAML stream. */
module YamlLines {
  import opened Basics

  type Bytes = seq<byte>

  const NL: byte := 10
  const DASH: byte := 45
  const HASH: byte := 35

  predicate Blank(b: byte) { b == 32 || b == 13 || b == 9 }

  /** Lines with their newlines; only the last one may lack it. */
  datatype Lines = End | Line(text: Bytes, rest: Lines)

  function FirstLineLength(c: Bytes): (n: nat)
    requires c != []
    ensures 1 <= n <= |c|
  {
    if c[0] == NL || |c| == 1 then 1 else 1 + FirstLineLength(c[1..])
  }

  function LinesOf(c: Bytes): Lines
    decreases |c|
  {
    if c == [] then End
    else var n := FirstLineLength(c); Line(c[..n], LinesOf(c[n..]))
  }

  function Chomp(t: Bytes): Bytes {
    if t != [] && t[|t| - 1] == NL then t[..|t| - 1] else t
  }

  /** Blanks, then nothing or a comment without a dash. */
  predicate SeparatorTail(t: Bytes) {
    t == [] || (Blank(t[0]) && SeparatorTail(t[1..])) || (t[0] == HASH && DASH !in t[1..])
  }

  predicate IsSeparator(t: Bytes) {
    |t| >= 3 && t[0] == t[1] == t[2] == DASH && SeparatorTail(t[3..])
  }

  predicate SeparatorLine(t: Bytes) { IsSeparator(Chomp(t)) }

  /** The runs of lines between separator lines, the one in progress being `cur`; what follows the
      last separator is a document only if it is not empty. */
  function Group(ls: Lines, cur: Bytes): seq<Bytes> {
    match ls
    case End => if cur == [] then [] else [cur]
    case Line(t, rest) =>
      if SeparatorLine(t) then [cur] + Group(rest, []) else Group(rest, cur + t)
  }

  /** A stream without a single byte is one empty document. */
  function Documents(c: Bytes): seq<Bytes> {
    if c == [] then [[]] else Group(LinesOf(c), [])
  }

  function Separators(ls: Lines): seq<Bytes> {
    match ls
    case End => []
    case Line(t, rest) => if SeparatorLine(t) then [t] + Separators(rest) else Separators(rest)
  }

  function Interleave(docs: seq<Bytes>, seps: seq<Bytes>): Bytes {
    if docs == [] then []
    else docs[0] + if seps == [] then [] else seps[0] + Interleave(docs[1..], seps[1..])
  }

  function Flatten(ls: Lines): Bytes {
    match ls case End => [] case Line(t, rest) => t + Flatten(rest)
  }

  lemma {:induction false} FlattenLines(c: Bytes)
    ensures Flatten(LinesOf(c)) == c
    decreases |c|
  {
    if c != [] {
      var n := FirstLineLength(c);
      FlattenLines(c[n..]);
      assert c[..n] + c[n..] == c;
    }
  }

  lemma {:induction false} GroupRebuilds(ls: Lines, cur: Bytes)
    ensures Interleave(Group(ls, cur), Separators(ls)) == cur + Flatten(ls)
    decreases ls
  {
    match ls
    case End =>
    case Line(t, rest) =>
      if SeparatorLine(t) {
        GroupRebuilds(rest, []);
        var docs, seps := Group(rest, []), Separators(rest);
        assert ([cur] + docs)[1..] == docs && ([t] + seps)[1..] == seps;
        assert [] + Flatten(rest) == Flatten(rest);
      } else {
        GroupRebuilds(rest, cur + t);
        assert cur + t + Flatten(rest) == cur + (t + Flatten(rest));
      }
  }

  /** Nothing is lost or moved: documents and verbatim separator lines, taken in turn, are the
      stream. */
  lemma DocumentsRebuild(c: Bytes)
    ensures Interleave(Documents(c), Separators(LinesOf(c))) == c
  {
    GroupRebuilds(LinesOf(c), []);
    FlattenLines(c);
    assert [] + c == c;
  }

  // ---- No document holds a separator line.

  function Append(ls: Lines, ms: Lines): Lines {
    match ls case End => ms case Line(t, rest) => Line(t, Append(rest, ms))
  }

  ghost predicate NoSeparator(ls: Lines) {
    match ls case End => true case Line(t, rest) => !SeparatorLine(t) && NoSeparator(rest)
  }

  /** A run of whole lines. */
  predicate Whole(c: Bytes) { c == [] || c[|c| - 1] == NL }

  lemma {:induction false} FirstLineOfSum(a: Bytes, b: Bytes)
    requires a != [] && Whole(a)
    ensures FirstLineLength(a + b) == FirstLineLength(a)
    decreases |a|
  {
    if a[0] != NL {
      assert |a| > 1 && (a + b)[1..] == a[1..] + b;
      FirstLineOfSum(a[1..], b);
    }
  }

  lemma {:induction false} LinesOfSum(a: Bytes, b: Bytes)
    requires Whole(a)
    ensures LinesOf(a + b) == Append(LinesOf(a), LinesOf(b))
    decreases |a|
  {
    if a == [] {
      assert a + b == b;
    } else {
      var n := FirstLineLength(a);
      FirstLineOfSum(a, b);
      assert (a + b)[..n] == a[..n] && (a + b)[n..] == a[n..] + b;
      LinesOfSum(a[n..], b);
    }
  }

  lemma {:induction false} AppendNoSeparator(ls: Lines, ms: Lines)
    ensures NoSeparator(Append(ls, ms)) <==> NoSeparator(ls) && NoSeparator(ms)
    decreases ls
  {
    if ls.Line? { AppendNoSeparator(ls.rest, ms); }
  }

  lemma {:induction false} LineIsLine(c: Bytes)
    requires c != []
    ensures var t := c[..FirstLineLength(c)];
            LinesOf(t) == Line(t, End) && NL !in Chomp(t) && (FirstLineLength(c) < |c| ==> Whole(t))
    decreases |c|
  {
    var n := FirstLineLength(c);
    var t := c[..n];
    FirstLineShape(c);
    assert FirstLineLength(t) == n by { FirstLineOfPrefix(c); }
    assert t[..n] == t && t[n..] == [];
  }

  lemma {:induction false} FirstLineShape(c: Bytes)
    requires c != []
    ensures var n := FirstLineLength(c);
            (forall i :: 0 <= i < n - 1 ==> c[i] != NL) && (n < |c| ==> c[n - 1] == NL)
    decreases |c|
  {
    if c[0] != NL && |c| > 1 {
      FirstLineShape(c[1..]);
      assert forall i :: 0 < i < FirstLineLength(c) ==> c[i] == c[1..][i - 1];
    }
  }

  lemma {:induction false} FirstLineOfPrefix(c: Bytes)
    requires c != []
    ensures FirstLineLength(c[..FirstLineLength(c)]) == FirstLineLength(c)
    decreases |c|
  {
    if c[0] != NL && |c| > 1 {
      FirstLineOfPrefix(c[1..]);
      assert c[..FirstLineLength(c)][1..] == c[1..][..FirstLineLength(c[1..])];
    }
  }

  /** The lines of a stream, from a line start on. */
  ghost predicate FromLineStart(ls: Lines) {
    match ls
    case End => true
    case Line(t, rest) =>
      t != [] && LinesOf(t) == Line(t, End) && NL !in Chomp(t) && (rest.Line? ==> Whole(t)) && FromLineStart(rest)
  }

  lemma {:induction false} LinesAreLines(c: Bytes)
    ensures FromLineStart(LinesOf(c))
    decreases |c|
  {
    if c != [] {
      LineIsLine(c);
      LinesAreLines(c[FirstLineLength(c)..]);
    }
  }

  lemma {:induction false} GroupNoSeparator(ls: Lines, cur: Bytes)
    requires FromLineStart(ls) && NoSeparator(LinesOf(cur)) && (ls.Line? ==> Whole(cur))
    ensures forall d :: d in Group(ls, cur) ==> NoSeparator(LinesOf(d))
    decreases ls
  {
    match ls
    case End =>
    case Line(t, rest) =>
      if SeparatorLine(t) {
        GroupNoSeparator(rest, []);
      } else {
        LinesOfSum(cur, t);
        AppendNoSeparator(LinesOf(cur), LinesOf(t));
        assert Whole(t) ==> Whole(cur + t);
        GroupNoSeparator(rest, cur + t);
      }
  }

  /** Every document consists of regular lines only, and every separator is a separator. */
  lemma DocumentsHoldNoSeparator(c: Bytes)
    ensures forall d :: d in Documents(c) ==> NoSeparator(LinesOf(d))
    ensures forall s :: s in Separators(LinesOf(c)) ==> SeparatorLine(s)
  {
    if c != [] {
      LinesAreLines(c);
      GroupNoSeparator(LinesOf(c), []);
    }
    SeparatorsSeparate(LinesOf(c));
  }

  lemma {:induction false} SeparatorsSeparate(ls: Lines)
    ensures forall s :: s in Separators(ls) ==> SeparatorLine(s)
    decreases ls
  {
    if ls.Line? { SeparatorsSeparate(ls.rest); }
  }

  // ---- Separators, byte by byte.

  /** From position `k` on: nothing, or `#` and no dash. */
  predicate EndsAt(t: Bytes, k: int)
    requires 0 <= k <= |t|
  {
    k == |t| || (t[k] == 35 && forall i :: k < i < |t| ==> t[i] != 45)
  }

  /** Tabs, carriage returns and spaces up to position `k`. */
  predicate BlankUpTo(t: Bytes, k: int)
    requires 0 <= k <= |t|
  {
    forall i :: 0 <= i < k ==> t[i] == 9 || t[i] == 13 || t[i] == 32
  }

  lemma {:induction false} TailFound(t: Bytes) returns (k: int)
    requires SeparatorTail(t)
    ensures 0 <= k <= |t| && BlankUpTo(t, k) && EndsAt(t, k)
    decreases |t|
  {
    if t == [] {
      k := 0;
    } else if Blank(t[0]) {
      var j := TailFound(t[1..]);
      EndsLater(t, j);
      k := j + 1;
      forall i | 0 < i < k ensures t[i] == 9 || t[i] == 13 || t[i] == 32 { assert t[i] == t[1..][i - 1]; }
    } else {
      k := 0;
      forall i | 0 < i < |t| ensures t[i] != 45 { assert t[i] == t[1..][i - 1]; }
    }
  }

  lemma {:induction false} TailHolds(t: Bytes, k: int)
    requires 0 <= k <= |t| && BlankUpTo(t, k) && EndsAt(t, k)
    ensures SeparatorTail(t)
    decreases |t|
  {
    if k > 0 {
      EndsLater(t, k - 1);
      TailHolds(t[1..], k - 1);
    } else if t != [] {
      assert forall i :: 0 <= i < |t| - 1 ==> t[1..][i] == t[i + 1];
    }
  }

  lemma EndsLater(t: Bytes, k: nat)
    requires t != [] && k < |t|
    ensures EndsAt(t[1..], k) <==> EndsAt(t, k + 1)
  {
    var u := t[1..];
    assert forall i :: 0 <= i < |u| ==> u[i] == t[i + 1];
    assert forall i :: 0 < i < |t| ==> t[i] == u[i - 1];
  }

  /** A separator is three dashes, then tabs, carriage returns and spaces up to some position `k`, then
      nothing or a comment without a dash. */
  predicate SeparatorAt(t: Bytes, k: int) {
    && 3 <= k <= |t| && t[0] == 45 && t[1] == 45 && t[2] == 45
    && (forall i :: 3 <= i < k ==> t[i] == 9 || t[i] == 13 || t[i] == 32)
    && EndsAt(t, k)
  }

  lemma SeparatorExact(t: Bytes)
    ensures IsSeparator(t) <==> exists k :: SeparatorAt(t, k)
  {
    if IsSeparator(t) {
      var j := TailFound(t[3..]);
      EndsShifted(t, j);
      assert forall i :: 3 <= i < j + 3 ==> t[i] == t[3..][i - 3];
      assert SeparatorAt(t, j + 3);
    }
    if k :| SeparatorAt(t, k) {
      EndsShifted(t, k - 3);
      assert forall i :: 0 <= i < k - 3 ==> t[3..][i] == t[i + 3];
      TailHolds(t[3..], k - 3);
    }
  }

  lemma EndsShifted(t: Bytes, k: nat)
    requires |t| >= 3 && k <= |t| - 3
    ensures EndsAt(t[3..], k) <==> EndsAt(t, k + 3)
  {
    var u := t[3..];
    assert forall i :: 0 <= i < |u| ==> u[i] == t[i + 3];
    assert forall i :: 3 <= i < |t| ==> t[i] == u[i - 3];
  }

  // ---- Two documents.

  lemma {:induction false} GroupUpToSeparator(ls: Lines, t: Bytes, ms: Lines, cur: Bytes)
    requires NoSeparator(ls) && SeparatorLine(t)
    ensures Group(Append(ls, Line(t, ms)), cur) == [cur + Flatten(ls)] + Group(ms, [])
    decreases ls
  {
    match ls
    case End => assert cur + [] == cur;
    case Line(u, rest) =>
      GroupUpToSeparator(rest, t, ms, cur + u);
      assert cur + u + Flatten(rest) == cur + (u + Flatten(rest));
  }

  lemma {:induction false} GroupWithoutSeparator(ls: Lines, cur: Bytes)
    requires NoSeparator(ls)
    ensures Group(ls, cur) == if cur + Flatten(ls) == [] then [] else [cur + Flatten(ls)]
    decreases ls
  {
    match ls
    case End => assert cur + [] == cur;
    case Line(u, rest) =>
      GroupWithoutSeparator(rest, cur + u);
      assert cur + u + Flatten(rest) == cur + (u + Flatten(rest));
  }

  lemma {:induction false} LineFirst(t: Bytes, b: Bytes)
    requires 10 !in t
    ensures LinesOf(t + [10] + b) == Line(t + [10], LinesOf(b))
    decreases |t|
  {
    var line := t + [10];
    LinesOfSum(line, b);
    LineAlone(t);
  }

  lemma LineAlone(t: Bytes)
    requires 10 !in t
    ensures LinesOf(t + [10]) == Line(t + [10], End)
  {
    var line := t + [10];
    FirstLineShape(line);
    var n := FirstLineLength(line);
    assert forall i :: 0 <= i < |t| ==> line[i] == t[i] && t[i] in t;
    assert line[..n] == line && line[n..] == [];
  }

  /** A separator line, ended by `\n` or `\r\n`, splits what is before it from what is after it. */
  lemma TwoDocuments(a: Bytes, t: Bytes, k: int, b: Bytes)
    requires (a == [] || a[|a| - 1] == 10) && b != [] && 10 !in t && SeparatorAt(t, k)
    requires NoSeparator(LinesOf(a)) && NoSeparator(LinesOf(b))
    ensures Documents(a + (t + [10] + b)) == [a, b]
  {
    SeparatorExact(t);
    LinesOfSum(a, t + [10] + b);
    LineFirst(t, b);
    assert Chomp(t + [10]) == t;
    GroupUpToSeparator(LinesOf(a), t + [10], LinesOf(b), []);
    GroupWithoutSeparator(LinesOf(b), []);
    FlattenLines(a);
    FlattenLines(b);
    assert [] + a == a && [] + b == b;
  }

  /** A separator at the very end, without a line end, ends the document before it like any other. */
  lemma LastSeparator(a: Bytes, t: Bytes, k: int)
    requires (a == [] || a[|a| - 1] == 10) && 10 !in t && SeparatorAt(t, k) && NoSeparator(LinesOf(a))
    ensures Documents(a + t) == [a]
  {
    SeparatorExact(t);
    LinesOfSum(a, t);
    LastLineAlone(t);
    GroupUpToSeparator(LinesOf(a), t, End, []);
    FlattenLines(a);
    assert [] + a == a;
  }

  lemma LastLineAlone(t: Bytes)
    requires 10 !in t && t != []
    ensures LinesOf(t) == Line(t, End) && Chomp(t) == t
  {
    FirstLineShape(t);
    var n := FirstLineLength(t);
    assert forall i :: 0 <= i < |t| ==> t[i] in t;
    assert t[..n] == t && t[n..] == [];
  }
}
