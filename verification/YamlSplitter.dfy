/** The byte machine that splits a YAML stream into documents. */
module YamlSplitter {
  import opened Basics
  import opened YamlLines

  datatype State = LineBegin | RegularLine | DocDash1 | DocDash2 | DocDash3 | DocSpaces | DocComment

  /** One byte other than a newline. */
  function Step(s: State, b: byte): State {
    if b == DASH then
      match s
      case LineBegin => DocDash1
      case DocDash1 => DocDash2
      case DocDash2 => DocDash3
      case _ => RegularLine
    else if Blank(b) then
      match s
      case DocDash3 => DocSpaces
      case DocSpaces => DocSpaces
      case DocComment => DocComment
      case _ => RegularLine
    else if b == HASH then
      match s
      case DocDash3 => DocComment
      case DocSpaces => DocComment
      case DocComment => DocComment
      case _ => RegularLine
    else if s.DocComment? then DocComment else RegularLine
  }

  predicate Accepting(s: State) { s.DocDash3? || s.DocSpaces? || s.DocComment? }

  /** The state after the bytes `t`, none of them a newline. */
  ghost function Run(s: State, t: Bytes): State
    decreases |t|
  {
    if t == [] then s else Run(Step(s, t[0]), t[1..])
  }

  lemma {:induction false} RunOneMore(s: State, t: Bytes, b: byte)
    ensures Run(s, t + [b]) == Step(Run(s, t), b)
    decreases |t|
  {
    if t == [] {
      assert t + [b] == [b] && [b][1..] == [];
    } else {
      RunOneMore(Step(s, t[0]), t[1..], b);
      assert (t + [b])[1..] == t[1..] + [b];
    }
  }

  // ---- The machine accepts exactly the separators.

  lemma {:induction false} RegularStays(t: Bytes)
    ensures Run(RegularLine, t) == RegularLine
    decreases |t|
  {
    if t != [] { RegularStays(t[1..]); }
  }

  lemma {:induction false} CommentAccepts(t: Bytes)
    ensures Accepting(Run(DocComment, t)) <==> DASH !in t
    decreases |t|
  {
    if t != [] {
      CommentAccepts(t[1..]);
      RegularStays(t[1..]);
      assert DASH in t <==> t[0] == DASH || DASH in t[1..];
    }
  }

  lemma {:induction false} TailAccepts(s: State, t: Bytes)
    requires s.DocDash3? || s.DocSpaces?
    ensures Accepting(Run(s, t)) <==> SeparatorTail(t)
    decreases |t|
  {
    if t != [] {
      TailAccepts(DocSpaces, t[1..]);
      CommentAccepts(t[1..]);
      RegularStays(t[1..]);
    }
  }

  /** A `-` in the comment makes the line a regular one, and so does anything else out of place. */
  lemma AcceptsSeparators(t: Bytes)
    ensures Accepting(Run(LineBegin, t)) <==> IsSeparator(t)
  {
    if |t| >= 3 {
      var u := t[1..];
      var v := u[1..];
      assert v[1..] == t[3..] && u[0] == t[1] && v[0] == t[2];
      RegularStays(u);
      RegularStays(v);
      RegularStays(t[3..]);
      TailAccepts(DocDash3, t[3..]);
      assert Run(DocDash1, u) == Run(Step(DocDash1, u[0]), v);
      assert Run(DocDash2, v) == Run(Step(DocDash2, v[0]), t[3..]);
    } else if t != [] {
      RegularStays(t[1..]);
      if |t| == 2 {
        var s := Step(LineBegin, t[0]);
        assert t[1..][1..] == [] && Run(s, t[1..]) == Step(s, t[1]);
      }
    }
  }

  // ---- The loop on values: the document so far, the line so far, the bytes to come.

  /** A list of documents, wrapped: two outputs are compared as values, not element by element. */
  datatype Output = Output(docs: seq<Bytes>)

  ghost function Scan(rest: Bytes, doc: Bytes, line: Bytes, docs: seq<Bytes>): Output
    decreases |rest|
  {
    if rest == [] then
      if IsSeparator(line) then Output(docs + [doc])
      else if doc == [] && line == [] then Output(docs)
      else Output(docs + [doc + line])
    else if rest[0] != NL then Scan(rest[1..], doc, line + [rest[0]], docs)
    else if IsSeparator(line) then Scan(rest[1..], [], [], docs + [doc])
    else Scan(rest[1..], doc + (line + [NL]), [], docs)
  }

  /** `Group` with the documents so far carried along. */
  ghost function Onward(ls: Lines, doc: Bytes, docs: seq<Bytes>): Output {
    match ls
    case End => if doc == [] then Output(docs) else Output(docs + [doc])
    case Line(t, rest) =>
      if SeparatorLine(t) then Onward(rest, [], docs + [doc]) else Onward(rest, doc + t, docs)
  }

  lemma {:induction false} OnwardIsGroup(ls: Lines, doc: Bytes, docs: seq<Bytes>)
    ensures Onward(ls, doc, docs) == Output(docs + Group(ls, doc))
    decreases ls
  {
    match ls
    case End =>
    case Line(t, rest) =>
      if SeparatorLine(t) {
        OnwardIsGroup(rest, [], docs + [doc]);
        assert docs + [doc] + Group(rest, []) == docs + ([doc] + Group(rest, []));
      } else {
        OnwardIsGroup(rest, doc + t, docs);
      }
  }

  lemma {:induction false} FirstLineIs(line: Bytes, rest: Bytes)
    requires NL !in line
    ensures FirstLineLength(line + [NL] + rest) == |line| + 1
    decreases |line|
  {
    if line != [] {
      FirstLineIs(line[1..], rest);
      assert (line + [NL] + rest)[1..] == line[1..] + [NL] + rest;
    }
  }

  lemma FirstLine(line: Bytes, rest: Bytes)
    requires NL !in line
    ensures LinesOf(line + [NL] + rest) == Line(line + [NL], LinesOf(rest))
  {
    FirstLineIs(line, rest);
    var c, n := line + [NL] + rest, |line| + 1;
    assert c[..n] == line + [NL] && c[n..] == rest;
  }

  lemma {:induction false} LastLine(line: Bytes)
    requires NL !in line && line != []
    ensures FirstLineLength(line) == |line| && LinesOf(line) == Line(line, End) && Chomp(line) == line
    decreases |line|
  {
    assert line[|line| - 1] in line;
    if |line| > 1 { LastLine(line[1..]); }
    assert line[..|line|] == line && line[|line|..] == [];
  }

  /** Reading byte by byte is reading line by line. */
  lemma {:induction false} ScanIsOnward(rest: Bytes, doc: Bytes, line: Bytes, docs: seq<Bytes>)
    requires NL !in line
    ensures Scan(rest, doc, line, docs) == Onward(LinesOf(line + rest), doc, docs)
    decreases |rest|
  {
    if rest == [] {
      ScanEnds(doc, line, docs);
      assert line + rest == line;
    } else if rest[0] != NL {
      ScanIsOnward(rest[1..], doc, line + [rest[0]], docs);
      assert line + [rest[0]] + rest[1..] == line + rest;
    } else {
      OnwardLine(line, rest[1..], doc, docs);
      assert line + [NL] + rest[1..] == line + rest;
      assert [] + rest[1..] == rest[1..];
      if IsSeparator(line) {
        ScanIsOnward(rest[1..], [], [], docs + [doc]);
      } else {
        ScanIsOnward(rest[1..], doc + (line + [NL]), [], docs);
      }
    }
  }

  lemma ScanEnds(doc: Bytes, line: Bytes, docs: seq<Bytes>)
    requires NL !in line
    ensures Scan([], doc, line, docs) == Onward(LinesOf(line), doc, docs)
  {
    if line != [] { LastLine(line); } else { assert doc + line == doc; }
  }

  lemma OnwardLine(line: Bytes, rest: Bytes, doc: Bytes, docs: seq<Bytes>)
    requires NL !in line
    ensures Onward(LinesOf(line + [NL] + rest), doc, docs) ==
            if IsSeparator(line) then Onward(LinesOf(rest), [], docs + [doc])
            else Onward(LinesOf(rest), doc + (line + [NL]), docs)
  {
    FirstLine(line, rest);
    assert Chomp(line + [NL]) == line;
  }

  lemma ScanIsDocuments(c: Bytes)
    requires c != []
    ensures Scan(c, [], [], []) == Output(Documents(c))
  {
    ScanIsOnward(c, [], [], []);
    assert [] + c == c;
    OnwardIsGroup(LinesOf(c), [], []);
    assert [] + Group(LinesOf(c), []) == Group(LinesOf(c), []);
  }

  // ---- The loop on positions.

  /** The separator length the loop keeps: the bytes of the line so far, as long as it can be one. */
  function NextLength(s: State, b: byte, length: int): int {
    if b == DASH then (if s.LineBegin? then 1 else if s.DocDash1? || s.DocDash2? then length + 1 else length)
    else if Blank(b) || b == HASH then (if Accepting(s) then length + 1 else length)
    else if s.DocComment? then length + 1 else length
  }

  /** The machine has read `line`. */
  ghost predicate Reading(line: Bytes, s: State, length: int) {
    && NL !in line && s == Run(LineBegin, line)
    && (s.LineBegin? <==> line == [])
    && (!s.LineBegin? && !s.RegularLine? ==> length == |line|)
  }

  lemma ReadingStep(line: Bytes, s: State, length: int, b: byte)
    requires Reading(line, s, length) && b != NL
    ensures Reading(line + [b], Step(s, b), NextLength(s, b, length))
  {
    RunOneMore(LineBegin, line, b);
  }

  /** Before position `i` stand the document in progress, from `docStart`, and the line in progress. */
  ghost predicate Placed(c: Bytes, docStart: nat, i: nat, doc: Bytes, line: Bytes) {
    docStart + |doc| + |line| == i <= |c| && c[docStart..i] == doc + line
  }

  lemma PlacedStep(c: Bytes, docStart: nat, i: nat, doc: Bytes, line: Bytes)
    requires i < |c| && Placed(c, docStart, i, doc, line)
    ensures c[i..] == [c[i]] + c[i + 1..] && c[i..][1..] == c[i + 1..]
    ensures Placed(c, docStart, i + 1, doc, line + [c[i]])
    ensures Placed(c, docStart, i + 1, doc + (line + [c[i]]), [])
    ensures Placed(c, i + 1, i + 1, [], [])
  {
    assert c[docStart..i + 1] == c[docStart..i] + [c[i]];
  }

  lemma PlacedDoc(c: Bytes, docStart: nat, i: nat, doc: Bytes, line: Bytes)
    requires Placed(c, docStart, i, doc, line)
    ensures docStart <= i - |line| <= |c| && c[docStart..i - |line|] == doc
  {
    assert c[docStart..i - |line|] == c[docStart..i][..|doc|];
  }

  /** Between two bytes: what is placed and read so far, and that going on from here gives the
      documents of the whole stream. */
  ghost predicate Splitting(c: Bytes, docStart: int, i: int, doc: Bytes, line: Bytes, s: State, length: int, docs: seq<Bytes>) {
    && 0 <= docStart && 0 <= i && Placed(c, docStart, i, doc, line) && Reading(line, s, length)
    && Scan(c[i..], doc, line, docs) == Scan(c, [], [], [])
  }

  lemma SplittingStarts(c: Bytes)
    ensures Splitting(c, 0, 0, [], [], LineBegin, 0, [])
  {
    assert c[0..] == c;
  }

  lemma SplittingByte(c: Bytes, docStart: int, i: int, doc: Bytes, line: Bytes, s: State, length: int, docs: seq<Bytes>)
    requires Splitting(c, docStart, i, doc, line, s, length, docs) && i < |c| && c[i] != NL
    ensures Splitting(c, docStart, i + 1, doc, line + [c[i]], Step(s, c[i]), NextLength(s, c[i], length), docs)
  {
    PlacedStep(c, docStart, i, doc, line);
    ReadingStep(line, s, length, c[i]);
  }

  /** At the end of a line the state tells whether it is a separator, and then the document ends
      where the separator begins. */
  lemma SplittingLine(c: Bytes, docStart: int, i: int, doc: Bytes, line: Bytes, s: State, length: int, docs: seq<Bytes>)
    requires Splitting(c, docStart, i, doc, line, s, length, docs) && i < |c| && c[i] == NL
    ensures Accepting(s) ==> docStart <= i - length <= i
                             && Splitting(c, i + 1, i + 1, [], [], LineBegin, 0, docs + [c[docStart..i - length]])
    ensures !Accepting(s) ==> Splitting(c, docStart, i + 1, doc + (line + [NL]), [], LineBegin, 0, docs)
  {
    PlacedStep(c, docStart, i, doc, line);
    AcceptsSeparators(line);
    PlacedDoc(c, docStart, i, doc, line);
  }

  lemma SplittingEnds(c: Bytes, docStart: int, doc: Bytes, line: Bytes, s: State, length: int, docs: seq<Bytes>)
    requires Splitting(c, docStart, |c|, doc, line, s, length, docs) && c != []
    ensures docStart <= |c|
    ensures docStart == |c| ==> Output(docs) == Output(Documents(c))
    ensures docStart < |c| && Accepting(s) ==>
              docStart <= |c| - length <= |c| && Output(docs + [c[docStart..|c| - length]]) == Output(Documents(c))
    ensures docStart < |c| && !Accepting(s) ==> Output(docs + [c[docStart..]]) == Output(Documents(c))
  {
    ScanIsDocuments(c);
    AcceptsSeparators(line);
    PlacedDoc(c, docStart, |c|, doc, line);
    assert c[docStart..] == c[docStart..|c|];
  }

  method SplitContent(content: Bytes) returns (docs: seq<Bytes>)
    ensures docs == Documents(content)
  {
    docs := [];
    var state := LineBegin;
    var docStart, separatorLength := 0, 0;
    ghost var doc: Bytes, line: Bytes := [], [];
    var index := 0;
    SplittingStarts(content);
    while index < |content|
      invariant index <= |content| && Splitting(content, docStart, index, doc, line, state, separatorLength, docs)
    {
      var ch := content[index];
      if ch == NL {
        SplittingLine(content, docStart, index, doc, line, state, separatorLength, docs);
        if Accepting(state) {
          docs := docs + [content[docStart..index - separatorLength]];
          docStart := index + 1;
          doc, line := [], [];
        } else {
          doc, line := doc + (line + [NL]), [];
        }
        separatorLength := 0;
        state := LineBegin;
      } else {
        SplittingByte(content, docStart, index, doc, line, state, separatorLength, docs);
        separatorLength := NextLength(state, ch, separatorLength);
        state := Step(state, ch);
        line := line + [ch];
      }
      index := index + 1;
    }
    if content != [] { SplittingEnds(content, docStart, doc, line, state, separatorLength, docs); }
    if docStart != (if content == [] then 1 else |content|) {
      if Accepting(state) {
        docs := docs + [content[docStart..|content| - separatorLength]];
      } else {
        docs := docs + [content[docStart..]];
      }
    }
  }
}
