/** Which documents a config stream yields, and the lines they are reported at. */
module YamlDocs {
  import opened YamlLines
  import YamlSplitter

  datatype Doc = Doc(line: nat, content: Bytes)

  /** Nothing, or a comment, after the blanks. */
  predicate CommentOrBlank(t: Bytes) {
    t == [] || t[0] == NL || t[0] == HASH || (Blank(t[0]) && CommentOrBlank(t[1..]))
  }

  predicate NothingButComments(ls: Lines) {
    match ls case End => true case Line(t, rest) => CommentOrBlank(t) && NothingButComments(rest)
  }

  // ---- The emptiness scan.

  /** The loop of `emptyDocContent` from one of its two states on. */
  ghost predicate EmptyFrom(c: Bytes, comment: bool) {
    c == [] ||
    if c[0] == HASH then EmptyFrom(c[1..], true)
    else if c[0] == NL then EmptyFrom(c[1..], false)
    else if Blank(c[0]) then EmptyFrom(c[1..], comment)
    else comment && EmptyFrom(c[1..], comment)
  }

  lemma {:induction false} EmptyFromMeans(c: Bytes, comment: bool)
    ensures EmptyFrom(c, comment) <==>
            c == [] || ((comment || CommentOrBlank(c[..FirstLineLength(c)])) &&
                        NothingButComments(LinesOf(c[FirstLineLength(c)..])))
    decreases |c|
  {
    if c != [] {
      var n, d := FirstLineLength(c), c[1..];
      var next := if c[0] == HASH then true else if c[0] == NL then false else comment;
      EmptyFromMeans(d, next);
      var t := c[..n];
      assert t[0] == c[0] && t[1..] == d[..n - 1];
      if c[0] == NL || d == [] {
        assert c[n..] == d && t[1..] == [];
      } else {
        assert c[n..] == d[n - 1..];
      }
    }
  }

  /** A document is empty exactly when each of its lines is blank or a comment. */
  method EmptyDocContent(content: Bytes) returns (empty: bool)
    ensures empty <==> NothingButComments(LinesOf(content))
  {
    var comment := false;
    var i := 0;
    EmptyFromMeans(content, false);
    assert content[0..] == content;
    while i < |content|
      invariant 0 <= i <= |content| && EmptyFrom(content, false) == EmptyFrom(content[i..], comment)
    {
      var ch := content[i];
      assert content[i..][1..] == content[i + 1..];
      if ch == HASH {
        comment := true;
      } else if ch == NL {
        comment := false;
      } else if !Blank(ch) && !comment {
        return false;
      }
      i := i + 1;
    }
    return true;
  }

  /** A line counts for nothing exactly if what follows its tabs, carriage returns and spaces is its
      end or a `#`. */
  lemma CommentOrBlankExact(t: Bytes)
    ensures CommentOrBlank(t) <==>
            exists k :: 0 <= k <= |t| && BlankUpTo(t, k) && (k == |t| || t[k] == 10 || t[k] == 35)
  {
    if CommentOrBlank(t) { var k := CommentFound(t); }
    if k :| 0 <= k <= |t| && BlankUpTo(t, k) && (k == |t| || t[k] == 10 || t[k] == 35) { CommentHolds(t, k); }
  }

  lemma {:induction false} CommentFound(t: Bytes) returns (k: int)
    requires CommentOrBlank(t)
    ensures 0 <= k <= |t| && BlankUpTo(t, k) && (k == |t| || t[k] == 10 || t[k] == 35)
    decreases |t|
  {
    if t == [] || t[0] == NL || t[0] == HASH {
      k := 0;
    } else {
      var j := CommentFound(t[1..]);
      k := j + 1;
      forall i | 0 < i < k ensures t[i] == 9 || t[i] == 13 || t[i] == 32 { assert t[i] == t[1..][i - 1]; }
    }
  }

  lemma {:induction false} CommentHolds(t: Bytes, k: int)
    requires 0 <= k <= |t| && BlankUpTo(t, k) && (k == |t| || t[k] == 10 || t[k] == 35)
    ensures CommentOrBlank(t)
    decreases |t|
  {
    if k > 0 { CommentHolds(t[1..], k - 1); }
  }

  /** A document of line ends, tabs and spaces alone is empty, whatever line ends it uses. */
  lemma BlankIsEmpty(c: Bytes)
    requires forall i :: 0 <= i < |c| ==> c[i] == 9 || c[i] == 10 || c[i] == 13 || c[i] == 32
    ensures NothingButComments(LinesOf(c))
  {
    BlankFrom(c);
    EmptyFromMeans(c, false);
  }

  lemma {:induction false} BlankFrom(c: Bytes)
    requires forall i :: 0 <= i < |c| ==> c[i] == 9 || c[i] == 10 || c[i] == 13 || c[i] == 32
    ensures EmptyFrom(c, false)
    decreases |c|
  {
    if c != [] { BlankFrom(c[1..]); }
  }

  // ---- Line numbers.

  function Newlines(c: Bytes): nat {
    if c == [] then 0 else (if c[0] == NL then 1 else 0) + Newlines(c[1..])
  }

  lemma {:induction false} NewlinesSum(a: Bytes, b: Bytes)
    ensures Newlines(a + b) == Newlines(a) + Newlines(b)
    decreases |a|
  {
    if a == [] {
      assert a + b == b;
    } else {
      NewlinesSum(a[1..], b);
      assert (a + b)[1..] == a[1..] + b;
    }
  }

  lemma {:induction false} NoNewlines(a: Bytes)
    requires NL !in a
    ensures Newlines(a) == 0
  {
    if a != [] { NoNewlines(a[1..]); }
  }

  /** The pieces of a document between newlines, a last empty one not counted. */
  function ContentLines(c: Bytes): nat {
    Newlines(c) + if c == [] || c[|c| - 1] == NL then 0 else 1
  }

  /** A document together with the position of its first byte in the stream. */
  datatype Entry = Entry(start: nat, content: Bytes)

  function Place(ls: Lines, cur: Bytes, start: nat): seq<Entry> {
    match ls
    case End => if cur == [] then [] else [Entry(start, cur)]
    case Line(t, rest) =>
      if SeparatorLine(t) then [Entry(start, cur)] + Place(rest, [], start + |cur| + |t|)
      else Place(rest, cur + t, start)
  }

  function Entries(c: Bytes): seq<Entry> {
    if c == [] then [Entry(0, [])] else Place(LinesOf(c), [], 0)
  }

  ghost predicate Contents(es: seq<Entry>, docs: seq<Bytes>) {
    |es| == |docs| && forall k :: 0 <= k < |es| ==> es[k].content == docs[k]
  }

  lemma {:induction false} PlaceContents(ls: Lines, cur: Bytes, start: nat)
    ensures Contents(Place(ls, cur, start), Group(ls, cur))
    decreases ls
  {
    match ls
    case End =>
    case Line(t, rest) =>
      if SeparatorLine(t) {
        PlaceContents(rest, [], start + |cur| + |t|);
      } else {
        PlaceContents(rest, cur + t, start);
      }
  }

  ghost predicate At(c: Bytes, e: Entry) {
    e.start + |e.content| <= |c| && c[e.start..e.start + |e.content|] == e.content
  }

  lemma {:induction false} PlaceAt(c: Bytes, ls: Lines, cur: Bytes, start: nat)
    requires start <= |c| && c[start..] == cur + Flatten(ls)
    ensures forall e :: e in Place(ls, cur, start) ==> At(c, e)
    decreases ls
  {
    match ls
    case End =>
      assert c[start..start + |cur|] == c[start..][..|cur|] == cur;
    case Line(t, rest) =>
      if SeparatorLine(t) {
        SkipSeparator(c, cur, t, rest, start);
        PlaceAt(c, rest, [], start + |cur| + |t|);
        assert c[start..start + |cur|] == c[start..][..|cur|] == cur;
      } else {
        assert c[start..] == cur + t + Flatten(rest);
        PlaceAt(c, rest, cur + t, start);
      }
  }

  lemma SkipSeparator(c: Bytes, cur: Bytes, t: Bytes, rest: Lines, start: nat)
    requires start <= |c| && c[start..] == cur + (t + Flatten(rest))
    ensures start + |cur| + |t| <= |c|
    ensures c[start + |cur| + |t|..] == [] + Flatten(rest)
    ensures c[..start + |cur| + |t|] == c[..start] + cur + t
  {
    var n := |cur| + |t|;
    assert |c[start..]| == n + |Flatten(rest)|;
    assert c[start + n..] == c[start..][n..];
    assert c[..start + n] == c[..start] + c[start..][..n];
    assert c[start..][..n] == cur + t;
  }

  /** The entries are the documents, each at its place in the stream. */
  lemma EntriesAreDocuments(c: Bytes)
    ensures Contents(Entries(c), Documents(c))
    ensures forall e :: e in Entries(c) ==> At(c, e)
  {
    if c != [] {
      PlaceContents(LinesOf(c), [], 0);
      FlattenLines(c);
      assert c[0..] == [] + c;
      PlaceAt(c, LinesOf(c), [], 0);
    }
  }

  // ---- What `splitByDocs` accumulates against the true positions.

  /** A list of documents, wrapped: two listings are compared as values, not element by element. */
  datatype Listing = Listing(docs: seq<Doc>) {
    /** The listing with `doc` put first, unless there is nothing in it. */
    function Prepend(doc: Doc): Listing {
      if NothingButComments(LinesOf(doc.content)) then this else Listing([doc] + docs)
    }
  }

  ghost function Accumulated(docs: seq<Bytes>, line: nat): Listing {
    if docs == [] then Listing([])
    else Accumulated(docs[1..], line + ContentLines(docs[0]) + 1).Prepend(Doc(line, docs[0]))
  }

  /** The non-empty documents, each with the number of newlines before it in the stream. */
  ghost function Truth(c: Bytes, es: seq<Entry>): Listing {
    if es == [] then Listing([])
    else Truth(c, es[1..]).Prepend(Doc(if es[0].start <= |c| then Newlines(c[..es[0].start]) else 0, es[0].content))
  }

  lemma {:induction false} AccumulatesTruth(c: Bytes, ls: Lines, cur: Bytes, start: nat, docs: seq<Bytes>, es: seq<Entry>)
    requires start <= |c| && c[start..] == cur + Flatten(ls)
    requires FromLineStart(ls) && (ls.Line? ==> Whole(cur))
    requires docs == Group(ls, cur) && es == Place(ls, cur, start)
    ensures Accumulated(docs, Newlines(c[..start])) == Truth(c, es)
    decreases ls
  {
    match ls
    case End =>
      EndAccumulates(c, cur, start);
    case Line(t, rest) =>
      if SeparatorLine(t) {
        SkipSeparator(c, cur, t, rest, start);
        AccumulatesTruth(c, rest, [], start + |cur| + |t|, Group(rest, []), Place(rest, [], start + |cur| + |t|));
        SeparatorAccumulates(c, cur, t, rest, start);
      } else {
        TakeLine(c, cur, t, rest, start);
        AccumulatesTruth(c, rest, cur + t, start, docs, es);
      }
  }

  lemma EndAccumulates(c: Bytes, cur: Bytes, start: nat)
    requires start <= |c|
    ensures Accumulated(Group(End, cur), Newlines(c[..start])) == Truth(c, Place(End, cur, start))
  {
  }

  lemma TakeLine(c: Bytes, cur: Bytes, t: Bytes, rest: Lines, start: nat)
    requires start <= |c| && c[start..] == cur + (t + Flatten(rest)) && t != []
    ensures c[start..] == cur + t + Flatten(rest) && (Whole(t) ==> Whole(cur + t))
  {
  }

  lemma SeparatorAccumulates(c: Bytes, cur: Bytes, t: Bytes, rest: Lines, start: nat)
    requires start + |cur| + |t| <= |c| && Whole(cur) && t != [] && NL !in Chomp(t) && (rest.Line? ==> Whole(t))
    requires c[..start + |cur| + |t|] == c[..start] + cur + t
    requires Accumulated(Group(rest, []), Newlines(c[..start + |cur| + |t|])) == Truth(c, Place(rest, [], start + |cur| + |t|))
    ensures Accumulated([cur] + Group(rest, []), Newlines(c[..start])) ==
            Truth(c, [Entry(start, cur)] + Place(rest, [], start + |cur| + |t|))
  {
    var docs, es := Group(rest, []), Place(rest, [], start + |cur| + |t|);
    if rest.Line? { SeparatorCounts(c[..start], cur, t); }
    assert ([cur] + docs)[0] == cur && ([cur] + docs)[1..] == docs;
    assert ([Entry(start, cur)] + es)[0] == Entry(start, cur) && ([Entry(start, cur)] + es)[1..] == es;
    assert rest.End? ==> docs == [] && es == [];
  }

  lemma SeparatorCounts(before: Bytes, cur: Bytes, t: Bytes)
    requires Whole(cur) && Whole(t) && t != [] && NL !in Chomp(t)
    ensures Newlines(before + cur + t) == Newlines(before) + ContentLines(cur) + 1
  {
    NewlinesSum(before + cur, t);
    NewlinesSum(before, cur);
    assert t == Chomp(t) + [NL];
    NewlinesSum(Chomp(t), [NL]);
    NoNewlines(Chomp(t));
  }

  /** Every reported line is the true one, whatever mixture of documents and separators precedes. */
  lemma LineNumbersTrue(c: Bytes)
    ensures Accumulated(Documents(c), 0) == Truth(c, Entries(c))
  {
    if c != [] {
      LinesAreLines(c);
      FlattenLines(c);
      assert c[0..] == [] + c && c[..0] == [];
      AccumulatesTruth(c, LinesOf(c), [], 0, Documents(c), Entries(c));
    } else {
      assert LinesOf([]) == End;
    }
  }

  /** The first `k` documents are listed, and `line` is where the next one is. */
  ghost predicate ListedUpTo(contents: seq<Bytes>, k: int, line: int, docs: seq<Doc>) {
    0 <= k <= |contents| && 0 <= line && Listing(docs + Accumulated(contents[k..], line).docs) == Accumulated(contents, 0)
  }

  lemma ListedStart(contents: seq<Bytes>)
    ensures ListedUpTo(contents, 0, 0, [])
  {
    assert contents[0..] == contents;
    assert [] + Accumulated(contents, 0).docs == Accumulated(contents, 0).docs;
  }

  lemma ListedStep(contents: seq<Bytes>, k: int, line: int, docs: seq<Doc>)
    requires k < |contents| && ListedUpTo(contents, k, line, docs)
    ensures ListedUpTo(contents, k + 1, line + ContentLines(contents[k]) + 1,
                       if NothingButComments(LinesOf(contents[k])) then docs else docs + [Doc(line, contents[k])])
  {
    AccumulatedStep(docs, contents, k, line);
  }

  lemma ListedEnd(contents: seq<Bytes>, line: int, docs: seq<Doc>)
    requires ListedUpTo(contents, |contents|, line, docs)
    ensures Listing(docs) == Accumulated(contents, 0)
  {
    assert contents[|contents|..] == [];
    assert docs + [] == docs;
  }

  method SplitByDocs(content: Bytes) returns (docs: seq<Doc>)
    ensures Listing(docs) == Truth(content, Entries(content))
  {
    docs := [];
    var line := 0;
    var contents := YamlSplitter.SplitContent(content);
    var k := 0;
    ListedStart(contents);
    while k < |contents|
      invariant ListedUpTo(contents, k, line, docs)
    {
      var doc := contents[k];
      var empty := EmptyDocContent(doc);
      ListedStep(contents, k, line, docs);
      if !empty {
        docs := docs + [Doc(line, doc)];
      }
      line := line + ContentLines(doc) + 1;
      k := k + 1;
    }
    ListedEnd(contents, line, docs);
    LineNumbersTrue(content);
  }

  lemma AccumulatedStep(docs: seq<Doc>, contents: seq<Bytes>, k: nat, line: nat)
    requires k < |contents|
    ensures var rest := Accumulated(contents[k + 1..], line + ContentLines(contents[k]) + 1).docs;
            Listing(docs + Accumulated(contents[k..], line).docs) ==
            Listing(if NothingButComments(LinesOf(contents[k])) then docs + rest else docs + [Doc(line, contents[k])] + rest)
  {
    var rest := Accumulated(contents[k + 1..], line + ContentLines(contents[k]) + 1).docs;
    assert contents[k..][1..] == contents[k + 1..];
    assert docs + ([Doc(line, contents[k])] + rest) == docs + [Doc(line, contents[k])] + rest;
  }
}
