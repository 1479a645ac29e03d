/** Names in dictionary order, as Go compares strings. */
module NameOrder {
  predicate Less(a: string, b: string) {
    b != [] && (a == [] || a[0] < b[0] || (a[0] == b[0] && Less(a[1..], b[1..])))
  }

  /** Up to position `i` the names agree, and there the first one ends or is smaller. */
  predicate PrecedesAt(a: string, b: string, i: int) {
    0 <= i <= |a| && i < |b| && a[..i] == b[..i] && (i == |a| || a[i] < b[i])
  }

  /** A name comes before another if it is smaller at the first position where they differ, or is the
      beginning of it. */
  lemma LessExact(a: string, b: string)
    ensures Less(a, b) <==> exists i :: PrecedesAt(a, b, i)
  {
    if Less(a, b) { var i := LessFound(a, b); }
    if i :| PrecedesAt(a, b, i) { LessHolds(a, b, i); }
  }

  lemma {:induction false} LessFound(a: string, b: string) returns (i: int)
    requires Less(a, b)
    ensures PrecedesAt(a, b, i)
    decreases |a|
  {
    if a == [] || a[0] < b[0] {
      i := 0;
    } else {
      var j := LessFound(a[1..], b[1..]);
      i := j + 1;
      assert a[..i] == [a[0]] + a[1..][..j] && b[..i] == [b[0]] + b[1..][..j];
    }
  }

  lemma {:induction false} LessHolds(a: string, b: string, i: int)
    requires PrecedesAt(a, b, i)
    ensures Less(a, b)
    decreases |a|
  {
    if i > 0 {
      assert a[0] == a[..i][0] && b[0] == b[..i][0];
      assert a[1..][..i - 1] == a[..i][1..] && b[1..][..i - 1] == b[..i][1..];
      LessHolds(a[1..], b[1..], i - 1);
    }
  }

  lemma {:induction false} LessIrreflexive(a: string)
    ensures !Less(a, a)
  {
    if a != [] { LessIrreflexive(a[1..]); }
  }

  lemma {:induction false} LessTransitive(a: string, b: string, c: string)
    requires Less(a, b) && Less(b, c)
    ensures Less(a, c)
  {
    if a != [] && a[0] == b[0] == c[0] { LessTransitive(a[1..], b[1..], c[1..]); }
  }

  lemma {:induction false} LessTotal(a: string, b: string)
    ensures Less(a, b) || Less(b, a) || a == b
  {
    if a != [] && b != [] && a[0] == b[0] {
      LessTotal(a[1..], b[1..]);
      assert a == [a[0]] + a[1..] && b == [b[0]] + b[1..];
    }
  }

  predicate Increasing(s: seq<string>) {
    forall i, j :: 0 <= i < j < |s| ==> Less(s[i], s[j])
  }

  /** An increasing list is determined by its elements. */
  lemma {:induction false} IncreasingUnique(s: seq<string>, t: seq<string>)
    requires Increasing(s) && Increasing(t) && forall n :: n in s <==> n in t
    ensures s == t
    decreases |s|
  {
    assert t != [] ==> t[0] in t;
    if s != [] {
      assert s[0] in t;
      assert t[0] in s;
      SameFirst(s, t);
      var a, b := s[1..], t[1..];
      forall n ensures n in a <==> n in b {
        TailHas(s, n);
        TailHas(t, n);
      }
      IncreasingUnique(a, b);
      assert s == [s[0]] + a && t == [t[0]] + b;
    }
  }

  lemma SameFirst(s: seq<string>, t: seq<string>)
    requires s != [] && t != [] && Increasing(s) && Increasing(t) && s[0] in t && t[0] in s
    ensures s[0] == t[0]
  {
    var i :| 0 <= i < |s| && s[i] == t[0];
    var j :| 0 <= j < |t| && t[j] == s[0];
    if i > 0 && j > 0 {
      LessTransitive(s[0], s[i], s[0]);
      LessIrreflexive(s[0]);
    }
  }

  lemma TailHas(s: seq<string>, n: string)
    requires s != [] && Increasing(s)
    ensures n in s[1..] <==> n in s && n != s[0]
  {
    if n in s[1..] {
      var i :| 0 <= i < |s| - 1 && s[1..][i] == n;
      assert s[i + 1] == n && Less(s[0], n);
      LessIrreflexive(n);
    }
    if n in s && n != s[0] {
      var i :| 0 < i < |s| && s[i] == n;
      assert s[1..][i - 1] == n;
    }
  }

  /** Where `n`, not in the list, goes. */
  method Position(s: seq<string>, n: string) returns (k: nat)
    requires Increasing(s) && n !in s
    ensures k <= |s| && Increasing(s[..k] + [n] + s[k..])
  {
    k := 0;
    while k < |s| && Less(s[k], n)
      invariant k <= |s| && forall i :: 0 <= i < k ==> Less(s[i], n)
    {
      k := k + 1;
    }
    InsertKeeps(s, n, k);
  }

  lemma InsertKeeps(s: seq<string>, n: string, k: nat)
    requires Increasing(s) && n !in s && k <= |s|
    requires forall i :: 0 <= i < k ==> Less(s[i], n)
    requires k < |s| ==> !Less(s[k], n)
    ensures Increasing(s[..k] + [n] + s[k..])
  {
    var t := s[..k] + [n] + s[k..];
    forall i | k <= i < |s| ensures Less(n, s[i]) {
      assert s[k] in s;
      LessTotal(s[k], n);
      if i > k { LessTransitive(n, s[k], s[i]); }
    }
    forall i, j | 0 <= i < j < |t| ensures Less(t[i], t[j]) {
      var a, b := if i <= k then i else i - 1, if j <= k then j else j - 1;
      assert i != k ==> t[i] == s[a];
      assert j != k ==> t[j] == s[b];
    }
  }

  /** Sorts distinct names. */
  method Sort(names: set<string>) returns (s: seq<string>)
    ensures Increasing(s) && forall n :: n in s <==> n in names
  {
    s := [];
    var left := names;
    while left != {}
      invariant left <= names && Increasing(s)
      invariant forall n :: n in s <==> n in names && n !in left
      decreases left
    {
      var n :| n in left;
      var k := Position(s, n);
      left := left - {n};
      Inserted(s, n, k);
      s := s[..k] + [n] + s[k..];
    }
  }

  lemma Inserted(s: seq<string>, n: string, k: nat)
    requires k <= |s|
    ensures forall m :: m in s[..k] + [n] + s[k..] <==> m == n || m in s
  {
    assert s == s[..k] + s[k..];
  }
}
