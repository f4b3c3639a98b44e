/** Character order on strings, prefixes, and the stable sort that the
    audited programs take from their host languages. */
module Text {

  datatype Option<+T> = None | Some(value: T)

  type Byte = n: nat | n < 256

  /** Strict order by characters, as Python compares strings. ECMAScript compares
      UTF-16 code units, which is the same order up to U+D7FF. */
  predicate Less(a: string, b: string) {
    b != [] && (a == [] || a[0] < b[0] || (a[0] == b[0] && Less(a[1..], b[1..])))
  }

  predicate AtMost(a: string, b: string) {
    a == b || Less(a, b)
  }

  lemma {:induction false} LessIrreflexive(a: string)
    ensures !Less(a, a)
  {
    if a != [] { LessIrreflexive(a[1..]); }
  }

  lemma {:induction false} LessTotal(a: string, b: string)
    ensures Less(a, b) || a == b || Less(b, a)
  {
    if a != [] && b != [] && a[0] == b[0] {
      LessTotal(a[1..], b[1..]);
      assert a == [a[0]] + a[1..] && b == [b[0]] + b[1..];
    }
  }

  lemma {:induction false} LessTransitive(a: string, b: string, c: string)
    requires Less(a, b) && Less(b, c)
    ensures Less(a, c)
  {
    if a != [] && a[0] == b[0] == c[0] { LessTransitive(a[1..], b[1..], c[1..]); }
  }

  lemma AtMostTransitive(a: string, b: string, c: string)
    requires AtMost(a, b) && AtMost(b, c)
    ensures AtMost(a, c)
    ensures Less(a, b) || Less(b, c) ==> Less(a, c)
  {
    if Less(a, b) && Less(b, c) { LessTransitive(a, b, c); }
  }

  /** The two strict orders exclude each other. */
  lemma LessAsymmetric(a: string, b: string)
    requires Less(a, b)
    ensures !Less(b, a) && a != b
  {
    LessIrreflexive(a);
    if Less(b, a) { LessTransitive(a, b, a); }
  }

  lemma {:induction false} PrefixAtMost(p: string, x: string)
    requires p <= x
    ensures AtMost(p, x)
  {
    if p != [] {
      PrefixAtMost(p[1..], x[1..]);
      assert p == [p[0]] + p[1..] && x == [x[0]] + x[1..];
    }
  }

  /** The strings that start with p form an interval: whatever lies between p
      and a string starting with p starts with p as well. */
  lemma {:induction false} PrefixInterval(p: string, q: string, x: string)
    requires p <= x && AtMost(p, q) && AtMost(q, x)
    ensures p <= q
  {
    if p != [] {
      assert p[0] == q[0] == x[0];
      assert p == [p[0]] + p[1..] && q == [q[0]] + q[1..] && x == [x[0]] + x[1..];
      PrefixInterval(p[1..], q[1..], x[1..]);
    }
  }

  // ---- stable sort by a string key ----------------------------------------

  /** The key of a list of plain strings. */
  function Itself(s: string): string { s }

  ghost predicate SortedBy<T(!new)>(key: T -> string, s: seq<T>) {
    forall i, j :: 0 <= i < j < |s| ==> AtMost(key(s[i]), key(s[j]))
  }

  /** Strictly increasing keys: sorted, and no key twice. */
  ghost predicate StrictBy<T(!new)>(key: T -> string, s: seq<T>) {
    forall i, j :: 0 <= i < j < |s| ==> Less(key(s[i]), key(s[j]))
  }

  function InsertBy<T>(key: T -> string, x: T, s: seq<T>): (r: seq<T>)
    ensures multiset(r) == multiset{x} + multiset(s)
    ensures |r| == |s| + 1
  {
    if s == [] || !Less(key(s[0]), key(x)) then
      [x] + s
    else
      assert s == [s[0]] + s[1..];
      [s[0]] + InsertBy(key, x, s[1..])
  }

  function SortBy<T>(key: T -> string, s: seq<T>): (r: seq<T>)
    ensures multiset(r) == multiset(s)
    ensures |r| == |s|
  {
    if s == [] then []
    else
      assert s == [s[0]] + s[1..];
      InsertBy(key, s[0], SortBy(key, s[1..]))
  }

  lemma {:induction false} InsertSorted<T(!new)>(key: T -> string, x: T, s: seq<T>)
    requires SortedBy(key, s)
    ensures SortedBy(key, InsertBy(key, x, s))
  {
    if s == [] || !Less(key(s[0]), key(x)) {
      if s != [] { LessTotal(key(s[0]), key(x)); }
      forall j | 0 <= j < |s|
        ensures AtMost(key(x), key(s[j]))
      {
        if j > 0 { AtMostTransitive(key(x), key(s[0]), key(s[j])); }
      }
    } else {
      InsertSorted(key, x, s[1..]);
      var rest := InsertBy(key, x, s[1..]);
      forall y | y in rest
        ensures AtMost(key(s[0]), key(y))
      {
        assert y in multiset(rest);
        assert y == x || y in multiset(s[1..]);
      }
    }
  }

  lemma {:induction false} SortSorted<T(!new)>(key: T -> string, s: seq<T>)
    ensures SortedBy(key, SortBy(key, s))
  {
    if s != [] {
      SortSorted(key, s[1..]);
      InsertSorted(key, s[0], SortBy(key, s[1..]));
    }
  }

  lemma SameElements<T>(a: seq<T>, b: seq<T>)
    requires multiset(a) == multiset(b)
    ensures forall x :: x in a <==> x in b
  {
    assert forall x :: x in a <==> x in multiset(a);
  }

  ghost predicate Distinct<T>(s: seq<T>) {
    forall i, j :: 0 <= i < j < |s| ==> s[i] != s[j]
  }

  lemma {:induction false} DistinctCounts<T>(s: seq<T>)
    ensures Distinct(s) <==> forall x :: multiset(s)[x] <= 1
  {
    if s != [] {
      var init, last := s[..|s| - 1], s[|s| - 1];
      DistinctCounts(init);
      assert s == init + [last];
      assert Distinct(s) <==> Distinct(init) && last !in init;
      assert last in init <==> multiset(init)[last] >= 1;
      assert multiset(s)[last] == multiset(init)[last] + 1;
      assert forall x :: x != last ==> multiset(s)[x] == multiset(init)[x];
    }
  }

  lemma DistinctRearranged<T>(a: seq<T>, b: seq<T>)
    requires multiset(a) == multiset(b) && Distinct(a)
    ensures Distinct(b)
  {
    DistinctCounts(a);
    DistinctCounts(b);
  }

  // ---- selecting -----------------------------------------------------------

  /** The elements that are kept, in order. */
  function Where<T(!new)>(s: seq<T>, keep: T -> bool): (r: seq<T>)
    ensures forall x :: x in r <==> x in s && keep(x)
    ensures |r| <= |s|
  {
    if s == [] then []
    else if keep(s[0]) then [s[0]] + Where(s[1..], keep)
    else Where(s[1..], keep)
  }

  lemma {:induction false} WhereNone<T(!new)>(s: seq<T>, keep: T -> bool)
    requires forall x :: x in s ==> !keep(x)
    ensures Where(s, keep) == []
  {
    if s != [] { WhereNone(s[1..], keep); }
  }

  // ---- splitting -----------------------------------------------------------

  /** Index of the first separator, or the length. */
  function FirstOf<T(==)>(s: seq<T>, sep: T): (k: nat)
    ensures k <= |s| && (k < |s| ==> s[k] == sep)
    ensures forall i :: 0 <= i < k ==> s[i] != sep
  {
    if s == [] || s[0] == sep then 0 else 1 + FirstOf(s[1..], sep)
  }

  lemma FirstOfUnique<T>(s: seq<T>, sep: T, k: nat)
    requires k <= |s| && (k < |s| ==> s[k] == sep) && forall i :: 0 <= i < k ==> s[i] != sep
    ensures FirstOf(s, sep) == k
  {
  }

  /** The pieces between separators, empty ones included. */
  function Split<T(==)>(s: seq<T>, sep: T): (r: seq<seq<T>>)
    ensures r != []
  {
    var k := FirstOf(s, sep);
    if k == |s| then [s] else [s[..k]] + Split(s[k + 1..], sep)
  }

  lemma SplitOne(s: string)
    requires '/' !in s
    ensures Split(s, '/') == [s]
  {
    FirstOfUnique(s, '/', |s|);
  }

  lemma SplitCons(a: string, b: string)
    requires '/' !in a
    ensures Split(a + "/" + b, '/') == [a] + Split(b, '/')
  {
    var s := a + "/" + b;
    FirstOfUnique(s, '/', |a|);
    assert s[..|a|] == a && s[|a| + 1..] == b;
  }

  lemma {:induction false} SplitAppend(s: string, name: string)
    requires '/' !in name
    ensures Split(s + "/" + name, '/') == Split(s, '/') + [name]
    decreases |s|
  {
    var k := FirstOf(s, '/');
    if k == |s| {
      SplitCons(s, name);
      SplitOne(name);
    } else {
      var t := s[k + 1..];
      assert s == s[..k] + "/" + t;
      assert s + "/" + name == s[..k] + "/" + (t + "/" + name);
      SplitCons(s[..k], t + "/" + name);
      SplitAppend(t, name);
    }
  }

  lemma InCons<T>(a: T, rest: seq<T>, x: T)
    ensures x in [a] + rest <==> x == a || x in rest
  {
    assert ([a] + rest)[0] == a;
    if x in rest {
      var i :| 0 <= i < |rest| && rest[i] == x;
      assert ([a] + rest)[i + 1] == x;
    }
  }

  lemma SplitUnfolds<T>(s: seq<T>, sep: T, k: nat)
    requires k == FirstOf(s, sep)
    ensures k == |s| ==> Split(s, sep) == [s[..k]]
    ensures k < |s| ==> Split(s, sep) == [s[..k]] + Split(s[k + 1..], sep)
  {
    if k == |s| { assert s[..k] == s; }
  }

  lemma SplitHead<T>(s: seq<T>, sep: T, k: nat, x: seq<T>, rest: seq<seq<T>>)
    requires k == FirstOf(s, sep) && k < |s| && rest == Split(s[k + 1..], sep)
    ensures x in Split(s, sep) <==> x == s[..k] || x in rest
  {
    SplitUnfolds(s, sep, k);
    InCons(s[..k], rest, x);
  }

  lemma PieceBehind<T>(s: seq<T>, sep: T, k: nat, i: int, j: int)
    requires k < |s| && s[k] == sep && k < i <= j <= |s|
    ensures Piece(s, sep, i, j) <==> Piece(s[k + 1..], sep, i - k - 1, j - k - 1)
    ensures s[i..j] == s[k + 1..][i - k - 1..j - k - 1]
  {
    var t := s[k + 1..];
    assert forall n :: 0 <= n < |t| ==> t[n] == s[n + k + 1];
    if Piece(t, sep, i - k - 1, j - k - 1) {
      forall n | i <= n < j ensures s[n] != sep { assert t[n - k - 1] != sep; }
    }
  }

  lemma {:induction false} SplitIsPiece<T>(s: seq<T>, sep: T, x: seq<T>) returns (i: int, j: int)
    requires x in Split(s, sep)
    ensures Piece(s, sep, i, j) && s[i..j] == x
    decreases |s|
  {
    var k := FirstOf(s, sep);
    i, j := 0, k;
    if k == |s| {
      SplitUnfolds(s, sep, k);
    } else {
      SplitHead(s, sep, k, x, Split(s[k + 1..], sep));
      if x != s[..k] {
        i, j := SplitIsPiece(s[k + 1..], sep, x);
        i, j := i + k + 1, j + k + 1;
        PieceBehind(s, sep, k, i, j);
      }
    }
  }

  lemma {:induction false} PieceInSplit<T>(s: seq<T>, sep: T, i: int, j: int)
    requires Piece(s, sep, i, j)
    ensures s[i..j] in Split(s, sep)
    decreases |s|
  {
    var k := FirstOf(s, sep);
    if i == 0 {
      FirstOfUnique(s, sep, j);
      SplitUnfolds(s, sep, k);
      assert Split(s, sep)[0] == s[..k];
    } else {
      assert k < i;
      PieceBehind(s, sep, k, i, j);
      PieceInSplit(s[k + 1..], sep, i - k - 1, j - k - 1);
      SplitHead(s, sep, k, s[i..j], Split(s[k + 1..], sep));
    }
  }

  /** The pieces are the longest runs between separators. */
  lemma InSplit<T>(s: seq<T>, sep: T, x: seq<T>)
    ensures x in Split(s, sep) <==> exists i, j :: Piece(s, sep, i, j) && s[i..j] == x
  {
    if x in Split(s, sep) { var i, j := SplitIsPiece(s, sep, x); }
    if i, j :| Piece(s, sep, i, j) && s[i..j] == x { PieceInSplit(s, sep, i, j); }
  }

  ghost predicate Piece<T>(s: seq<T>, sep: T, i: int, j: int) {
    && 0 <= i <= j <= |s| && (i == 0 || s[i - 1] == sep) && (j == |s| || s[j] == sep)
    && forall k :: i <= k < j ==> s[k] != sep
  }

  function Together(parts: seq<string>): (r: string)
    requires parts != []
  {
    if |parts| == 1 then parts[0] else Together(parts[..|parts| - 1]) + "/" + parts[|parts| - 1]
  }

  lemma {:induction false} TogetherSplit(s: string)
    ensures Together(Split(s, '/')) == s
    decreases |s|
  {
    if '/' !in s {
      SplitOne(s);
    } else {
      var k := LastSlash(s);
      var a, b := s[..k], s[k + 1..];
      TogetherSplit(a);
      assert s == a + "/" + b;
      SplitAppend(a, b);
      assert (Split(a, '/') + [b])[..|Split(a, '/')|] == Split(a, '/');
    }
  }

  lemma {:induction false} LastSlash(s: string) returns (k: nat)
    requires '/' in s
    ensures k < |s| && s[k] == '/' && '/' !in s[k + 1..]
  {
    var n := |s| - 1;
    if s[n] == '/' {
      k := n;
    } else {
      assert '/' in s[..n] by { assert s == s[..n] + [s[n]]; }
      k := LastSlash(s[..n]);
      assert s[k + 1..] == s[..n][k + 1..] + [s[n]];
    }
  }

  lemma Regrouped(a: string, b: string, c: string)
    ensures a + "/" + (b + "/" + c) == a + "/" + b + "/" + c
  {
  }

  lemma {:induction false} SplitTwo(a: string, b: string)
    ensures Split(a + "/" + b, '/') == Split(a, '/') + Split(b, '/')
    decreases |b|
  {
    if '/' !in b {
      SplitOne(b);
      SplitAppend(a, b);
    } else {
      var k := LastSlash(b);
      var x, y := b[..k], b[k + 1..];
      SplitTwo(a, x);
      assert b == x + "/" + y;
      SplitThree(a, x, y);
    }
  }

  lemma SplitThree(a: string, x: string, y: string)
    requires '/' !in y && Split(a + "/" + x, '/') == Split(a, '/') + Split(x, '/')
    ensures Split(a + "/" + (x + "/" + y), '/') == Split(a, '/') + Split(x + "/" + y, '/')
  {
    Regrouped(a, x, y);
    SplitAppend(x, y);
    SplitAppend(a + "/" + x, y);
  }

  /** Being the same path or starting with the path and a slash is having its parts. */
  lemma StartsByParts(a: string, p: string)
    ensures p == a || a + "/" <= p <==> Split(a, '/') <= Split(p, '/')
  {
    if a + "/" <= p {
      assert p == a + "/" + p[|a| + 1..];
      SplitTwo(a, p[|a| + 1..]);
    }
    if Split(a, '/') <= Split(p, '/') { PartsStart(a, p); }
  }

  lemma PartsStart(a: string, p: string)
    requires Split(a, '/') <= Split(p, '/')
    ensures p == a || a + "/" <= p
  {
    var parts, all := Split(a, '/'), Split(p, '/');
    assert all == parts + all[|parts|..];
    TogetherSplit(a);
    TogetherSplit(p);
    TogetherOn(parts, all[|parts|..]);
  }

  lemma {:induction false} TogetherOn(a: seq<string>, more: seq<string>)
    requires a != []
    ensures more == [] ==> Together(a + more) == Together(a)
    ensures more != [] ==> Together(a) + "/" <= Together(a + more)
  {
    if more == [] {
      assert a + more == a;
    } else {
      var n := |more| - 1;
      TogetherOn(a, more[..n]);
      assert (a + more)[..|a| + n] == a + more[..n];
    }
  }

  /** The first character in which two strings differ decides, or the shorter one. */
  lemma {:induction false} LessMeans(a: string, b: string)
    ensures Less(a, b) <==> exists k :: DecidesAt(a, b, k)
  {
    if a != [] && b != [] && a[0] == b[0] {
      LessMeans(a[1..], b[1..]);
      if k :| DecidesAt(a[1..], b[1..], k) {
        assert a[..k + 1] == [a[0]] + a[1..][..k] && b[..k + 1] == [b[0]] + b[1..][..k];
        assert DecidesAt(a, b, k + 1);
      }
      if k :| DecidesAt(a, b, k) {
        assert k > 0;
        assert a[1..][..k - 1] == a[..k][1..] && b[1..][..k - 1] == b[..k][1..];
        assert DecidesAt(a[1..], b[1..], k - 1);
      }
    } else if Less(a, b) {
      assert DecidesAt(a, b, 0);
    } else if a != [] && b != [] {
      assert forall k :: 0 < k <= |a| && k < |b| ==> a[..k][0] == a[0] && b[..k][0] == b[0];
    }
  }

  ghost predicate DecidesAt(a: string, b: string, k: int) {
    0 <= k <= |a| && k < |b| && a[..k] == b[..k] && (k == |a| || a[k] < b[k])
  }
}
