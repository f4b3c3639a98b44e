/** The staged-tool catalog: which catalogs are accepted, and how a path is
    brought to canonical form through alias rows. Paths are component lists. */
module Catalog {
  import opened Text

  type Path = seq<string>

  datatype Kind = Directory | File | Alias

  /** `target` is the relative literal, split at slashes. */
  datatype Entry = Entry(path: Path, kind: Kind, target: seq<string>)

  const MAX_HOPS := 32

  // ---- lexical resolution --------------------------------------------------

  /** `posix.resolve` of a relative path below `base`; None once it leaves the
      root, where `posix.normalize` keeps a leading "..". */
  function Walk(base: Path, parts: seq<string>): (r: Option<Path>)
    decreases parts
  {
    if parts == [] then Some(base)
    else if parts[0] == "" || parts[0] == "." then Walk(base, parts[1..])
    else if parts[0] == ".." then (if base == [] then None else Walk(base[..|base| - 1], parts[1..]))
    else Walk(base + [parts[0]], parts[1..])
  }

  /** What a walk does is settled by three laws. First, empty parts and dots change
      nothing. */
  lemma {:induction false} WalkSkips(base: Path, a: seq<string>, dot: string, b: seq<string>)
    requires dot == "" || dot == "."
    ensures Walk(base, a + [dot] + b) == Walk(base, a + b)
    decreases |a|
  {
    if a == [] {
      assert ([dot] + b)[1..] == b && a + [dot] + b == [dot] + b && a + b == b;
    } else {
      assert (a + [dot] + b)[1..] == a[1..] + [dot] + b && (a + b)[1..] == a[1..] + b;
      forall up ensures Walk(up, a[1..] + [dot] + b) == Walk(up, a[1..] + b) { WalkSkips(up, a[1..], dot, b); }
    }
  }

  /** Second, a name followed by two dots changes nothing. */
  lemma {:induction false} WalkCancels(base: Path, a: seq<string>, name: string, b: seq<string>)
    requires PlainName(name)
    ensures Walk(base, a + [name, ".."] + b) == Walk(base, a + b)
    decreases |a|
  {
    if a == [] {
      var parts := [name, ".."] + b;
      assert a + [name, ".."] + b == parts && a + b == b;
      assert parts[1..] == [".."] + b && parts[1..][1..] == b;
      assert (base + [name])[..|base|] == base;
    } else {
      assert (a + [name, ".."] + b)[1..] == a[1..] + [name, ".."] + b && (a + b)[1..] == a[1..] + b;
      forall up ensures Walk(up, a[1..] + [name, ".."] + b) == Walk(up, a[1..] + b) { WalkCancels(up, a[1..], name, b); }
    }
  }

  function Ups(n: nat): (r: seq<string>) {
    seq(n, _ => "..")
  }

  /** Third, leading double dots go up that far, and names are put behind. */
  lemma {:induction false} WalkUp(base: Path, n: nat, parts: seq<string>)
    ensures Walk(base, Ups(n) + parts) == if n <= |base| then Walk(base[..|base| - n], parts) else None
    decreases n
  {
    if n == 0 {
      assert Ups(0) + parts == parts && base[..|base|] == base;
    } else {
      assert (Ups(n) + parts)[1..] == Ups(n - 1) + parts && (Ups(n) + parts)[0] == "..";
      if base != [] {
        var up := base[..|base| - 1];
        WalkUp(up, n - 1, parts);
        assert n <= |base| ==> up[..|up| - (n - 1)] == base[..|base| - n];
      }
    }
  }

  lemma {:induction false} WalkDown(base: Path, names: seq<string>)
    requires forall i :: 0 <= i < |names| ==> PlainName(names[i])
    ensures Walk(base, names) == Some(base + names)
    decreases names
  {
    if names == [] {
      assert base + names == base;
    } else {
      WalkDown(base + [names[0]], names[1..]);
      assert base + [names[0]] + names[1..] == base + names;
    }
  }

  predicate PlainName(s: string) {
    s != "" && s != "." && s != ".."
  }

  predicate PlainPath(p: Path) {
    p != [] && forall i :: 0 <= i < |p| ==> PlainName(p[i])
  }

  function Parent(p: Path): (r: Path)
    requires p != []
  {
    p[..|p| - 1]
  }

  function Dest(e: Entry): (r: Option<Path>)
    requires e.path != []
  {
    Walk(Parent(e.path), e.target)
  }

  /** The relative form is not ".", ".." and does not start with "../". */
  predicate StaysInside(e: Entry)
    requires e.path != [] && e.target != []
  {
    Dest(e).Some? && (Dest(e).value != [] || e.target[|e.target| - 1] == "")
  }

  /** `catalogEntry`, the identity and digest fields aside. */
  predicate EntryShape(e: Entry) {
    && PlainPath(e.path)
    && (if e.kind == Alias then e.target != [] && e.target[0] != "" && StaysInside(e) else e.target == [])
  }

  type Rows = map<Path, Entry>

  function RowsOf(catalog: seq<Entry>): (m: Rows) {
    if catalog == [] then map[] else RowsOf(catalog[..|catalog| - 1])[catalog[|catalog| - 1].path := catalog[|catalog| - 1]]
  }

  lemma {:induction false} RowsHold(catalog: seq<Entry>)
    ensures forall p :: p in RowsOf(catalog) ==> RowsOf(catalog)[p].path == p && RowsOf(catalog)[p] in catalog
    ensures forall e :: e in catalog ==> e.path in RowsOf(catalog)
    ensures (forall i, j :: 0 <= i < j < |catalog| ==> catalog[i].path != catalog[j].path) ==>
              forall e :: e in catalog ==> RowsOf(catalog)[e.path] == e
  {
    if catalog != [] {
      var init := catalog[..|catalog| - 1];
      RowsHold(init);
      assert catalog == init + [catalog[|catalog| - 1]];
    }
  }

  // ---- alias chains --------------------------------------------------------

  predicate RowShape(rows: Rows, p: Path) {
    p in rows && rows[p].path == p && EntryShape(rows[p])
  }

  ghost predicate Keyed(rows: Rows) {
    forall p {:trigger RowShape(rows, p)} :: p in rows ==> RowShape(rows, p)
  }

  /** The row after one alias hop, if there is one. */
  function Hop(rows: Rows, p: Path): (r: Option<Path>)
    requires RowShape(rows, p) && rows[p].kind == Alias
  {
    if Dest(rows[p]).value in rows then Dest(rows[p]) else None
  }

  /** The row after n hops through alias rows. */
  ghost function Chain(rows: Rows, p: Path, n: nat): (r: Option<Path>)
    requires Keyed(rows)
    ensures r.Some? ==> r.value in rows
  {
    if n == 0 then (if p in rows then Some(p) else None)
    else
      var q := Chain(rows, p, n - 1);
      if q.Some? && rows[q.value].kind == Alias then assert RowShape(rows, q.value); Hop(rows, q.value) else None
  }

  /** After n hops the chain stands at a row that is no alias. */
  ghost predicate EndsAfter(rows: Rows, p: Path, n: nat)
    requires Keyed(rows)
  {
    Chain(rows, p, n).Some? && rows[Chain(rows, p, n).value].kind != Alias
  }

  ghost predicate ChainEnds(rows: Rows, p: Path)
    requires Keyed(rows)
  {
    exists n: nat :: EndsAfter(rows, p, n)
  }

  lemma {:induction false} ChainFrom(rows: Rows, p: Path, i: nat, k: nat)
    requires Keyed(rows) && Chain(rows, p, i).Some?
    ensures Chain(rows, p, i + k) == Chain(rows, Chain(rows, p, i).value, k)
  {
    if k > 0 { ChainFrom(rows, p, i, k - 1); }
  }

  lemma {:induction false} BeforeEndAliases(rows: Rows, p: Path, n: nat, i: nat)
    requires Keyed(rows) && EndsAfter(rows, p, n) && i < n
    ensures Chain(rows, p, i).Some? && rows[Chain(rows, p, i).value].kind == Alias
    decreases n - i
  {
    if i + 1 < n { BeforeEndAliases(rows, p, n, i + 1); }
  }

  /** A chain that meets a row twice never ends. */
  lemma {:induction false} CycleNeverEnds(rows: Rows, p: Path, i: nat, j: nat, n: nat)
    requires Keyed(rows) && i < j && Chain(rows, p, i).Some? && Chain(rows, p, i) == Chain(rows, p, j)
    ensures !EndsAfter(rows, p, n)
    decreases n
  {
    if EndsAfter(rows, p, n) {
      if n < j {
        BeyondEnd(rows, p, n, j);
      } else {
        ChainFrom(rows, p, j, n - j);
        ChainFrom(rows, p, i, n - j);
        CycleNeverEnds(rows, p, i, j, i + (n - j));
      }
    }
  }

  lemma {:induction false} BeyondEnd(rows: Rows, p: Path, n: nat, m: nat)
    requires Keyed(rows) && EndsAfter(rows, p, n) && n < m
    ensures Chain(rows, p, m) == None
  {
    if n + 1 < m { BeyondEnd(rows, p, n, m - 1); }
  }

  // ---- accepting a catalog -------------------------------------------------

  predicate DistinctPaths(catalog: seq<Entry>) {
    forall i, j :: 0 <= i < j < |catalog| ==> catalog[i].path != catalog[j].path
  }

  predicate InDirectory(rows: Rows, p: Path)
    requires p != []
  {
    |p| > 1 ==> Parent(p) in rows && rows[Parent(p)].kind == Directory
  }

  /** The row lies in a directory row, and its alias chain ends. */
  ghost predicate RowAnchored(rows: Rows, p: Path)
    requires Keyed(rows)
  {
    p in rows && p != [] && InDirectory(rows, p) && ChainEnds(rows, p)
  }

  ghost predicate Anchored(rows: Rows) {
    Keyed(rows) && forall p {:trigger RowAnchored(rows, p)} :: p in rows ==> RowAnchored(rows, p)
  }

  predicate AllShaped(catalog: seq<Entry>) {
    forall i :: 0 <= i < |catalog| ==> EntryShape(catalog[i])
  }

  /** The catalogs `h1StagedSubjectData` lets through. */
  ghost predicate Accepted(catalog: seq<Entry>) {
    catalog != [] && AllShaped(catalog) && DistinctPaths(catalog) && Anchored(RowsOf(catalog))
  }

  /** The rows passed so far on the way from `start`. */
  ghost predicate Trail(rows: Rows, start: Path, trail: seq<Path>)
    requires Keyed(rows)
  {
    forall i :: 0 <= i < |trail| ==> Chain(rows, start, i) == Some(trail[i])
  }

  lemma RevisitNeverEnds(rows: Rows, start: Path, trail: seq<Path>, current: Path)
    requires Keyed(rows) && Trail(rows, start, trail) && Chain(rows, start, |trail|) == Some(current) && current in trail
    ensures !ChainEnds(rows, start)
  {
    var i :| 0 <= i < |trail| && trail[i] == current;
    forall n: nat ensures !EndsAfter(rows, start, n) { CycleNeverEnds(rows, start, i, |trail|, n); }
  }

  lemma MissingNeverEnds(rows: Rows, start: Path, k: nat)
    requires Keyed(rows) && Chain(rows, start, k).Some? && rows[Chain(rows, start, k).value].kind == Alias
    requires Chain(rows, start, k + 1) == None
    ensures !ChainEnds(rows, start)
  {
    forall n: nat ensures !EndsAfter(rows, start, n) { BrokenNeverEnds(rows, start, k, n); }
  }

  /** Follows one alias chain with its set of visited paths. */
  method FollowAlias(rows: Rows, start: Path) returns (ok: bool)
    requires Keyed(rows) && start in rows
    ensures ok <==> ChainEnds(rows, start)
  {
    var visited: set<Path> := {};
    var current := start;
    ghost var trail: seq<Path> := [];
    while rows[current].kind == Alias
      invariant current in rows && visited <= rows.Keys && Trail(rows, start, trail)
      invariant Chain(rows, start, |trail|) == Some(current)
      invariant forall q :: q in visited <==> q in trail
      decreases rows.Keys - visited
    {
      assert RowShape(rows, current);
      if current in visited {
        RevisitNeverEnds(rows, start, trail, current);
        return false;
      }
      visited := visited + {current};
      var dest := Dest(rows[current]).value;
      if dest !in rows {
        MissingNeverEnds(rows, start, |trail|);
        return false;
      }
      trail := trail + [current];
      current := dest;
    }
    assert EndsAfter(rows, start, |trail|);
    ok := true;
  }

  lemma {:induction false} BrokenNeverEnds(rows: Rows, p: Path, k: nat, n: nat)
    requires Keyed(rows) && Chain(rows, p, k).Some? && rows[Chain(rows, p, k).value].kind == Alias
    requires Chain(rows, p, k + 1) == None
    ensures !EndsAfter(rows, p, n)
  {
    if EndsAfter(rows, p, n) {
      if n <= k {
        if n < k { BeyondEnd(rows, p, n, k); }
      } else {
        StaysBroken(rows, p, k + 1, n);
      }
    }
  }

  lemma {:induction false} StaysBroken(rows: Rows, p: Path, k: nat, n: nat)
    requires Keyed(rows) && Chain(rows, p, k) == None && k <= n
    ensures Chain(rows, p, n) == None
  {
    if k < n { StaysBroken(rows, p, k, n - 1); }
  }

  lemma KeyedRows(catalog: seq<Entry>)
    requires AllShaped(catalog)
    ensures Keyed(RowsOf(catalog))
  {
    RowsHold(catalog);
    forall p | p in RowsOf(catalog) ensures RowShape(RowsOf(catalog), p) {
      assert RowsOf(catalog)[p] in catalog;
    }
  }

  lemma AnchoredByEntries(catalog: seq<Entry>)
    requires AllShaped(catalog) && DistinctPaths(catalog)
    ensures Keyed(RowsOf(catalog)) && forall i :: 0 <= i < |catalog| ==> catalog[i].path in RowsOf(catalog)
    ensures forall i :: 0 <= i < |catalog| ==> RowsOf(catalog)[catalog[i].path] == catalog[i]
    ensures (forall i :: 0 <= i < |catalog| ==> RowAnchored(RowsOf(catalog), catalog[i].path)) <==> Anchored(RowsOf(catalog))
  {
    var rows := RowsOf(catalog);
    RowsHold(catalog);
    KeyedRows(catalog);
    assert forall i :: 0 <= i < |catalog| ==> catalog[i] in catalog;
    if forall i :: 0 <= i < |catalog| ==> RowAnchored(rows, catalog[i].path) {
      forall p | p in rows ensures RowAnchored(rows, p) {
        var i :| 0 <= i < |catalog| && catalog[i] == rows[p];
      }
    }
  }

  method CheckRow(rows: Rows, entry: Entry) returns (ok: bool)
    requires Keyed(rows) && entry.path in rows && rows[entry.path] == entry
    ensures ok <==> RowAnchored(rows, entry.path)
  {
    assert RowShape(rows, entry.path);
    ok := InDirectory(rows, entry.path);
    if ok && entry.kind == Alias {
      ok := FollowAlias(rows, entry.path);
    } else if ok {
      assert EndsAfter(rows, entry.path, 0);
    }
  }

  /** The catalog part of `h1StagedSubjectData`. */
  method AcceptCatalog(catalog: seq<Entry>) returns (ok: bool)
    ensures ok <==> Accepted(catalog)
  {
    if catalog == [] || !AllShaped(catalog) || !DistinctPaths(catalog) { return false; }
    var rows := RowsOf(catalog);
    AnchoredByEntries(catalog);
    for n := 0 to |catalog|
      invariant forall i :: 0 <= i < n ==> RowAnchored(rows, catalog[i].path)
    {
      ok := CheckRow(rows, catalog[n]);
      if !ok { return; }
    }
    ok := true;
  }

  // ---- canonical paths -----------------------------------------------------

  /** An absolute path equal to its own normal form, split at slashes. */
  predicate Normal(path: Path) {
    path != [] && forall i :: 0 <= i < |path| ==>
      path[i] != "." && path[i] != ".." && (path[i] == "" ==> i == |path| - 1)
  }

  /** `posix.join` skips empty parts. */
  function Dropped(parts: seq<string>): (r: seq<string>) {
    if parts == [] then []
    else (if parts[0] == "" then [] else [parts[0]]) + Dropped(parts[1..])
  }

  datatype Move = Stuck | Settled | Redirect(path: Path)

  /** Where the alias row at path[..i + 1] sends the whole path. */
  function Redirected(row: Entry, path: Path, i: nat): (m: Move)
    requires i < |path|
  {
    if row.target == [] || row.target[0] == "" then Stuck
    else
      var target := Walk(path[..i], row.target);
      if target.None? || target.value == [] then Stuck else Redirect(target.value + Dropped(path[i + 1..]))
  }

  /** Scanning components from i: the first alias redirects, a missing row or a
      file in the middle is an error. */
  function MoveFrom(rows: Rows, path: Path, i: nat): (m: Move)
    requires i <= |path|
    decreases |path| - i
  {
    if i == |path| then Settled
    else
      var name := path[..i + 1];
      if name !in rows then Stuck
      else if rows[name].kind == Alias then Redirected(rows[name], path, i)
      else if i < |path| - 1 && rows[name].kind != Directory then Stuck
      else MoveFrom(rows, path, i + 1)
  }

  /** The bounded resolution, with the set of paths already seen. */
  function Canon(rows: Rows, path: Path, seen: set<Path>, left: nat): (r: Option<Path>)
    decreases left
  {
    if left == 0 || !Normal(path) || path in seen then None
    else
      match MoveFrom(rows, path, 0)
      case Stuck => None
      case Settled => Some(path)
      case Redirect(next) => Canon(rows, next, seen + {path}, left - 1)
  }

  method NextMove(rows: Rows, path: Path) returns (m: Move)
    ensures m == MoveFrom(rows, path, 0)
  {
    var i := 0;
    while i < |path|
      invariant 0 <= i <= |path| && MoveFrom(rows, path, 0) == MoveFrom(rows, path, i)
    {
      var name := path[..i + 1];
      if name !in rows { return Stuck; }
      if rows[name].kind == Alias { return Redirected(rows[name], path, i); }
      if i < |path| - 1 && rows[name].kind != Directory { return Stuck; }
      i := i + 1;
    }
    m := Settled;
  }

  /** `h1CanonicalCatalogPath` */
  method CanonicalPath(catalog: seq<Entry>, start: Path) returns (r: Option<Path>)
    ensures r == if DistinctPaths(catalog) then Canon(RowsOf(catalog), start, {}, MAX_HOPS + 1) else None
    ensures forall q :: r == Some(q) <==> DistinctPaths(catalog) && SubstitutesTo(RowsOf(catalog), start, q, MAX_HOPS + 1)
  {
    forall q ensures Canon(RowsOf(catalog), start, {}, MAX_HOPS + 1) == Some(q) <==>
                     SubstitutesTo(RowsOf(catalog), start, q, MAX_HOPS + 1)
    {
      CanonicalIsSubstitution(RowsOf(catalog), start, q, MAX_HOPS + 1);
    }
    if !DistinctPaths(catalog) { return None; }
    var rows := RowsOf(catalog);
    var path := start;
    var seen: set<Path> := {};
    var count := 0;
    while count <= MAX_HOPS
      invariant 0 <= count <= MAX_HOPS + 1
      invariant Canon(rows, start, {}, MAX_HOPS + 1) == Canon(rows, path, seen, MAX_HOPS + 1 - count)
    {
      if !Normal(path) || path in seen { return None; }
      var m := NextMove(rows, path);
      seen := seen + {path};
      match m
      case Stuck => return None;
      case Settled => return Some(path);
      case Redirect(next) => path := next;
      count := count + 1;
    }
    r := None;
  }

  /** Only directory rows above, and no alias at the end. */
  predicate Physical(rows: Rows, p: Path) {
    && p != [] && p in rows && rows[p].kind != Alias
    && forall i :: 0 < i < |p| ==> p[..i] in rows && rows[p[..i]].kind == Directory
  }

  lemma {:induction false} SettledFrom(rows: Rows, path: Path, i: nat)
    requires i <= |path| && path != []
    ensures MoveFrom(rows, path, i) == Settled <==>
            forall k :: i < k <= |path| ==> path[..k] in rows && rows[path[..k]].kind != Alias &&
                                            (k < |path| ==> rows[path[..k]].kind == Directory)
    decreases |path| - i
  {
    if i < |path| { SettledFrom(rows, path, i + 1); }
  }

  /** No move is left exactly at physical rows. */
  lemma SettledIsPhysical(rows: Rows, path: Path)
    requires path != []
    ensures MoveFrom(rows, path, 0) == Settled <==> Physical(rows, path)
  {
    SettledFrom(rows, path, 0);
    assert path[..|path|] == path;
  }

  lemma {:induction false} CanonIsPhysical(rows: Rows, path: Path, seen: set<Path>, left: nat)
    ensures Canon(rows, path, seen, left).Some? ==>
              Physical(rows, Canon(rows, path, seen, left).value) && Normal(Canon(rows, path, seen, left).value)
    decreases left
  {
    if left > 0 && Normal(path) && path !in seen {
      match MoveFrom(rows, path, 0)
      case Stuck =>
      case Settled => SettledIsPhysical(rows, path);
      case Redirect(next) => CanonIsPhysical(rows, next, seen + {path}, left - 1);
    }
  }

  /** Every canonical result has only directory rows above it and is its own
      canonical form. */
  lemma CanonicalIsFixed(rows: Rows, path: Path, r: Path)
    requires Canon(rows, path, {}, MAX_HOPS + 1) == Some(r)
    ensures Physical(rows, r) && Canon(rows, r, {}, MAX_HOPS + 1) == Some(r)
  {
    CanonIsPhysical(rows, path, {}, MAX_HOPS + 1);
    SettledIsPhysical(rows, r);
  }

  // ---- entries of an accepted catalog --------------------------------------

  lemma {:induction false} DirectoriesAbove(rows: Rows, p: Path, k: nat)
    requires Anchored(rows) && p in rows && 0 < k < |p|
    ensures p[..k] in rows && rows[p[..k]].kind == Directory
    decreases |p|
  {
    assert RowAnchored(rows, p);
    var parent := Parent(p);
    if k < |parent| {
      DirectoriesAbove(rows, parent, k);
      assert parent[..k] == p[..k];
    }
  }

  lemma {:induction false} ScanReaches(rows: Rows, p: Path, i: nat)
    requires Anchored(rows) && p in rows && i < |p|
    ensures MoveFrom(rows, p, 0) == MoveFrom(rows, p, i)
  {
    if i > 0 {
      ScanReaches(rows, p, i - 1);
      DirectoriesAbove(rows, p, i);
    }
  }

  /** An entry moves exactly as its alias chain hops. */
  lemma EntryMove(rows: Rows, p: Path)
    requires Anchored(rows) && p in rows
    ensures RowShape(rows, p)
    ensures rows[p].kind != Alias ==> MoveFrom(rows, p, 0) == Settled
    ensures rows[p].kind == Alias ==> Hop(rows, p).Some? && MoveFrom(rows, p, 0) == Redirect(Hop(rows, p).value)
  {
    assert RowShape(rows, p) && RowAnchored(rows, p);
    var last := |p| - 1;
    ScanReaches(rows, p, last);
    assert p[..last + 1] == p;
    if rows[p].kind == Alias {
      var n: nat :| EndsAfter(rows, p, n);
      FirstHop(rows, p, n);
      assert RowShape(rows, Hop(rows, p).value);
      assert Dropped(p[last + 1..]) == [];
    }
  }

  lemma FirstHop(rows: Rows, p: Path, n: nat)
    requires Keyed(rows) && RowShape(rows, p) && rows[p].kind == Alias && EndsAfter(rows, p, n)
    ensures n > 0 && Hop(rows, p).Some? && Chain(rows, p, 1) == Hop(rows, p)
  {
    assert Chain(rows, p, 0) == Some(p);
    if n > 1 { BeforeEndAliases(rows, p, n, 1); }
  }

  ghost function Passed(rows: Rows, p: Path, k: nat): (s: set<Path>)
    requires Keyed(rows)
  {
    if k == 0 then {}
    else Passed(rows, p, k - 1) + (if Chain(rows, p, k - 1).Some? then {Chain(rows, p, k - 1).value} else {})
  }

  lemma {:induction false} PassedBefore(rows: Rows, p: Path, k: nat, q: Path)
    requires Keyed(rows) && q in Passed(rows, p, k)
    ensures exists i :: 0 <= i < k && Chain(rows, p, i) == Some(q)
  {
    if q in Passed(rows, p, k - 1) { PassedBefore(rows, p, k - 1, q); }
  }

  lemma {:induction false} CanonFollowsChain(rows: Rows, p: Path, n: nat, k: nat, left: nat)
    requires Anchored(rows) && EndsAfter(rows, p, n) && k <= n && Chain(rows, p, k).Some?
    ensures Canon(rows, Chain(rows, p, k).value, Passed(rows, p, k), left) ==
            if n - k < left then Chain(rows, p, n) else None
    decreases n - k
  {
    var q := Chain(rows, p, k).value;
    EntryMove(rows, q);
    if q in Passed(rows, p, k) {
      PassedBefore(rows, p, k, q);
      var i :| 0 <= i < k && Chain(rows, p, i) == Some(q);
      CycleNeverEnds(rows, p, i, k, n);
    }
    if left > 0 && k < n {
      BeforeEndAliases(rows, p, n, k);
      assert Chain(rows, p, k + 1) == Hop(rows, q);
      CanonFollowsChain(rows, p, n, k + 1, left - 1);
    }
  }

  /** In an accepted catalog an entry's canonical path is the end of its alias
      chain, and exists exactly when the chain has at most 32 hops. */
  lemma EntryCanonicalIsChainEnd(catalog: seq<Entry>, e: Entry)
    requires Accepted(catalog) && e in catalog
    ensures e.path in RowsOf(catalog) && exists n: nat :: EndsAfter(RowsOf(catalog), e.path, n)
    ensures forall n: nat :: EndsAfter(RowsOf(catalog), e.path, n) ==>
              Canon(RowsOf(catalog), e.path, {}, MAX_HOPS + 1) ==
              if n <= MAX_HOPS then Chain(RowsOf(catalog), e.path, n) else None
  {
    var rows := RowsOf(catalog);
    RowsHold(catalog);
    assert RowAnchored(rows, e.path);
    forall n: nat | EndsAfter(rows, e.path, n)
      ensures Canon(rows, e.path, {}, MAX_HOPS + 1) == if n <= MAX_HOPS then Chain(rows, e.path, n) else None
    {
      CanonFollowsChain(rows, e.path, n, 0, MAX_HOPS + 1);
    }
  }

  // ---- canonical paths as substitutions ------------------------------------

  /** What follows component i, a final empty component aside. */
  function After(path: Path, i: nat): (r: Path)
    requires i < |path|
  {
    if i + 1 < |path| && path[|path| - 1] == "" then path[i + 1..|path| - 1] else path[i + 1..]
  }

  /** The alias row at component i, below directory rows only, is replaced by its
      target, read from its directory; what follows stays. */
  ghost predicate StepAt(rows: Rows, path: Path, i: nat, next: Path) {
    && i < |path| && (forall k :: 0 < k <= i ==> path[..k] in rows && rows[path[..k]].kind == Directory)
    && path[..i + 1] in rows && rows[path[..i + 1]].kind == Alias
    && rows[path[..i + 1]].target != [] && rows[path[..i + 1]].target[0] != ""
    && exists dest :: dest != [] && Walk(path[..i], rows[path[..i + 1]].target) == Some(dest) && next == dest + After(path, i)
  }

  ghost predicate Step(rows: Rows, path: Path, next: Path) {
    exists i :: StepAt(rows, path, i, next)
  }

  /** A chain of substitutions. */
  ghost predicate Substitutions(rows: Rows, trail: seq<Path>) {
    trail != [] && forall i {:trigger StepIn(rows, trail, i)} :: 0 <= i < |trail| - 1 ==> StepIn(rows, trail, i)
  }

  ghost predicate StepIn(rows: Rows, trail: seq<Path>, i: int) {
    0 <= i < |trail| - 1 && Step(rows, trail[i], trail[i + 1])
  }

  lemma StepOnce(rows: Rows, path: Path, i: nat, next: Path, j: nat, other: Path)
    requires StepAt(rows, path, i, next) && StepAt(rows, path, j, other)
    ensures i == j && next == other
  {
  }

  lemma PhysicalStays(rows: Rows, q: Path, next: Path)
    requires Physical(rows, q)
    ensures !Step(rows, q, next)
  {
    if i: nat :| StepAt(rows, q, i, next) {
      assert i + 1 == |q| ==> q[..i + 1] == q;
    }
  }

  /** A chain that ends at a physical row meets no path twice. */
  lemma {:induction false} SubstitutionsDistinct(rows: Rows, trail: seq<Path>, i: nat, j: nat)
    requires Substitutions(rows, trail) && Physical(rows, trail[|trail| - 1]) && i < j < |trail|
    ensures trail[i] != trail[j]
    decreases |trail| - j
  {
    assert StepIn(rows, trail, i);
    if trail[i] == trail[j] {
      if j == |trail| - 1 {
        PhysicalStays(rows, trail[j], trail[i + 1]);
      } else {
        assert StepIn(rows, trail, j);
        SubstitutionsDistinct(rows, trail, i + 1, j + 1);
        StepSame(rows, trail[i], trail[i + 1], trail[j + 1]);
      }
    }
  }

  lemma StepSame(rows: Rows, path: Path, x: Path, y: Path)
    requires Step(rows, path, x) && Step(rows, path, y)
    ensures x == y
  {
    var i: nat :| StepAt(rows, path, i, x);
    var j: nat :| StepAt(rows, path, j, y);
    StepOnce(rows, path, i, x, j, y);
  }

  lemma {:induction false} DroppedNames(parts: seq<string>)
    requires forall i :: 0 <= i < |parts| - 1 ==> parts[i] != ""
    ensures Dropped(parts) == if parts != [] && parts[|parts| - 1] == "" then parts[..|parts| - 1] else parts
  {
    if parts != [] {
      DroppedNames(parts[1..]);
      assert |parts| > 1 ==> [parts[0]] + parts[1..][..|parts| - 2] == parts[..|parts| - 1];
      assert [parts[0]] + parts[1..] == parts;
      if |parts| == 1 { assert parts[1..] == []; }
    }
  }

  /** The rows before component i are directories that are passed over. */
  lemma {:induction false} PassesDirectories(rows: Rows, path: Path, i: nat)
    requires i < |path| && forall k :: 0 < k <= i ==> path[..k] in rows && rows[path[..k]].kind == Directory
    ensures MoveFrom(rows, path, 0) == MoveFrom(rows, path, i)
  {
    if i > 0 { PassesDirectories(rows, path, i - 1); }
  }

  lemma StepMoves(rows: Rows, path: Path, i: nat, next: Path)
    requires Normal(path) && StepAt(rows, path, i, next)
    ensures MoveFrom(rows, path, 0) == Redirect(next)
  {
    PassesDirectories(rows, path, i);
    DroppedNames(path[i + 1..]);
  }

  /** Where a scan stops. */
  lemma {:induction false} MoveStops(rows: Rows, path: Path, i: nat, next: Path) returns (j: nat)
    requires Normal(path) && i <= |path| && MoveFrom(rows, path, i) == Redirect(next)
    requires forall k :: 0 < k <= i ==> path[..k] in rows && rows[path[..k]].kind == Directory
    ensures StepAt(rows, path, j, next)
    decreases |path| - i
  {
    var name := path[..i + 1];
    if rows[name].kind == Alias {
      j := i;
      DroppedNames(path[i + 1..]);
      var dest := Walk(path[..i], rows[name].target).value;
      assert next == dest + After(path, i);
    } else {
      j := MoveStops(rows, path, i + 1, next);
    }
  }

  /** A redirection is a substitution. */
  lemma MoveIsStep(rows: Rows, path: Path, next: Path)
    requires Normal(path)
    ensures MoveFrom(rows, path, 0) == Redirect(next) <==> Step(rows, path, next)
  {
    if MoveFrom(rows, path, 0) == Redirect(next) { var i := MoveStops(rows, path, 0, next); }
    if i: nat :| StepAt(rows, path, i, next) { StepMoves(rows, path, i, next); }
  }

  lemma {:induction false} WalkNames(base: Path, parts: seq<string>)
    requires forall i :: 0 <= i < |base| ==> PlainName(base[i])
    ensures Walk(base, parts).Some? ==> forall i :: 0 <= i < |Walk(base, parts).value| ==> PlainName(Walk(base, parts).value[i])
    decreases parts
  {
    if parts != [] {
      if parts[0] == "" || parts[0] == "." {
        WalkNames(base, parts[1..]);
      } else if parts[0] == ".." {
        if base != [] { WalkNames(base[..|base| - 1], parts[1..]); }
      } else {
        WalkNames(base + [parts[0]], parts[1..]);
      }
    }
  }

  /** Substitution keeps a path in normal form. */
  lemma StepNormal(rows: Rows, path: Path, next: Path)
    requires Normal(path) && Step(rows, path, next)
    ensures Normal(next)
  {
    var i: nat :| StepAt(rows, path, i, next);
    var dest :| dest != [] && Walk(path[..i], rows[path[..i + 1]].target) == Some(dest) && next == dest + After(path, i);
    WalkNames(path[..i], rows[path[..i + 1]].target);
    assert forall k :: 0 <= k < |After(path, i)| ==> After(path, i)[k] == path[i + 1 + k];
  }

  lemma {:induction false} CanonHasTrail(rows: Rows, path: Path, seen: set<Path>, left: nat, q: Path) returns (trail: seq<Path>)
    requires Canon(rows, path, seen, left) == Some(q)
    ensures Substitutions(rows, trail) && trail[0] == path && trail[|trail| - 1] == q && |trail| <= left && Physical(rows, q)
    decreases left
  {
    match MoveFrom(rows, path, 0)
    case Settled =>
      trail := [path];
      SettledIsPhysical(rows, path);
    case Redirect(next) =>
      MoveIsStep(rows, path, next);
      var rest := CanonHasTrail(rows, next, seen + {path}, left - 1, q);
      trail := [path] + rest;
      LongerTrail(rows, path, rest);
  }

  lemma LongerTrail(rows: Rows, path: Path, rest: seq<Path>)
    requires Substitutions(rows, rest) && Step(rows, path, rest[0])
    ensures Substitutions(rows, [path] + rest)
  {
    var trail := [path] + rest;
    forall i | 0 <= i < |trail| - 1 ensures StepIn(rows, trail, i) {
      if i > 0 { assert StepIn(rows, rest, i - 1); }
    }
  }

  lemma CanonThere(rows: Rows, q: Path, seen: set<Path>, left: nat)
    requires left > 0 && Normal(q) && q !in seen && Physical(rows, q)
    ensures Canon(rows, q, seen, left) == Some(q)
  {
    SettledIsPhysical(rows, q);
  }

  lemma CanonStep(rows: Rows, path: Path, seen: set<Path>, left: nat, next: Path)
    requires left > 0 && Normal(path) && path !in seen && Step(rows, path, next)
    ensures Canon(rows, path, seen, left) == Canon(rows, next, seen + {path}, left - 1)
  {
    MoveIsStep(rows, path, next);
  }

  lemma {:induction false} TrailHasCanon(rows: Rows, trail: seq<Path>, k: nat, seen: set<Path>, left: nat)
    requires Substitutions(rows, trail) && Physical(rows, trail[|trail| - 1]) && k < |trail| && |trail| - k <= left
    requires Normal(trail[k]) && forall x :: x in seen ==> x in trail[..k]
    ensures Canon(rows, trail[k], seen, left) == Some(trail[|trail| - 1])
    decreases |trail| - k
  {
    if trail[k] in seen {
      var i :| 0 <= i < k && trail[i] == trail[k];
      SubstitutionsDistinct(rows, trail, i, k);
    }
    if k == |trail| - 1 {
      CanonThere(rows, trail[k], seen, left);
    } else {
      assert StepIn(rows, trail, k);
      StepNormal(rows, trail[k], trail[k + 1]);
      assert trail[..k + 1] == trail[..k] + [trail[k]];
      TrailHasCanon(rows, trail, k + 1, seen + {trail[k]}, left - 1);
      CanonStep(rows, trail[k], seen, left, trail[k + 1]);
    }
  }

  ghost predicate Leads(rows: Rows, trail: seq<Path>, path: Path, q: Path, left: nat) {
    Substitutions(rows, trail) && trail[0] == path && trail[|trail| - 1] == q && |trail| <= left
  }

  /** Fewer than `left` substitutions lead from the path to the physical row q. */
  ghost predicate SubstitutesTo(rows: Rows, path: Path, q: Path, left: nat) {
    && Normal(path) && Physical(rows, q)
    && exists trail :: Leads(rows, trail, path, q, left)
  }

  /** A path in normal form has the canonical path q exactly if substitutions within the
      bound lead to the physical row q; a path in another form has none. */
  lemma CanonicalIsSubstitution(rows: Rows, path: Path, q: Path, left: nat)
    ensures Canon(rows, path, {}, left) == Some(q) <==> SubstitutesTo(rows, path, q, left)
  {
    if Canon(rows, path, {}, left) == Some(q) {
      var trail := CanonHasTrail(rows, path, {}, left, q);
      assert Leads(rows, trail, path, q, left);
    }
    if SubstitutesTo(rows, path, q, left) {
      var trail :| Leads(rows, trail, path, q, left);
      TrailHasCanon(rows, trail, 0, {}, left);
    }
  }

  // ---- paths below an alias row --------------------------------------------

  ghost predicate Plain(rest: Path) {
    forall i :: 0 <= i < |rest| ==> PlainName(rest[i])
  }

  /** Below an alias row of an accepted catalog a path moves as the row does. */
  lemma HopBelow(rows: Rows, a: Path, rest: Path)
    requires Anchored(rows) && RowShape(rows, a) && rows[a].kind == Alias && Hop(rows, a).Some? && Plain(rest)
    ensures Step(rows, a + rest, Hop(rows, a).value + rest)
  {
    var path, i, b := a + rest, |a| - 1, Hop(rows, a).value;
    forall k | 0 < k <= i ensures path[..k] in rows && rows[path[..k]].kind == Directory {
      DirectoriesAbove(rows, a, k);
      assert path[..k] == a[..k];
    }
    assert path[..i + 1] == a && path[..i] == Parent(a);
    assert After(path, i) == rest;
    assert RowShape(rows, b);
    assert StepAt(rows, path, i, b + rest);
  }

  lemma StepOff(rows: Rows, trail: seq<Path>, path: Path, next: Path, q: Path, left: nat)
    requires Step(rows, path, next) && Physical(rows, q) && Leads(rows, trail, path, q, left)
    ensures left > 0 && Leads(rows, trail[1..], next, q, left - 1)
  {
    if |trail| == 1 {
      PhysicalStays(rows, q, next);
    } else {
      assert StepIn(rows, trail, 0);
      StepSame(rows, path, next, trail[1]);
      ShorterTrail(rows, trail);
    }
  }

  lemma StepOn(rows: Rows, trail: seq<Path>, path: Path, next: Path, q: Path, left: nat)
    requires Step(rows, path, next) && Leads(rows, trail, next, q, left)
    ensures Leads(rows, [path] + trail, path, q, left + 1)
  {
    LongerTrail(rows, path, trail);
  }

  lemma StepBack(rows: Rows, path: Path, next: Path, q: Path, left: nat)
    requires Normal(path) && Step(rows, path, next)
    ensures SubstitutesTo(rows, path, q, left) <==> left > 0 && SubstitutesTo(rows, next, q, left - 1)
  {
    StepNormal(rows, path, next);
    if SubstitutesTo(rows, path, q, left) {
      var trail :| Leads(rows, trail, path, q, left);
      StepOff(rows, trail, path, next, q, left);
    }
    if left > 0 && SubstitutesTo(rows, next, q, left - 1) {
      var trail :| Leads(rows, trail, next, q, left - 1);
      StepOn(rows, trail, path, next, q, left - 1);
    }
  }

  lemma ShorterTrail(rows: Rows, trail: seq<Path>)
    requires Substitutions(rows, trail) && |trail| > 1
    ensures Substitutions(rows, trail[1..]) && trail[1..][0] == trail[1] && trail[1..][|trail| - 2] == trail[|trail| - 1]
  {
    forall i | 0 <= i < |trail[1..]| - 1 ensures StepIn(rows, trail[1..], i) { assert StepIn(rows, trail, i + 1); }
  }

  lemma NormalBelow(rows: Rows, a: Path, rest: Path)
    requires RowShape(rows, a) && Plain(rest)
    ensures Normal(a + rest)
  {
    assert forall i :: 0 <= i < |a + rest| ==> PlainName((a + rest)[i]);
  }

  lemma FirstBelow(rows: Rows, a: Path, n: nat, rest: Path) returns (b: Path)
    requires Anchored(rows) && EndsAfter(rows, a, n) && Plain(rest) && n > 0
    ensures EndsAfter(rows, b, n - 1) && Chain(rows, b, n - 1) == Chain(rows, a, n)
    ensures Normal(a + rest) && Step(rows, a + rest, b + rest)
  {
    BeforeEndAliases(rows, a, n, 0);
    assert RowShape(rows, a);
    FirstHop(rows, a, n);
    b := Hop(rows, a).value;
    ChainFrom(rows, a, 1, n - 1);
    HopBelow(rows, a, rest);
    NormalBelow(rows, a, rest);
  }

  lemma {:induction false} ChainBelow(rows: Rows, a: Path, n: nat, rest: Path, q: Path, left: nat)
    requires Anchored(rows) && EndsAfter(rows, a, n) && Plain(rest)
    ensures var d := Chain(rows, a, n).value;
            SubstitutesTo(rows, a + rest, q, left) <==> n <= left && SubstitutesTo(rows, d + rest, q, left - n)
    decreases n
  {
    if n > 0 {
      var b := FirstBelow(rows, a, n, rest);
      StepBack(rows, a + rest, b + rest, q, left);
      if left > 0 { ChainBelow(rows, b, n - 1, rest, q, left - 1); }
    }
  }

  /** A path through an alias row of an accepted catalog is the path through the row its
      chain ends at, the hops of the chain being spent. */
  lemma CanonicalBelowAlias(catalog: seq<Entry>, a: Path, n: nat, rest: Path)
    requires Accepted(catalog) && EndsAfter(RowsOf(catalog), a, n) && Plain(rest)
    ensures var rows := RowsOf(catalog);
            Canon(rows, a + rest, {}, MAX_HOPS + 1) ==
            if n <= MAX_HOPS then Canon(rows, Chain(rows, a, n).value + rest, {}, MAX_HOPS + 1 - n) else None
  {
    CanonBelow(RowsOf(catalog), a, n, rest, MAX_HOPS + 1);
  }

  lemma CanonBelow(rows: Rows, a: Path, n: nat, rest: Path, left: nat)
    requires Anchored(rows) && EndsAfter(rows, a, n) && Plain(rest)
    ensures Canon(rows, a + rest, {}, left) == if n < left then Canon(rows, Chain(rows, a, n).value + rest, {}, left - n) else None
  {
    var p, d := a + rest, Chain(rows, a, n).value + rest;
    forall q ensures Canon(rows, p, {}, left) == Some(q) <==> n < left && Canon(rows, d, {}, left - n) == Some(q) {
      CanonicalIsSubstitution(rows, p, q, left);
      if n < left { CanonicalIsSubstitution(rows, d, q, left - n); }
      ChainBelow(rows, a, n, rest, q, left);
    }
  }

  // ---- a chain longer than the bound ---------------------------------------

  function Rung(i: nat): (name: string)
    ensures |name| == i + 1 && PlainName(name)
  {
    var name := seq(i + 1, _ => 'a');
    assert name[0] == 'a';
    name
  }

  /** A file, and n aliases in the same directory, each to the one before. */
  function LadderRow(i: nat): (e: Entry) {
    if i == 0 then Entry([Rung(0)], File, []) else Entry([Rung(i)], Alias, [Rung(i - 1)])
  }

  function Ladder(n: nat): (catalog: seq<Entry>) {
    seq(n + 1, i requires 0 <= i => LadderRow(i))
  }

  lemma OneName(name: string)
    requires PlainName(name)
    ensures Walk([], [name]) == Some([name])
  {
    assert [name][0] == name && [name][1..] == [] && [] + [name] == [name];
    assert Walk([name], []) == Some([name]);
  }

  lemma RungShaped(i: nat)
    ensures EntryShape(LadderRow(i)) && (i > 0 ==> Dest(LadderRow(i)) == Some([Rung(i - 1)]))
  {
    var e := LadderRow(i);
    assert e.path[0] == Rung(i);
    if i > 0 {
      OneName(Rung(i - 1));
      assert Parent(e.path) == [];
    }
  }

  ghost predicate RungRow(rows: Rows, i: nat) {
    [Rung(i)] in rows && rows[[Rung(i)]] == LadderRow(i)
  }

  /** The rows up to rung n are those of the ladder. */
  ghost predicate Rungs(rows: Rows, n: nat) {
    Keyed(rows) && forall i: nat {:trigger RungRow(rows, i)} :: i <= n ==> RungRow(rows, i)
  }

  lemma LadderRows(n: nat)
    ensures AllShaped(Ladder(n)) && DistinctPaths(Ladder(n)) && Rungs(RowsOf(Ladder(n)), n)
  {
    var catalog := Ladder(n);
    forall i | 0 <= i <= n ensures EntryShape(catalog[i]) { RungShaped(i); }
    forall i, j | 0 <= i < j <= n ensures catalog[i].path != catalog[j].path {
      assert |catalog[i].path[0]| != |catalog[j].path[0]|;
    }
    AnchoredByEntries(catalog);
    forall i: nat | i <= n ensures RungRow(RowsOf(catalog), i) {
      assert catalog[i] == LadderRow(i);
    }
  }

  lemma {:induction false} RungsChain(rows: Rows, n: nat, i: nat, k: nat)
    requires Rungs(rows, n) && k <= i <= n
    ensures Chain(rows, [Rung(i)], k) == Some([Rung(i - k)])
  {
    if k == 0 {
      assert RungRow(rows, i);
    } else {
      var at := i - k + 1;
      RungsChain(rows, n, i, k - 1);
      RungShaped(at);
      assert RungRow(rows, at) && RungRow(rows, at - 1) && RowShape(rows, [Rung(at)]);
    }
  }

  lemma RungAnchored(rows: Rows, n: nat, i: nat)
    requires Rungs(rows, n) && i <= n
    ensures EndsAfter(rows, [Rung(i)], i) && RowAnchored(rows, [Rung(i)])
  {
    RungsChain(rows, n, i, i);
    assert RungRow(rows, i) && RungRow(rows, 0);
    assert EndsAfter(rows, [Rung(i)], i) && InDirectory(rows, [Rung(i)]);
  }

  lemma LadderAccepted(n: nat)
    ensures Accepted(Ladder(n)) && EndsAfter(RowsOf(Ladder(n)), [Rung(n)], n)
    ensures Chain(RowsOf(Ladder(n)), [Rung(n)], n) == Some([Rung(0)])
  {
    var catalog := Ladder(n);
    var rows := RowsOf(catalog);
    LadderRows(n);
    forall i | 0 <= i < |catalog| ensures RowAnchored(rows, catalog[i].path) { RungAnchored(rows, n, i); }
    AnchoredByEntries(catalog);
    RungAnchored(rows, n, n);
    RungsChain(rows, n, n, n);
  }

  /** However long it is, the ladder is accepted, and its last alias has a
      canonical path exactly up to 32 hops. */
  lemma LongChainRefused(n: nat)
    ensures Accepted(Ladder(n))
    ensures Canon(RowsOf(Ladder(n)), [Rung(n)], {}, MAX_HOPS + 1) == if n <= MAX_HOPS then Some([Rung(0)]) else None
  {
    LadderAccepted(n);
    assert Ladder(n)[n].path == [Rung(n)];
    EntryCanonicalIsChainEnd(Ladder(n), Ladder(n)[n]);
  }
}
