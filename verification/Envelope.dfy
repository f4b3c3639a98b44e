/** The Python envelope catalog: its rows, and the parser that accepts them. */
module Envelope {
  import opened Text

  datatype Kind = Directory | Source | Elf | Alias | Data

  datatype Entry = Entry(path: string, kind: Kind, mode: nat, bytes: nat, digest: string, target: string)

  /** A signed package pin; everything but the name order is in `pinned`. */
  datatype Package = Package(name: string, pinned: bool)

  datatype Catalog = Catalog(packages: seq<Package>, entries: seq<Entry>)

  datatype Limits = Limits(entries: nat, bytes: nat, fileBytes: nat, depth: nat, catalogBytes: nat)

  datatype Location = SignedExtraction | OriginalNamespace | FixedSignedData

  /** The fixed rows of the signed data, required by producer and parser alike. */
  type FixedRule = Catalog -> bool

  const ROOTS := ["/usr/lib", "/usr/lib64", "/usr/bin/python3.12"]
  const DATA_ANCESTORS := ["/etc", "/etc" + "/" + "python3.12"]
  const DATA_SOURCE := "/etc" + "/" + "python3.12" + "/" + "sitecustomize.py"
  const DATA_ALIAS := "/usr/lib/python3.12/sitecustomize.py"
  const EMPTY_DIGEST := "e3b0c44298fc1c14" + "9afbf4c8996fb924" + "27ae41e4649b934c" + "a495991b7852b855"
  const MAX_PATH := 4096
  const MAX_MODE := 4095

  function EntryPath(e: Entry): string { e.path }
  function PackageName(p: Package): string { p.name }

  predicate EndsWith(s: string, t: string) {
    |t| <= |s| && s[|s| - |t|..] == t
  }

  predicate NameChar(c: char) {
    'A' <= c <= 'Z' || 'a' <= c <= 'z' || '0' <= c <= '9' || c in "_+.@-"
  }

  predicate SafePath(path: string) {
    && 2 <= |path| <= MAX_PATH && path[0] == '/'
    && (forall i :: 0 <= i < |path| ==> path[i] == '/' || NameChar(path[i]))
    && "." !in Split(path, '/') && ".." !in Split(path, '/')
    && (forall i :: 0 <= i < |path| - 1 ==> !(path[i] == '/' && path[i + 1] == '/'))
    && path[|path| - 1] != '/'
  }

  predicate Archive(path: string) {
    EndsWith(path, ".pyc") || EndsWith(path, ".pyo") || EndsWith(path, ".zip")
  }

  predicate LibraryChar(c: char) {
    'A' <= c <= 'Z' || 'a' <= c <= 'z' || '0' <= c <= '9' || c in "_.+-"
  }

  /** A shared-object name, versioned or not. */
  predicate LibraryName(path: string) {
    exists i :: 0 <= i < |path| && LibrarySuffix(path[i..])
  }

  predicate LibrarySuffix(s: string) {
    ".so" <= s && (|s| == 3 || (s[3] == '.' && |s| > 4 && forall k :: 4 <= k < |s| ==> LibraryChar(s[k])))
  }

  predicate Under(path: string, root: string) {
    path == root || root + "/" <= path
  }

  /** Under a root lie the paths that have its parts. */
  lemma UnderByParts(path: string, root: string)
    ensures Under(path, root) <==> Split(root, '/') <= Split(path, '/')
  {
    StartsByParts(root, path);
  }

  predicate Member(path: string) {
    Under(path, ROOTS[0]) || Under(path, ROOTS[1]) || Under(path, ROOTS[2])
  }

  predicate DataMember(path: string) {
    Member(path) || path == DATA_ANCESTORS[0] || path == DATA_ANCESTORS[1] || path == DATA_SOURCE
  }

  predicate Included(location: Location, path: string) {
    if location == FixedSignedData then DataMember(path) else Member(path)
  }

  predicate Hex(c: char) {
    '0' <= c <= '9' || 'a' <= c <= 'f'
  }

  predicate IsDigest(s: string) {
    |s| == 64 && forall i :: 0 <= i < |s| ==> Hex(s[i])
  }

  lemma EmptyDigestIsDigest()
    ensures IsDigest(EMPTY_DIGEST)
  {
    var a, b, c, d := "e3b0c44298fc1c14", "9afbf4c8996fb924", "27ae41e4649b934c", "a495991b7852b855";
    assert forall i :: 0 <= i < |a| ==> Hex(a[i]);
    assert forall i :: 0 <= i < |b| ==> Hex(b[i]);
    assert forall i :: 0 <= i < |c| ==> Hex(c[i]);
    assert forall i :: 0 <= i < |d| ==> Hex(d[i]);
  }

  /** A group or other write bit. */
  predicate Writable(mode: nat) {
    (mode / 16) % 2 == 1 || (mode / 2) % 2 == 1
  }

  /** In octal: the digit of the group or of the others has the bit that is worth two. */
  lemma WritableInOctal(mode: nat, user: nat, group: nat, other: nat)
    requires mode == 64 * user + 8 * group + other && group < 8 && other < 8
    ensures Writable(mode) <==> group in {2, 3, 6, 7} || other in {2, 3, 6, 7}
  {
    var g, o := group / 2, other / 2;
    assert mode / 16 == 4 * user + g by { assert mode == 16 * (4 * user + g) + (8 * (group % 2) + other); }
    assert mode / 2 == 2 * (16 * user + 2 * group) + o by { assert mode == 2 * (2 * (16 * user + 2 * group) + o) + other % 2; }
    Parity(2 * user, g);
    Parity(16 * user + 2 * group, o);
  }

  lemma Parity(n: nat, k: nat)
    ensures (2 * n + k) % 2 == k % 2
  {
  }

  predicate AliasAllowed(location: Location, path: string, target: string) {
    Member(target) || (location == FixedSignedData && path == DATA_ALIAS && target == DATA_SOURCE)
  }

  /** One catalog row on its own, the domain of its path aside. */
  predicate RowBody(location: Location, e: Entry, bounds: Limits) {
    && SafePath(e.path) && !Archive(e.path)
    && e.mode <= MAX_MODE && !Writable(e.mode) && e.bytes <= bounds.fileBytes && IsDigest(e.digest)
    && (if e.kind == Alias then SafePath(e.target) && AliasAllowed(location, e.path, e.target) else e.target == "")
    && (e.kind == Directory ==> e.bytes == 0 && e.digest == EMPTY_DIGEST)
  }

  predicate RowOk(location: Location, e: Entry, bounds: Limits) {
    Included(location, e.path) && RowBody(location, e, bounds)
  }

  /** `fixedDataCatalog`: no row outside the data domain, and the fixed rows. */
  predicate FixedData(c: Catalog, fixed: FixedRule) {
    (forall i {:trigger DataMember(c.entries[i].path)} :: 0 <= i < |c.entries| ==> DataMember(c.entries[i].path)) && fixed(c)
  }

  function CodeOf(e: Entry): (s: set<string>) {
    if e.kind == Elf then {e.path} else {}
  }

  /** The paths of the ELF rows. */
  function CodePaths(entries: seq<Entry>): (s: set<string>) {
    if entries == [] then {}
    else CodePaths(entries[..|entries| - 1]) + CodeOf(entries[|entries| - 1])
  }

  lemma {:induction false} InCodePaths(entries: seq<Entry>, p: string)
    ensures p in CodePaths(entries) <==> exists e :: e in entries && e.kind == Elf && e.path == p
  {
    if entries != [] {
      var init := entries[..|entries| - 1];
      InCodePaths(init, p);
      assert entries == init + [entries[|entries| - 1]];
    }
  }

  function TotalBytes(entries: seq<Entry>): (n: nat) {
    if entries == [] then 0 else TotalBytes(entries[..|entries| - 1]) + entries[|entries| - 1].bytes
  }

  predicate LimitsOk(b: Limits) {
    b.entries > 0 && b.bytes > 0 && b.fileBytes > 0 && b.depth > 0 && b.catalogBytes > 0 && b.fileBytes <= b.bytes
  }

  ghost predicate PackagesOk(packages: seq<Package>) {
    && packages != [] && StrictBy(PackageName, packages)
    && forall i :: 0 <= i < |packages| ==> packages[i].name != "" && packages[i].pinned
  }

  ghost predicate AllRowsOk(location: Location, entries: seq<Entry>, bounds: Limits) {
    forall i {:trigger RowOk(location, entries[i], bounds)} :: 0 <= i < |entries| ==> RowOk(location, entries[i], bounds)
  }

  /** Rows in strict path order, each acceptable, within the byte bound. */
  ghost predicate EntriesOk(location: Location, entries: seq<Entry>, bounds: Limits) {
    StrictBy(EntryPath, entries) && AllRowsOk(location, entries, bounds) && TotalBytes(entries) <= bounds.bytes
  }

  /** A catalog the parser accepts, given its bytes, digest and time. */
  ghost predicate Parses(location: Location, c: Catalog, bounds: Limits, fixed: FixedRule) {
    && LimitsOk(bounds) && PackagesOk(c.packages) && |c.packages| <= bounds.entries
    && 0 < |c.entries| <= bounds.entries && EntriesOk(location, c.entries, bounds)
    && (location == FixedSignedData ==> FixedData(c, fixed))
  }

  lemma {:induction false} TotalPrefix(entries: seq<Entry>, n: nat)
    requires n <= |entries|
    ensures TotalBytes(entries[..n]) <= TotalBytes(entries)
  {
    if n < |entries| {
      TotalPrefix(entries[..|entries| - 1], n);
      assert entries[..|entries| - 1][..n] == entries[..n];
    } else {
      assert entries[..n] == entries;
    }
  }

  /** Adjacent order is strict order. */
  lemma {:induction false} StrictExtends<T(!new)>(key: T -> string, s: seq<T>, x: T)
    requires StrictBy(key, s) && (s != [] ==> Less(key(s[|s| - 1]), key(x)))
    ensures StrictBy(key, s + [x])
  {
    forall i | 0 <= i < |s| ensures Less(key(s[i]), key(x)) {
      if i < |s| - 1 { LessTransitive(key(s[i]), key(s[|s| - 1]), key(x)); }
    }
  }

  method ParsePackages(packages: seq<Package>) returns (ok: bool)
    ensures ok <==> PackagesOk(packages)
  {
    if packages == [] { return false; }
    var prior := "";
    for n := 0 to |packages|
      invariant StrictBy(PackageName, packages[..n])
      invariant prior == if n == 0 then "" else packages[n - 1].name
      invariant forall i :: 0 <= i < n ==> packages[i].name != "" && packages[i].pinned
    {
      if !Less(prior, packages[n].name) || !packages[n].pinned {
        if n > 0 { assert !Less(PackageName(packages[n - 1]), PackageName(packages[n])) || !packages[n].pinned; }
        return false;
      }
      StrictExtends(PackageName, packages[..n], packages[n]);
      assert packages[..n + 1] == packages[..n] + [packages[n]];
      prior := packages[n].name;
    }
    assert packages[..|packages|] == packages;
    ok := true;
  }

  lemma RowsExtend(location: Location, entries: seq<Entry>, e: Entry, bounds: Limits)
    requires AllRowsOk(location, entries, bounds)
    ensures AllRowsOk(location, entries + [e], bounds) <==> RowOk(location, e, bounds)
  {
    var all := entries + [e];
    assert all[|entries|] == e;
    if AllRowsOk(location, all, bounds) { assert RowOk(location, all[|entries|], bounds); }
    if RowOk(location, e, bounds) {
      forall i | 0 <= i < |all| ensures RowOk(location, all[i], bounds) {
        if i < |entries| { assert all[i] == entries[i] && RowOk(location, entries[i], bounds); }
      }
    }
  }

  lemma OrderExtend(entries: seq<Entry>, e: Entry)
    requires StrictBy(EntryPath, entries)
    ensures StrictBy(EntryPath, entries + [e]) <==> (entries != [] ==> Less(entries[|entries| - 1].path, e.path))
  {
    var all := entries + [e];
    if entries != [] ==> Less(entries[|entries| - 1].path, e.path) {
      StrictExtends(EntryPath, entries, e);
    } else {
      assert all[|entries| - 1] == entries[|entries| - 1] && all[|entries|] == e;
    }
  }

  lemma EntriesExtend(location: Location, entries: seq<Entry>, e: Entry, bounds: Limits)
    requires EntriesOk(location, entries, bounds)
    ensures EntriesOk(location, entries + [e], bounds) <==>
            RowOk(location, e, bounds) && (entries != [] ==> Less(entries[|entries| - 1].path, e.path)) &&
            TotalBytes(entries) + e.bytes <= bounds.bytes
    ensures TotalBytes(entries + [e]) == TotalBytes(entries) + e.bytes
  {
    assert (entries + [e])[..|entries|] == entries;
    RowsExtend(location, entries, e, bounds);
    OrderExtend(entries, e);
  }

  lemma EntriesPrefix(location: Location, entries: seq<Entry>, n: nat, bounds: Limits)
    requires n <= |entries| && EntriesOk(location, entries, bounds)
    ensures EntriesOk(location, entries[..n], bounds)
  {
    TotalPrefix(entries, n);
    forall i | 0 <= i < n ensures RowOk(location, entries[..n][i], bounds) { assert RowOk(location, entries[i], bounds); }
  }

  /** One turn of the row loop decides whether the rows are good so far. */
  lemma EntriesStep(location: Location, entries: seq<Entry>, n: nat, bounds: Limits)
    requires n < |entries| && EntriesOk(location, entries[..n], bounds)
    ensures TotalBytes(entries[..n + 1]) == TotalBytes(entries[..n]) + entries[n].bytes
    ensures EntriesOk(location, entries[..n + 1], bounds) <==>
            && RowOk(location, entries[n], bounds) && Less(if n == 0 then "" else entries[n - 1].path, entries[n].path)
            && TotalBytes(entries[..n + 1]) <= bounds.bytes
  {
    var done, row := entries[..n], entries[n];
    assert entries[..n + 1] == done + [row];
    EntriesExtend(location, done, row, bounds);
    if n == 0 {
      assert Less("", row.path) <==> row.path != [];
      assert RowOk(location, row, bounds) ==> row.path != [];
    } else {
      assert done[n - 1] == entries[n - 1];
    }
  }

  /** The row loop of `parseCatalog`. */
  method ParseEntries(location: Location, entries: seq<Entry>, bounds: Limits) returns (ok: bool)
    ensures ok <==> EntriesOk(location, entries, bounds)
  {
    var prior, total := "", 0;
    ok := true;
    for n := 0 to |entries|
      invariant ok && EntriesOk(location, entries[..n], bounds) && total == TotalBytes(entries[..n])
      invariant prior == if n == 0 then "" else entries[n - 1].path
    {
      var row := entries[n];
      EntriesStep(location, entries, n, bounds);
      total := total + row.bytes;
      if !RowOk(location, row, bounds) || !Less(prior, row.path) || total > bounds.bytes {
        if EntriesOk(location, entries, bounds) { EntriesPrefix(location, entries, n + 1, bounds); }
        return false;
      }
      prior := row.path;
    }
    assert entries[..|entries|] == entries;
  }

  /** `parseCatalog` on the decoded value. */
  method ParseCatalog(location: Location, c: Catalog, bounds: Limits, fixed: FixedRule) returns (ok: bool)
    ensures ok <==> Parses(location, c, bounds, fixed)
  {
    if !LimitsOk(bounds) || c.entries == [] || |c.entries| > bounds.entries || |c.packages| > bounds.entries { return false; }
    ok := ParsePackages(c.packages);
    if !ok { return; }
    ok := ParseEntries(location, c.entries, bounds);
    if !ok { return; }
    ok := location == FixedSignedData ==> FixedData(c, fixed);
  }
}
