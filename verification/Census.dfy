/** The read-only census of the envelope roots: whatever it captures, its own
    catalog parser accepts. */
module Census {
  import opened Text
  import opened Envelope

  /** `entered` and `left` answer the checks of identity and time before and after an
      entry is taken up. */
  datatype Node =
    | Dir(mode: nat, entries: seq<Named>, entered: bool, left: bool)
    | Link(literal: string, digest: string, entered: bool)
    | File(mode: nat, size: nat, digest: string, code: bool, entered: bool)
    | Special

  datatype Named = Named(name: string, node: Node)

  const ALIAS_MODE := 365

  predicate EntryName(s: string) {
    s != "" && s != "." && s != ".." && forall i :: 0 <= i < |s| ==> NameChar(s[i])
  }

  /** What a filesystem guarantees: names of one directory differ, `mode` is the
      twelve permission bits, and digests are digests. */
  ghost predicate Sane(node: Node) {
    match node
    case Dir(mode, entries, _, _) =>
      && mode <= MAX_MODE
      && (forall i, j :: 0 <= i < j < |entries| ==> entries[i].name != entries[j].name)
      && (forall i :: 0 <= i < |entries| ==> Sane(entries[i].node))
    case Link(_, digest, _) => IsDigest(digest)
    case File(mode, _, digest, _, _) => mode <= MAX_MODE && IsDigest(digest)
    case Special => true
  }

  // ---- link targets --------------------------------------------------------

  /** Lexical resolution that stays at the root, as `posix.resolve` does. */
  function Resolved(base: seq<string>, parts: seq<string>): (r: seq<string>)
    decreases parts
  {
    if parts == [] then base
    else if parts[0] == "" || parts[0] == "." then Resolved(base, parts[1..])
    else if parts[0] == ".." then Resolved(if base == [] then [] else base[..|base| - 1], parts[1..])
    else Resolved(base + [parts[0]], parts[1..])
  }

  function Joined(parts: seq<string>): (r: string) {
    if parts == [] then "" else Joined(parts[..|parts| - 1]) + "/" + parts[|parts| - 1]
  }

  function Target(path: string, literal: string): (r: string) {
    if literal != "" && literal[0] == '/' then literal
    else
      var parts := Split(path, '/');
      var r := Joined(Resolved(Resolved([], parts[..|parts| - 1]), Split(literal, '/')));
      if r == "" then "/" else r
  }

  lemma {:induction false} ResolvedOn(base: seq<string>, a: seq<string>, b: seq<string>)
    ensures Resolved(base, a + b) == Resolved(Resolved(base, a), b)
    decreases |a|
  {
    if a == [] {
      assert a + b == b;
    } else {
      assert (a + b)[1..] == a[1..] + b;
      forall up ensures Resolved(up, a[1..] + b) == Resolved(Resolved(up, a[1..]), b) { ResolvedOn(up, a[1..], b); }
    }
  }

  /** A part that is a name. */
  predicate NamePart(s: string) {
    s != "" && s != "." && s != ".." && '/' !in s
  }

  lemma ResolvedOne(base: seq<string>, part: string)
    ensures NamePart(part) ==> Resolved(base, [part]) == base + [part]
    ensures part == ".." ==> Resolved(base, [part]) == if base == [] then [] else base[..|base| - 1]
    ensures part == "" || part == "." ==> Resolved(base, [part]) == base
  {
    assert [part][1..] == [];
  }

  ghost predicate Relative(literal: string) {
    literal == "" || literal[0] != '/'
  }

  /** Where names are read from: the directory of a path. */
  function Below(dir: string): (r: seq<string>) {
    Resolved([], Split(dir, '/'))
  }

  /** A relative literal read from a directory. */
  function ReadFrom(base: seq<string>, literal: string): (r: string) {
    var r := Joined(Resolved(base, Split(literal, '/')));
    if r == "" then "/" else r
  }

  lemma TargetBelow(dir: string, name: string, literal: string)
    requires '/' !in name && Relative(literal)
    ensures Target(dir + "/" + name, literal) == ReadFrom(Below(dir), literal)
  {
    SplitAppend(dir, name);
    var parts := Split(dir + "/" + name, '/');
    assert parts[..|parts| - 1] == Split(dir, '/');
  }

  lemma ReadOn(base: seq<string>, first: string, literal: string)
    requires '/' !in first && first != ""
    ensures Relative(first + "/" + literal) && ReadFrom(base, first + "/" + literal) == ReadFrom(Resolved(base, [first]), literal)
  {
    SplitCons(first, literal);
    assert (first + "/" + literal)[0] == first[0];
    ResolvedOn(base, [first], Split(literal, '/'));
  }

  lemma BelowName(dir: string, name: string)
    requires NamePart(name)
    ensures Below(dir + "/" + name) == Below(dir) + [name]
  {
    SplitAppend(dir, name);
    ResolvedOn([], Split(dir, '/'), [name]);
    ResolvedOne(Below(dir), name);
  }

  lemma {:induction false} BelowSafe(parts: seq<string>)
    requires forall i :: 0 <= i < |parts| ==> NamePart(parts[i])
    ensures Resolved([], parts) == parts
  {
    if parts != [] {
      var n := |parts| - 1;
      BelowSafe(parts[..n]);
      assert parts == parts[..n] + [parts[n]];
      ResolvedOn([], parts[..n], [parts[n]]);
      ResolvedOne(parts[..n], parts[n]);
    }
  }

  /** An absolute literal is its own target. */
  lemma TargetAbsolute(path: string, literal: string)
    requires !Relative(literal)
    ensures Target(path, literal) == literal
  {
  }

  /** A name is read from the directory of the link. */
  lemma TargetName(dir: string, name: string, b: string)
    requires '/' !in name && NamePart(b) && SafePath(dir)
    ensures Target(dir + "/" + name, b) == dir + "/" + b
  {
    TargetBelow(dir, name, b);
    SplitOne(b);
    ResolvedOne(Below(dir), b);
    BelowDir(dir);
    assert (Below(dir) + [b])[..|Below(dir)|] == Below(dir);
  }

  lemma BelowRoot(name: string)
    ensures "" + "/" + name == "/" + name && Below("") == []
  {
    SplitOne("");
    ResolvedOne([], "");
  }

  /** The root's own links. */
  lemma TargetInRoot(name: string, b: string)
    requires '/' !in name && NamePart(b)
    ensures Target("/" + name, b) == "/" + b
  {
    BelowRoot(name);
    TargetBelow("", name, b);
    SplitOne(b);
    ResolvedOne([], b);
    assert Joined([b]) == Joined([]) + "/" + b by { assert [b][..0] == []; }
  }

  /** Two dots leave the last name of the directory. */
  lemma TargetUp(dir: string, last: string, name: string, literal: string)
    requires '/' !in name && NamePart(last) && Relative(literal)
    ensures Target(dir + "/" + last + "/" + name, ".." + "/" + literal) == Target(dir + "/" + name, literal)
  {
    BelowName(dir, last);
    ReadOn(Below(dir) + [last], "..", literal);
    ResolvedOne(Below(dir) + [last], "..");
    TargetBelow(dir + "/" + last, name, ".." + "/" + literal);
    TargetBelow(dir, name, literal);
  }

  /** Two dots stay in the root. */
  lemma TargetAtRoot(name: string, literal: string)
    requires '/' !in name && Relative(literal)
    ensures Target("/" + name, ".." + "/" + literal) == Target("/" + name, literal)
  {
    BelowRoot(name);
    ReadOn([], "..", literal);
    ResolvedOne([], "..");
    TargetBelow("", name, ".." + "/" + literal);
    TargetBelow("", name, literal);
  }

  /** A leading name is entered. */
  lemma TargetDown(dir: string, name: string, first: string, literal: string)
    requires '/' !in name && NamePart(first) && Relative(literal)
    ensures Target(dir + "/" + name, first + "/" + literal) == Target(dir + "/" + first + "/" + name, literal)
  {
    ReadOn(Below(dir), first, literal);
    ResolvedOne(Below(dir), first);
    BelowName(dir, first);
    TargetBelow(dir, name, first + "/" + literal);
    TargetBelow(dir + "/" + first, name, literal);
  }

  /** A leading dot changes nothing. */
  lemma TargetHere(dir: string, name: string, literal: string)
    requires '/' !in name && Relative(literal)
    ensures Target(dir + "/" + name, "." + "/" + literal) == Target(dir + "/" + name, literal)
  {
    ReadOn(Below(dir), ".", literal);
    ResolvedOne(Below(dir), ".");
    TargetBelow(dir, name, "." + "/" + literal);
    TargetBelow(dir, name, literal);
  }

  /** A directory some names below another. */
  function Deeper(dir: string, names: seq<string>): (r: string) {
    if names == [] then dir else Deeper(dir, names[..|names| - 1]) + "/" + names[|names| - 1]
  }

  function Climb(n: nat, literal: string): (r: string) {
    if n == 0 then literal else ".." + "/" + Climb(n - 1, literal)
  }

  /** As many double dots as there are names lead back to the directory above them. */
  lemma {:induction false} TargetClimbs(dir: string, names: seq<string>, name: string, b: string)
    requires SafePath(dir) && '/' !in name && NamePart(b) && forall i :: 0 <= i < |names| ==> NamePart(names[i])
    ensures Relative(Climb(|names|, b)) && Target(Deeper(dir, names) + "/" + name, Climb(|names|, b)) == dir + "/" + b
  {
    if names == [] {
      TargetName(dir, name, b);
    } else {
      var n := |names| - 1;
      TargetClimbs(dir, names[..n], name, b);
      TargetUp(Deeper(dir, names[..n]), names[n], name, Climb(n, b));
    }
  }

  lemma {:induction false} JoinedSplit(s: string)
    ensures Joined(Split(s, '/')) == "/" + s
    decreases |s|
  {
    if '/' !in s {
      SplitOne(s);
      JoinedNext([], s);
    } else {
      var k := LastSlash(s);
      JoinedSplit(s[..k]);
      JoinedTogether(s[..k], s[k + 1..]);
      assert s == s[..k] + "/" + s[k + 1..];
    }
  }

  lemma JoinedNext(parts: seq<string>, last: string)
    ensures Joined(parts + [last]) == Joined(parts) + "/" + last && Joined([]) == ""
  {
    assert (parts + [last])[..|parts|] == parts;
  }

  lemma JoinedTogether(a: string, b: string)
    requires '/' !in b && Joined(Split(a, '/')) == "/" + a
    ensures Joined(Split(a + "/" + b, '/')) == "/" + (a + "/" + b)
  {
    SplitAppend(a, b);
    JoinedNext(Split(a, '/'), b);
    Regroup("/", a, "/", b);
  }

  lemma Regroup(w: string, x: string, y: string, z: string)
    ensures w + x + y + z == w + (x + y + z)
  {
  }

  lemma BelowSlash(tail: string)
    ensures Below("" + "/" + tail) == Resolved([], Split(tail, '/'))
  {
    SplitCons("", tail);
    ResolvedOn([], [""], Split(tail, '/'));
    ResolvedOne([], "");
  }

  /** A safe path is its own directory below the root. */
  lemma BelowDir(dir: string)
    requires SafePath(dir)
    ensures Joined(Below(dir)) == dir
  {
    var tail := dir[1..];
    assert dir == "" + "/" + tail;
    BelowSlash(tail);
    SafeParts(dir);
    BelowSafe(Split(tail, '/'));
    JoinedSplit(tail);
    assert "/" + tail == dir;
  }

  lemma SafeParts(dir: string)
    requires SafePath(dir)
    ensures forall i :: 0 <= i < |Split(dir[1..], '/')| ==> NamePart(Split(dir[1..], '/')[i])
  {
    forall i | 0 <= i < |Split(dir[1..], '/')| ensures NamePart(Split(dir[1..], '/')[i]) { SafePart(dir, i); }
  }

  lemma SafePart(dir: string, i: nat)
    requires SafePath(dir) && i < |Split(dir[1..], '/')|
    ensures NamePart(Split(dir[1..], '/')[i])
  {
    var tail := dir[1..];
    assert dir == "" + "/" + tail;
    SplitCons("", tail);
    assert Split(dir, '/')[i + 1] == Split(tail, '/')[i];
    PartsFilled(tail, i);
  }

  /** Without doubled or outer slashes no part is empty, and no part has a slash. */
  lemma {:induction false} PartsFilled(s: string, i: nat)
    requires s != "" && s[0] != '/' && s[|s| - 1] != '/' && i < |Split(s, '/')|
    requires forall j :: 0 <= j < |s| - 1 ==> !(s[j] == '/' && s[j + 1] == '/')
    ensures Split(s, '/')[i] != "" && '/' !in Split(s, '/')[i]
    decreases |s|
  {
    var k := FirstOf(s, '/');
    if k < |s| && i > 0 {
      var t := s[k + 1..];
      assert t[0] == s[k + 1] && t[|t| - 1] == s[|s| - 1];
      forall j | 0 <= j < |t| - 1 ensures !(t[j] == '/' && t[j + 1] == '/') { assert t[j] == s[k + 1 + j] && t[j + 1] == s[k + 1 + j + 1]; }
      PartsFilled(t, i - 1);
    }
  }

  // ---- the census as a function --------------------------------------------

  function LinkEntry(path: string, literal: string, digest: string): (e: Entry) {
    Entry(path, Alias, ALIAS_MODE, |literal|, digest, Target(path, literal))
  }

  function FileKind(path: string, code: bool): (k: Kind) {
    if code then Elf else if EndsWith(path, ".py") then Source else Data
  }

  function FileEntry(path: string, mode: nat, size: nat, digest: string, code: bool): (e: Entry) {
    Entry(path, FileKind(path, code), mode, size, digest, "")
  }

  /** The rows of a node, the directory before its children. */
  function Rows(path: string, node: Node): (r: seq<Entry>)
    decreases node, 1
  {
    match node
    case Special => []
    case Link(literal, digest, _) => [LinkEntry(path, literal, digest)]
    case File(mode, size, digest, code, _) => [FileEntry(path, mode, size, digest, code)]
    case Dir(mode, kids, _, _) => [Entry(path, Directory, mode, 0, EMPTY_DIGEST, "")] + KidRows(path, kids)
  }

  function KidRows(path: string, kids: seq<Named>): (r: seq<Entry>)
    decreases kids, 0
  {
    if kids == [] then []
    else
      var last := kids[|kids| - 1];
      KidRows(path, kids[..|kids| - 1]) + Rows(path + "/" + last.name, last.node)
  }

  // ---- paths below a node --------------------------------------------------

  /** Entries of two children of one directory have different paths. */
  lemma SiblingsApart(dir: string, a: string, b: string, p: string)
    requires a != b && '/' !in a && '/' !in b
    requires Under(p, dir + "/" + a)
    ensures !Under(p, dir + "/" + b)
  {
    if Under(p, dir + "/" + b) {
      var n := |dir| + 1;
      assert p[n..] == a || a + "/" <= p[n..] by {
        if p == dir + "/" + a { assert p[n..] == a; } else { assert (dir + "/" + a + "/")[n..] == a + "/"; }
      }
      assert p[n..] == b || b + "/" <= p[n..] by {
        if p == dir + "/" + b { assert p[n..] == b; } else { assert (dir + "/" + b + "/")[n..] == b + "/"; }
      }
      FirstPart(p[n..], a);
      FirstPart(p[n..], b);
    }
  }

  lemma FirstPart(s: string, a: string)
    requires '/' !in a && (s == a || a + "/" <= s)
    ensures FirstOf(s, '/') == |a| && s[..|a|] == a
  {
    FirstOfUnique(s, '/', |a|);
  }

  lemma ChildLonger(dir: string, a: string, p: string)
    requires Under(p, dir + "/" + a)
    ensures p != dir && Under(p, dir)
  {
    assert dir + "/" <= dir + "/" + a;
  }

  // ---- what one walk adds --------------------------------------------------

  predicate OnePathEach(entries: seq<Entry>) {
    forall i, j :: 0 <= i < j < |entries| ==> entries[i].path != entries[j].path
  }

  ghost predicate AllUnder(entries: seq<Entry>, root: string) {
    forall i :: 0 <= i < |entries| ==> Under(entries[i].path, root)
  }

  ghost predicate AllBodies(location: Location, entries: seq<Entry>, bounds: Limits) {
    forall i {:trigger RowBody(location, entries[i], bounds)} :: 0 <= i < |entries| ==> RowBody(location, entries[i], bounds)
  }

  /** Acceptable rows, one per path, all at or below `root`. */
  ghost predicate Found(location: Location, entries: seq<Entry>, root: string, bounds: Limits) {
    OnePathEach(entries) && AllUnder(entries, root) && AllBodies(location, entries, bounds)
  }

  /** Two batches with no path in common. */
  lemma FoundTogether(location: Location, a: seq<Entry>, b: seq<Entry>, bounds: Limits)
    requires OnePathEach(a) && AllBodies(location, a, bounds) && OnePathEach(b) && AllBodies(location, b, bounds)
    requires forall i, j :: 0 <= i < |a| && 0 <= j < |b| ==> a[i].path != b[j].path
    ensures OnePathEach(a + b) && AllBodies(location, a + b, bounds)
  {
    var c := a + b;
    forall i | 0 <= i < |c| ensures RowBody(location, c[i], bounds) {
      if i < |a| { assert RowBody(location, a[i], bounds); } else { assert RowBody(location, b[i - |a|], bounds); }
    }
    forall i, j | 0 <= i < j < |c| ensures c[i].path != c[j].path {
      if j >= |a| && i < |a| { assert a[i].path != b[j - |a|].path; }
    }
  }

  lemma {:induction false} TotalTogether(a: seq<Entry>, b: seq<Entry>)
    ensures TotalBytes(a + b) == TotalBytes(a) + TotalBytes(b)
  {
    if b == [] {
      assert a + b == a;
    } else {
      var n := |b| - 1;
      assert (a + b)[..|a| + n] == a + b[..n];
      TotalTogether(a, b[..n]);
    }
  }

  /** The entries of a directory after its first n children. */
  ghost predicate OfChildren(entries: seq<Entry>, path: string, kids: seq<Named>, n: nat)
    requires n <= |kids|
  {
    forall i :: 0 <= i < |entries| ==>
      entries[i].path == path || exists k :: 0 <= k < n && Under(entries[i].path, path + "/" + kids[k].name)
  }

  lemma ChildApart(entries: seq<Entry>, path: string, kids: seq<Named>, n: nat, p: string)
    requires n < |kids| && OfChildren(entries, path, kids, n)
    requires forall i, j :: 0 <= i < j < |kids| ==> kids[i].name != kids[j].name
    requires forall k :: 0 <= k <= n ==> EntryName(kids[k].name)
    requires Under(p, path + "/" + kids[n].name)
    ensures forall i :: 0 <= i < |entries| ==> entries[i].path != p
  {
    forall i | 0 <= i < |entries| ensures entries[i].path != p {
      ChildLonger(path, kids[n].name, p);
      if entries[i].path != path {
        var k :| 0 <= k < n && Under(entries[i].path, path + "/" + kids[k].name);
        NoSlash(kids[k].name);
        NoSlash(kids[n].name);
        SiblingsApart(path, kids[k].name, kids[n].name, entries[i].path);
      }
    }
  }

  lemma NoSlash(name: string)
    requires EntryName(name)
    ensures '/' !in name
  {
  }

  lemma OfMoreChildren(a: seq<Entry>, b: seq<Entry>, path: string, kids: seq<Named>, n: nat)
    requires n < |kids| && OfChildren(a, path, kids, n) && AllUnder(b, path + "/" + kids[n].name)
    ensures OfChildren(a + b, path, kids, n + 1)
  {
    var c := a + b;
    forall i | 0 <= i < |c| && c[i].path != path ensures exists k :: 0 <= k < n + 1 && Under(c[i].path, path + "/" + kids[k].name) {
      if i < |a| {
        var k :| 0 <= k < n && Under(a[i].path, path + "/" + kids[k].name);
      } else {
        assert Under(b[i - |a|].path, path + "/" + kids[n].name);
      }
    }
  }

  lemma ChildrenUnder(entries: seq<Entry>, path: string, kids: seq<Named>, n: nat)
    requires n <= |kids| && OfChildren(entries, path, kids, n)
    ensures AllUnder(entries, path)
  {
    forall i | 0 <= i < |entries| ensures Under(entries[i].path, path) {
      if entries[i].path != path {
        var k :| 0 <= k < n && Under(entries[i].path, path + "/" + kids[k].name);
        ChildLonger(path, kids[k].name, entries[i].path);
      }
    }
  }

  predicate LinkAllowed(location: Location, path: string, literal: string, target: string) {
    SafePath(target) && AliasAllowed(location, path, target) && (Member(target) || literal == DATA_SOURCE)
  }

  lemma AliasModeClosed()
    ensures !Writable(ALIAS_MODE)
  {
    assert ALIAS_MODE / 16 == 22 && ALIAS_MODE / 2 == 182;
  }

  lemma LinkRow(location: Location, e: Entry, literal: string, bounds: Limits)
    requires e.kind == Alias && e.mode == ALIAS_MODE && LinkAllowed(location, e.path, literal, e.target)
    requires SafePath(e.path) && !Archive(e.path) && IsDigest(e.digest) && e.bytes <= bounds.fileBytes
    ensures RowBody(location, e, bounds)
  {
    AliasModeClosed();
  }

  lemma DirectoryRow(location: Location, e: Entry, bounds: Limits)
    requires e.kind == Directory && e.target == "" && e.digest == EMPTY_DIGEST && e.bytes == 0
    requires SafePath(e.path) && !Archive(e.path) && e.mode <= MAX_MODE && !Writable(e.mode)
    ensures RowBody(location, e, bounds)
  {
    EmptyDigestIsDigest();
  }

  lemma FileRow(location: Location, e: Entry, bounds: Limits)
    requires e.kind != Alias && e.kind != Directory && e.target == "" && e.mode <= MAX_MODE && !Writable(e.mode)
    requires SafePath(e.path) && !Archive(e.path) && IsDigest(e.digest) && e.bytes <= bounds.fileBytes
    ensures RowBody(location, e, bounds)
  {
  }

  lemma CodeAppend(entries: seq<Entry>, e: Entry)
    ensures CodePaths(entries + [e]) == CodePaths(entries) + CodeOf(e)
  {
    assert (entries + [e])[..|entries|] == entries;
  }

  lemma CodeSorted(entries: seq<Entry>, sorted: seq<Entry>)
    requires multiset(sorted) == multiset(entries)
    ensures CodePaths(sorted) == CodePaths(entries)
  {
    SameElements(sorted, entries);
    forall p ensures p in CodePaths(sorted) <==> p in CodePaths(entries) {
      InCodePaths(sorted, p);
      InCodePaths(entries, p);
    }
  }

  // ---- when a walk succeeds ------------------------------------------------

  predicate Entered(node: Node) {
    !node.Special? && node.entered
  }

  function DirRows(path: string, mode: nat, kids: seq<Named>): (r: seq<Entry>) {
    [Entry(path, Directory, mode, 0, EMPTY_DIGEST, "")] + KidRows(path, kids)
  }

  predicate LinkTaken(location: Location, path: string, literal: string, bounds: Limits) {
    |literal| <= MAX_PATH && |literal| <= bounds.fileBytes && LinkAllowed(location, path, literal, Target(path, literal))
  }

  /** Every entry at or below the node is in order. */
  ghost predicate Walks(location: Location, path: string, level: nat, node: Node, bounds: Limits)
    decreases node, 1
  {
    && Entered(node) && level <= bounds.depth && SafePath(path) && !Archive(path)
    && match node
       case Special => false
       case Link(literal, _, _) => LinkTaken(location, path, literal, bounds)
       case File(mode, size, _, code, _) => !Writable(mode) && size <= bounds.fileBytes && (code || !LibraryName(path))
       case Dir(mode, kids, _, left) => left && !Writable(mode) && KidsWalk(location, path, level, kids, |kids|, bounds)
  }

  ghost predicate KidWalks(location: Location, path: string, level: nat, kid: Named, bounds: Limits)
    decreases kid, 2
  {
    EntryName(kid.name) && Walks(location, path + "/" + kid.name, level + 1, kid.node, bounds)
  }

  /** The first n children are in order. */
  ghost predicate KidsWalk(location: Location, path: string, level: nat, kids: seq<Named>, n: nat, bounds: Limits)
    requires n <= |kids|
    decreases kids, 0
  {
    forall i {:trigger KidWalks(location, path, level, kids[i], bounds)} :: 0 <= i < n ==> KidWalks(location, path, level, kids[i], bounds)
  }

  /** The rows stay within the bounds behind those already taken. */
  ghost predicate FitsIn(bounds: Limits, taken: seq<Entry>, rows: seq<Entry>) {
    |taken| + |rows| <= bounds.entries && TotalBytes(taken) + TotalBytes(rows) <= bounds.bytes
  }

  lemma FitsTwice(bounds: Limits, taken: seq<Entry>, a: seq<Entry>, b: seq<Entry>)
    ensures FitsIn(bounds, taken, a + b) <==> FitsIn(bounds, taken + a, b)
    ensures FitsIn(bounds, taken, a + b) ==> FitsIn(bounds, taken, a)
  {
    TotalTogether(a, b);
    TotalTogether(taken, a);
  }

  lemma FitsTaken(bounds: Limits, taken: seq<Entry>, rows: seq<Entry>)
    ensures FitsIn(bounds, taken, rows) <==> |taken + rows| <= bounds.entries && TotalBytes(taken + rows) <= bounds.bytes
  {
    TotalTogether(taken, rows);
  }

  lemma WalkNeeds(path: string, node: Node)
    ensures !node.Special? ==> |Rows(path, node)| >= 1
    ensures node.Link? || node.File? ==> |Rows(path, node)| == 1 && TotalBytes(Rows(path, node)) == Rows(path, node)[0].bytes
    ensures node.Dir? ==> Rows(path, node) == DirRows(path, node.mode, node.entries)
  {
    if node.Link? || node.File? {
      var row := Rows(path, node)[0];
      assert Rows(path, node) == [row] && [row][..0] == [];
    }
  }

  /** What one child more asks for, and why failing there is failing at all. */
  lemma KidDecides(location: Location, path: string, level: nat, kids: seq<Named>, n: nat, before: seq<Entry>, bounds: Limits)
    requires n < |kids| && KidsWalk(location, path, level, kids, n, bounds)
    ensures KidsWalk(location, path, level, kids, |kids|, bounds) ==> KidWalks(location, path, level, kids[n], bounds)
    ensures KidWalks(location, path, level, kids[n], bounds) ==> KidsWalk(location, path, level, kids, n + 1, bounds)
    ensures FitsIn(bounds, before, KidRows(path, kids)) ==>
              FitsIn(bounds, before + KidRows(path, kids[..n]), Rows(path + "/" + kids[n].name, kids[n].node))
  {
    var kid, now := Rows(path + "/" + kids[n].name, kids[n].node), KidRows(path, kids[..n]);
    assert kids[..n + 1][..n] == kids[..n];
    assert KidRows(path, kids[..n + 1]) == now + kid;
    FitsTwice(bounds, before, now, kid);
    KidsGrow(path, kids, n + 1);
    if KidsWalk(location, path, level, kids, |kids|, bounds) { assert KidWalks(location, path, level, kids[n], bounds); }
  }

  lemma {:induction false} KidsGrow(path: string, kids: seq<Named>, n: nat)
    requires n <= |kids|
    ensures |KidRows(path, kids[..n])| <= |KidRows(path, kids)| && TotalBytes(KidRows(path, kids[..n])) <= TotalBytes(KidRows(path, kids))
  {
    if n < |kids| {
      var m := |kids| - 1;
      KidsGrow(path, kids[..m], n);
      assert kids[..m][..n] == kids[..n];
      TotalTogether(KidRows(path, kids[..m]), Rows(path + "/" + kids[m].name, kids[m].node));
    } else {
      assert kids[..n] == kids;
    }
  }

  class Taker {
    const location: Location
    const bounds: Limits
    var count: nat
    var total: nat
    var largest: nat
    var depth: nat
    var entries: seq<Entry>
    var code: set<string>

    /** The counters are those of the entries taken, and within the bounds. */
    ghost predicate Tallied()
      reads this
    {
      count == |entries| <= bounds.entries && total == TotalBytes(entries) <= bounds.bytes && code == CodePaths(entries)
    }

    /** The same while one entry is being taken. */
    ghost predicate Counting()
      reads this
    {
      count == |entries| + 1 <= bounds.entries && total == TotalBytes(entries) && code == CodePaths(entries)
    }

    constructor (location: Location, bounds: Limits)
      ensures Tallied() && entries == [] && this.location == location && this.bounds == bounds
    {
      this.location, this.bounds := location, bounds;
      count, total, largest, depth, entries, code := 0, 0, 0, 0, [], {};
    }

    /** Records one entry; `count` was advanced when the walk began. */
    method Push(e: Entry) returns (ok: bool)
      requires count == |entries| + 1 <= bounds.entries && total == TotalBytes(entries)
      requires code == CodePaths(entries) + CodeOf(e)
      requires RowBody(location, e, bounds)
      modifies this`entries, this`total
      ensures ok <==> old(total) + e.bytes <= bounds.bytes
      ensures ok ==> Tallied() && entries == old(entries) + [e] && Found(location, [e], e.path, bounds)
    {
      assert (entries + [e])[..|entries|] == entries;
      CodeAppend(entries, e);
      entries := entries + [e];
      total := total + e.bytes;
      ok := total <= bounds.bytes;
    }

    /** A symbolic link. */
    method TakeLink(path: string, literal: string, digest: string) returns (ok: bool)
      requires Counting()
      requires SafePath(path) && !Archive(path) && IsDigest(digest)
      modifies this`entries, this`total, this`largest
      ensures ok <==> LinkTaken(location, path, literal, bounds) && old(total) + |literal| <= bounds.bytes
      ensures ok ==> Tallied() && Found(location, [LinkEntry(path, literal, digest)], path, bounds)
      ensures ok ==> entries == old(entries) + [LinkEntry(path, literal, digest)]
    {
      var size := |literal|;
      if size > MAX_PATH || size > bounds.fileBytes { return false; }
      largest := if largest < size then size else largest;
      var target := Target(path, literal);
      if !LinkAllowed(location, path, literal, target) { return false; }
      var e := Entry(path, Alias, ALIAS_MODE, size, digest, target);
      LinkRow(location, e, literal, bounds);
      ok := Push(e);
    }

    /** The kind of a regular file, by its magic and name. */
    method Classify(path: string, elf: bool) returns (ok: bool, kind: Kind)
      modifies this`code
      ensures kind == FileKind(path, elf) && (ok <==> elf || !LibraryName(path))
      ensures code == old(code) + (if elf then {path} else {})
    {
      kind := if EndsWith(path, ".py") then Source else Data;
      ok := true;
      if elf {
        kind := Elf;
        code := code + {path};
      } else if LibraryName(path) {
        ok := false;
      }
    }

    method TakeFile(path: string, mode: nat, size: nat, digest: string, elf: bool) returns (ok: bool)
      requires Counting()
      requires SafePath(path) && !Archive(path) && IsDigest(digest) && mode <= MAX_MODE && !Writable(mode)
      modifies this`entries, this`total, this`largest, this`code
      ensures ok <==> size <= bounds.fileBytes && (elf || !LibraryName(path)) && old(total) + size <= bounds.bytes
      ensures ok ==> Tallied() && Found(location, [FileEntry(path, mode, size, digest, elf)], path, bounds)
      ensures ok ==> entries == old(entries) + [FileEntry(path, mode, size, digest, elf)]
    {
      if size > bounds.fileBytes || total + size > bounds.bytes { return false; }
      largest := if largest < size then size else largest;
      var kind;
      ok, kind := Classify(path, elf);
      if !ok { return; }
      var e := Entry(path, kind, mode, size, digest, "");
      FileRow(location, e, bounds);
      ok := Push(e);
    }

    /** One child more. */
    method TakeChild(path: string, level: nat, kids: seq<Named>, n: nat, ghost own: seq<Entry>, ghost before: seq<Entry>) returns (ok: bool)
      requires Tallied() && Sane(Dir(0, kids, true, true)) && n < |kids| && entries == before + KidRows(path, kids[..n])
      requires Partly(location, own + KidRows(path, kids[..n]), path, kids, n, bounds)
      modifies this
      ensures ok <==> && KidWalks(location, path, level, kids[n], bounds)
                      && FitsIn(bounds, before + KidRows(path, kids[..n]), Rows(path + "/" + kids[n].name, kids[n].node))
      ensures ok ==> Tallied() && entries == before + KidRows(path, kids[..n + 1])
      ensures ok ==> Partly(location, own + KidRows(path, kids[..n + 1]), path, kids, n + 1, bounds)
      decreases kids, 0, 0
    {
      if !EntryName(kids[n].name) { return false; }
      ok := Walk(path + "/" + kids[n].name, level + 1, kids[n].node);
      if !ok { return; }
      NextKid(path, kids, n, before, own);
      ChildTaken(location, own + KidRows(path, kids[..n]), Rows(path + "/" + kids[n].name, kids[n].node), path, kids, n, bounds);
    }

    /** The children of a directory whose own row is `own`. */
    method TakeChildren(path: string, level: nat, kids: seq<Named>, ghost own: seq<Entry>) returns (ok: bool)
      requires Tallied() && Sane(Dir(0, kids, true, true)) && Partly(location, own, path, kids, 0, bounds)
      modifies this
      ensures ok <==> KidsWalk(location, path, level, kids, |kids|, bounds) && FitsIn(bounds, old(entries), KidRows(path, kids))
      ensures ok ==> Tallied() && entries == old(entries) + KidRows(path, kids)
      ensures ok ==> Partly(location, own + KidRows(path, kids), path, kids, |kids|, bounds)
      decreases kids, 0
    {
      ok := true;
      assert own + [] == own;
      ghost var before := entries;
      for n := 0 to |kids|
        invariant Tallied() && entries == before + KidRows(path, kids[..n])
        invariant Partly(location, own + KidRows(path, kids[..n]), path, kids, n, bounds)
        invariant KidsWalk(location, path, level, kids, n, bounds)
      {
        KidDecides(location, path, level, kids, n, before, bounds);
        ok := TakeChild(path, level, kids, n, own, before);
        if !ok { return; }
      }
      assert kids[..|kids|] == kids;
      FitsTaken(bounds, before, KidRows(path, kids));
      ok := true;
    }

    /** `walk`: everything at and below the node, once each, in order. */
    method Walk(path: string, level: nat, node: Node) returns (ok: bool)
      requires Tallied() && Sane(node)
      modifies this
      ensures ok <==> Walks(location, path, level, node, bounds) && FitsIn(bounds, old(entries), Rows(path, node))
      ensures ok ==> Tallied() && entries == old(entries) + Rows(path, node) && Found(location, Rows(path, node), path, bounds)
      ensures ok ==> Rows(path, node) != []
      decreases node, 1
    {
      WalkNeeds(path, node);
      ok := Enter(path, level, Entered(node));
      if !ok { return; }
      match node
      case Special => return false;
      case Link(literal, digest, _) => ok := TakeLink(path, literal, digest);
      case File(mode, size, digest, elf, _) =>
        if Writable(mode) { return false; }
        ok := TakeFile(path, mode, size, digest, elf);
      case Dir(mode, kids, _, left) =>
        ok := TakeDirectory(path, level, mode, kids);
        ok := ok && left;
    }

    /** A directory: its own row, then its children. */
    method TakeDirectory(path: string, level: nat, mode: nat, kids: seq<Named>) returns (ok: bool)
      requires Counting()
      requires SafePath(path) && !Archive(path) && mode <= MAX_MODE && Sane(Dir(0, kids, true, true))
      modifies this
      ensures ok <==> && !Writable(mode) && KidsWalk(location, path, level, kids, |kids|, bounds)
                      && FitsIn(bounds, old(entries), DirRows(path, mode, kids))
      ensures ok ==> Tallied() && entries == old(entries) + DirRows(path, mode, kids)
      ensures ok ==> Found(location, DirRows(path, mode, kids), path, bounds)
      decreases kids, 1
    {
      if Writable(mode) { return false; }
      var e := Entry(path, Directory, mode, 0, EMPTY_DIGEST, "");
      DirectoryRow(location, e, bounds);
      ok := Push(e);
      if !ok { return; }
      OwnRow(location, e, path, kids, bounds);
      FitsTwice(bounds, old(entries), [e], KidRows(path, kids));
      ok := TakeChildren(path, level, kids, [e]);
      if !ok { return; }
      WholeDirectory(location, e, path, mode, kids, bounds);
    }

    /** The bounds and name checks every walk begins with. */
    method Enter(path: string, level: nat, entered: bool) returns (ok: bool)
      requires Tallied()
      modifies this`count, this`depth
      ensures ok <==> entered && |entries| + 1 <= bounds.entries && level <= bounds.depth && SafePath(path) && !Archive(path)
      ensures ok ==> Counting()
    {
      count := count + 1;
      if count > bounds.entries || level > bounds.depth { return false; }
      depth := if depth < level then level else depth;
      if !SafePath(path) || Archive(path) { return false; }
      ok := entered;
    }
  }

  lemma NextKid(path: string, kids: seq<Named>, n: nat, before: seq<Entry>, own: seq<Entry>)
    requires n < |kids|
    ensures
      var kid := Rows(path + "/" + kids[n].name, kids[n].node);
      && before + KidRows(path, kids[..n]) + kid == before + KidRows(path, kids[..n + 1])
      && own + KidRows(path, kids[..n]) + kid == own + KidRows(path, kids[..n + 1])
  {
    assert kids[..n + 1][..n] == kids[..n];
  }

  /** What a directory walk holds after its first n children. */
  ghost predicate Partly(location: Location, more: seq<Entry>, path: string, kids: seq<Named>, n: nat, bounds: Limits)
    requires n <= |kids|
  {
    && OfChildren(more, path, kids, n) && OnePathEach(more) && AllBodies(location, more, bounds)
    && forall k :: 0 <= k < n ==> EntryName(kids[k].name)
  }

  lemma OwnRow(location: Location, e: Entry, path: string, kids: seq<Named>, bounds: Limits)
    requires e.path == path && Found(location, [e], path, bounds)
    ensures Partly(location, [e], path, kids, 0, bounds)
  {
  }

  lemma WholeDirectory(location: Location, e: Entry, path: string, mode: nat, kids: seq<Named>, bounds: Limits)
    requires e == Entry(path, Directory, mode, 0, EMPTY_DIGEST, "")
    requires Partly(location, [e] + KidRows(path, kids), path, kids, |kids|, bounds)
    ensures DirRows(path, mode, kids) == [e] + KidRows(path, kids) && Found(location, DirRows(path, mode, kids), path, bounds)
  {
    PartlyFound(location, [e] + KidRows(path, kids), path, kids, bounds);
  }

  lemma PartlyFound(location: Location, more: seq<Entry>, path: string, kids: seq<Named>, bounds: Limits)
    requires Partly(location, more, path, kids, |kids|, bounds)
    ensures Found(location, more, path, bounds)
  {
    ChildrenUnder(more, path, kids, |kids|);
  }

  lemma ChildTaken(location: Location, a: seq<Entry>, b: seq<Entry>, path: string, kids: seq<Named>, n: nat, bounds: Limits)
    requires n < |kids| && Partly(location, a, path, kids, n, bounds) && EntryName(kids[n].name)
    requires Found(location, b, path + "/" + kids[n].name, bounds)
    requires forall i, j :: 0 <= i < j < |kids| ==> kids[i].name != kids[j].name
    ensures Partly(location, a + b, path, kids, n + 1, bounds)
  {
    forall i, j | 0 <= i < |a| && 0 <= j < |b| ensures a[i].path != b[j].path {
      ChildApart(a, path, kids, n, b[j].path);
    }
    FoundTogether(location, a, b, bounds);
    OfMoreChildren(a, b, path, kids, n);
  }

  // ---- the whole census ----------------------------------------------------

  /** The live namespace is compared with a catalog parsed as signed extraction. */
  function ParsedAs(location: Location): (r: Location) {
    if location == FixedSignedData then FixedSignedData else SignedExtraction
  }

  function AncestorRow(path: string): (e: Entry) {
    Entry(path, Directory, 493, 0, EMPTY_DIGEST, "")
  }

  /** Every row the census records, in walking order. */
  function AllRows(location: Location, roots: seq<Node>, data: Node): (r: seq<Entry>)
    requires |roots| == |ROOTS|
  {
    (if location == FixedSignedData
     then [AncestorRow(DATA_ANCESTORS[0]), AncestorRow(DATA_ANCESTORS[1])] + Rows(DATA_SOURCE, data) else []) +
    Rows(ROOTS[0], roots[0]) + Rows(ROOTS[1], roots[1]) + Rows(ROOTS[2], roots[2])
  }

  /** The roots are disjoint domains, and the data domain is a fourth. */
  lemma RootsApart(p: string)
    ensures !(Under(p, "/usr/lib") && Under(p, "/usr/lib64"))
    ensures !(Under(p, "/usr/lib") && Under(p, "/usr/bin/python3.12"))
    ensures !(Under(p, "/usr/lib64") && Under(p, "/usr/bin/python3.12"))
  {
    assert Under(p, "/usr/lib") ==> |p| >= 8 && p[5] == 'l' && (|p| > 8 ==> p[8] == '/');
    assert Under(p, "/usr/lib64") ==> |p| >= 10 && p[5] == 'l' && p[8] == '6';
    assert Under(p, "/usr/bin/python3.12") ==> |p| >= 8 && p[5] == 'b';
  }

  lemma DataApart(p: string)
    requires p in DATA_ANCESTORS || Under(p, DATA_SOURCE)
    ensures !Under(p, "/usr/lib") && !Under(p, "/usr/lib64") && !Under(p, "/usr/bin/python3.12")
    ensures Under(p, DATA_SOURCE) ==> p !in DATA_ANCESTORS
  {
    assert p[1] == 'e';
  }

  lemma SafeFromParts(path: string)
    requires 2 <= |path| <= MAX_PATH && path[0] == '/' && path[|path| - 1] != '/'
    requires forall i :: 0 <= i < |path| ==> path[i] == '/' || NameChar(path[i])
    requires forall i :: 0 <= i < |path| - 1 ==> !(path[i] == '/' && path[i + 1] == '/')
    requires "." !in Split(path, '/') && ".." !in Split(path, '/')
    ensures SafePath(path)
  {
  }

  lemma EtcSafe()
    ensures SafePath("/etc") && !Archive("/etc")
  {
    SplitOne("etc");
    SplitCons("", "etc");
    assert "/etc" == "" + "/" + "etc";
    assert Split("/etc", '/') == ["", "etc"];
    SafeFromParts("/etc");
  }

  lemma PythonNameChars()
    ensures forall i :: 0 <= i < |"python3.12"| ==> NameChar("python3.12"[i])
  {
  }

  /** A safe directory and a plain name make a safe path. */
  lemma SafeChild(dir: string, name: string)
    requires SafePath(dir) && EntryName(name) && |dir| + 1 + |name| <= MAX_PATH
    ensures SafePath(dir + "/" + name)
  {
    var p := dir + "/" + name;
    NoSlash(name);
    SplitAppend(dir, name);
    assert name[|name| - 1] == p[|p| - 1];
    forall i | 0 <= i < |p| ensures p[i] == '/' || NameChar(p[i]) {
      if i > |dir| { assert p[i] == name[i - |dir| - 1]; }
    }
    SafeFromParts(p);
  }

  lemma SafeName(name: string)
    requires EntryName(name) && |name| < MAX_PATH
    ensures SafePath("/" + name)
  {
    NoSlash(name);
    SplitOne(name);
    SplitCons("", name);
    var p := "/" + name;
    assert p == "" + "/" + name;
    assert Split(p, '/') == ["", name];
    assert forall i :: 0 < i < |p| ==> p[i] == name[i - 1];
    SafeFromParts(p);
  }

  lemma {:induction false} JoinedSafe(names: seq<string>)
    requires names != [] && |Joined(names)| <= MAX_PATH && forall i :: 0 <= i < |names| ==> EntryName(names[i])
    ensures SafePath(Joined(names))
  {
    var n := |names| - 1;
    if n == 0 {
      assert Joined(names) == "/" + names[0] by { assert names[..0] == [] && Joined([]) == ""; }
      SafeName(names[0]);
    } else {
      JoinedSafe(names[..n]);
      SafeChild(Joined(names[..n]), names[n]);
    }
  }

  lemma SafePartChars(path: string, x: string)
    requires SafePath(path) && x in Split(path[1..], '/')
    ensures EntryName(x)
  {
    var i :| 0 <= i < |Split(path[1..], '/')| && Split(path[1..], '/')[i] == x;
    SafePart(path, i);
    var a, b := SplitIsPiece(path[1..], '/', x);
    forall k | 0 <= k < |x| ensures NameChar(x[k]) { assert x[k] == path[1..][a + k] == path[1 + a + k]; }
  }

  /** The safe paths are the plain names, each after a slash, within the length bound. */
  lemma SafePathMeans(path: string)
    ensures SafePath(path) <==>
            && |path| <= MAX_PATH
            && exists names: seq<string> :: names != [] && Joined(names) == path && forall i :: 0 <= i < |names| ==> EntryName(names[i])
  {
    if SafePath(path) {
      var names := Split(path[1..], '/');
      JoinedSplit(path[1..]);
      assert path == "/" + path[1..];
      forall i | 0 <= i < |names| ensures EntryName(names[i]) { SafePartChars(path, names[i]); }
    }
    if |path| <= MAX_PATH {
      if names: seq<string> :| names != [] && Joined(names) == path && forall i :: 0 <= i < |names| ==> EntryName(names[i]) {
        JoinedSafe(names);
      }
    }
  }

  lemma EtcPythonSafe()
    ensures SafePath(DATA_ANCESTORS[1]) && !Archive(DATA_ANCESTORS[1])
  {
    EtcSafe();
    PythonNameChars();
    SafeChild("/etc", "python3.12");
    assert "/etc" + "/" + "python3.12" == DATA_ANCESTORS[1];
    assert !Archive(DATA_ANCESTORS[1]) by { NotArchive(DATA_ANCESTORS[1]); }
  }

  lemma NotArchive(path: string)
    requires |path| > 0 && path[|path| - 1] == '2'
    ensures !Archive(path)
  {
    forall suffix: string | suffix != [] && EndsWith(path, suffix) ensures suffix[|suffix| - 1] == '2' {}
  }

  lemma {:induction false} TotalCons(x: Entry, s: seq<Entry>)
    ensures TotalBytes([x] + s) == x.bytes + TotalBytes(s)
  {
    TotalTogether([x], s);
    assert [x][..0] == [];
  }

  lemma {:induction false} InsertTotal(x: Entry, s: seq<Entry>)
    ensures TotalBytes(InsertBy(EntryPath, x, s)) == x.bytes + TotalBytes(s)
  {
    if s == [] || !Less(EntryPath(s[0]), EntryPath(x)) {
      TotalCons(x, s);
    } else {
      InsertTotal(x, s[1..]);
      TotalCons(s[0], InsertBy(EntryPath, x, s[1..]));
      TotalCons(s[0], s[1..]);
      assert s == [s[0]] + s[1..];
    }
  }

  /** Sorting keeps the byte total. */
  lemma {:induction false} SortTotal(s: seq<Entry>)
    ensures TotalBytes(SortBy(EntryPath, s)) == TotalBytes(s)
  {
    if s != [] {
      SortTotal(s[1..]);
      InsertTotal(s[0], SortBy(EntryPath, s[1..]));
      TotalCons(s[0], s[1..]);
      assert s == [s[0]] + s[1..];
    }
  }

  lemma {:induction false} InsertStrict(x: Entry, s: seq<Entry>)
    requires StrictBy(EntryPath, s) && forall i :: 0 <= i < |s| ==> s[i].path != x.path
    ensures StrictBy(EntryPath, InsertBy(EntryPath, x, s))
  {
    if s == [] || !Less(EntryPath(s[0]), EntryPath(x)) {
      forall i | 0 <= i < |s| ensures Less(x.path, s[i].path) {
        LessTotal(s[0].path, x.path);
        if i > 0 { assert Less(EntryPath(s[0]), EntryPath(s[i])); LessTransitive(x.path, s[0].path, s[i].path); }
      }
    } else {
      var rest := InsertBy(EntryPath, x, s[1..]);
      InsertStrict(x, s[1..]);
      forall i | 0 <= i < |rest| ensures Less(s[0].path, rest[i].path) {
        assert rest[i] in multiset(rest);
        if rest[i] != x {
          assert rest[i] in multiset(s[1..]);
          var k :| 0 <= k < |s[1..]| && s[1..][k] == rest[i];
          assert Less(EntryPath(s[0]), EntryPath(s[k + 1]));
        }
      }
    }
  }

  /** One row per path sorts into strict order. */
  lemma {:induction false} SortStrict(s: seq<Entry>)
    requires OnePathEach(s)
    ensures StrictBy(EntryPath, SortBy(EntryPath, s))
  {
    if s != [] {
      SortStrict(s[1..]);
      var rest := SortBy(EntryPath, s[1..]);
      SameElements(rest, s[1..]);
      forall i | 0 <= i < |rest| ensures rest[i].path != s[0].path {
        assert rest[i] in s[1..];
      }
      InsertStrict(s[0], rest);
    }
  }

  lemma AncestorRowBody(path: string, bounds: Limits)
    requires SafePath(path) && !Archive(path)
    ensures RowBody(FixedSignedData, AncestorRow(path), bounds)
  {
    EmptyDigestIsDigest();
    assert 493 / 16 == 30 && 493 / 2 == 246;
  }

  /** The two fixed directories above the data source. */
  lemma AncestorsFound(bounds: Limits)
    ensures
      var rows := [AncestorRow(DATA_ANCESTORS[0]), AncestorRow(DATA_ANCESTORS[1])];
      OnePathEach(rows) && AllBodies(FixedSignedData, rows, bounds)
  {
    EtcSafe();
    EtcPythonSafe();
    assert |DATA_ANCESTORS[0]| != |DATA_ANCESTORS[1]|;
    TwoAncestors(DATA_ANCESTORS[0], DATA_ANCESTORS[1], bounds);
  }

  lemma TwoAncestors(a: string, b: string, bounds: Limits)
    requires SafePath(a) && !Archive(a) && SafePath(b) && !Archive(b) && a != b
    ensures OnePathEach([AncestorRow(a), AncestorRow(b)]) && AllBodies(FixedSignedData, [AncestorRow(a), AncestorRow(b)], bounds)
  {
    AncestorRowBody(a, bounds);
    AncestorRowBody(b, bounds);
  }

  lemma DataRows(data: seq<Entry>, bounds: Limits)
    requires Found(FixedSignedData, data, DATA_SOURCE, bounds)
    ensures
      var rows := [AncestorRow(DATA_ANCESTORS[0]), AncestorRow(DATA_ANCESTORS[1])] + data;
      && OnePathEach(rows) && AllBodies(FixedSignedData, rows, bounds)
      && forall i :: 0 <= i < |rows| ==> rows[i].path in DATA_ANCESTORS || Under(rows[i].path, DATA_SOURCE)
  {
    var ancestors := [AncestorRow(DATA_ANCESTORS[0]), AncestorRow(DATA_ANCESTORS[1])];
    AncestorsFound(bounds);
    forall i, j | 0 <= i < |ancestors| && 0 <= j < |data| ensures ancestors[i].path != data[j].path {
      DataApart(data[j].path);
    }
    FoundTogether(FixedSignedData, ancestors, data, bounds);
  }

  /** Batches of one root after the other keep one row per path. */
  lemma RootsTogether(location: Location, before: seq<Entry>, roots: seq<seq<Entry>>, bounds: Limits)
    requires |roots| == 3 && OnePathEach(before) && AllBodies(location, before, bounds)
    requires forall i :: 0 <= i < |before| ==> before[i].path in DATA_ANCESTORS || Under(before[i].path, DATA_SOURCE)
    requires Found(location, roots[0], "/usr/lib", bounds) && Found(location, roots[1], "/usr/lib64", bounds)
    requires Found(location, roots[2], "/usr/bin/python3.12", bounds)
    ensures OnePathEach(before + roots[0] + roots[1] + roots[2])
    ensures AllBodies(location, before + roots[0] + roots[1] + roots[2], bounds)
  {
    var a := before + roots[0];
    forall i, j | 0 <= i < |before| && 0 <= j < |roots[0]| ensures before[i].path != roots[0][j].path { DataApart(before[i].path); }
    FoundTogether(location, before, roots[0], bounds);
    forall i, j | 0 <= i < |a| && 0 <= j < |roots[1]| ensures a[i].path != roots[1][j].path {
      if i < |before| { DataApart(before[i].path); } else { RootsApart(a[i].path); }
    }
    FoundTogether(location, a, roots[1], bounds);
    var b := a + roots[1];
    forall i, j | 0 <= i < |b| && 0 <= j < |roots[2]| ensures b[i].path != roots[2][j].path {
      if i < |before| { DataApart(before[i].path); } else { RootsApart(b[i].path); }
    }
    FoundTogether(location, b, roots[2], bounds);
  }

  ghost predicate AllIncluded(location: Location, rows: seq<Entry>) {
    forall i {:trigger Included(location, rows[i].path)} :: 0 <= i < |rows| ==> Included(location, rows[i].path)
  }

  lemma RowsParse(location: Location, rows: seq<Entry>, bounds: Limits)
    requires AllBodies(location, rows, bounds) && AllIncluded(ParsedAs(location), rows)
    ensures AllRowsOk(ParsedAs(location), rows, bounds)
  {
    forall i | 0 <= i < |rows| ensures RowOk(ParsedAs(location), rows[i], bounds) {
      assert RowBody(location, rows[i], bounds) && Included(ParsedAs(location), rows[i].path);
    }
  }

  lemma RowsOkPermuted(location: Location, rows: seq<Entry>, sorted: seq<Entry>, bounds: Limits)
    requires AllRowsOk(location, rows, bounds) && multiset(rows) == multiset(sorted)
    ensures AllRowsOk(location, sorted, bounds)
  {
    SameElements(sorted, rows);
    forall i | 0 <= i < |sorted| ensures RowOk(location, sorted[i], bounds) {
      assert sorted[i] in rows;
      var k :| 0 <= k < |rows| && rows[k] == sorted[i];
      assert RowOk(location, rows[k], bounds);
    }
  }

  /** Sorting the census yields rows the parser's loop accepts. */
  lemma CensusParses(location: Location, rows: seq<Entry>, bounds: Limits)
    requires OnePathEach(rows) && AllBodies(location, rows, bounds) && TotalBytes(rows) <= bounds.bytes
    requires AllIncluded(ParsedAs(location), rows)
    ensures EntriesOk(ParsedAs(location), SortBy(EntryPath, rows), bounds)
  {
    SortStrict(rows);
    SortTotal(rows);
    RowsParse(location, rows, bounds);
    RowsOkPermuted(ParsedAs(location), rows, SortBy(EntryPath, rows), bounds);
  }

  lemma AncestorBody(index: nat, bounds: Limits)
    requires index < |DATA_ANCESTORS|
    ensures RowBody(FixedSignedData, AncestorRow(DATA_ANCESTORS[index]), bounds)
  {
    if index == 0 { EtcSafe(); } else { EtcPythonSafe(); }
    AncestorRowBody(DATA_ANCESTORS[index], bounds);
  }

  /** A directory above the data source. */
  method TakeAncestor(taker: Taker, row: Entry, level: nat, custody: bool) returns (ok: bool)
    requires taker.Tallied() && RowBody(taker.location, row, taker.bounds) && row.kind == Directory
    modifies taker
    ensures ok <==> custody && level <= taker.bounds.depth && FitsIn(taker.bounds, old(taker.entries), [row])
    ensures ok ==> taker.Tallied() && taker.entries == old(taker.entries) + [row]
  {
    TotalOne(row);
    if !custody { return false; }
    taker.count := taker.count + 1;
    if taker.count > taker.bounds.entries || level > taker.bounds.depth { return false; }
    taker.depth := if taker.depth < level then level else taker.depth;
    ok := taker.Push(row);
  }

  lemma TotalOne(row: Entry)
    ensures TotalBytes([row]) == row.bytes
  {
    assert [row][..0] == [];
  }

  ghost predicate DataDomain(rows: seq<Entry>) {
    forall i :: 0 <= i < |rows| ==> rows[i].path in DATA_ANCESTORS || Under(rows[i].path, DATA_SOURCE)
  }

  function FixedRows(data: Node): (r: seq<Entry>) {
    [AncestorRow(DATA_ANCESTORS[0]), AncestorRow(DATA_ANCESTORS[1])] + Rows(DATA_SOURCE, data)
  }

  lemma FixedRowsAre(data: Node)
    ensures FixedRows(data) == [AncestorRow(DATA_ANCESTORS[0])] + [AncestorRow(DATA_ANCESTORS[1])] + Rows(DATA_SOURCE, data)
  {
    var a, b := AncestorRow(DATA_ANCESTORS[0]), AncestorRow(DATA_ANCESTORS[1]);
    assert [a] + [b] == [a, b];
  }

  ghost predicate DataWalks(data: Node, custody: seq<bool>, bounds: Limits)
    requires |custody| == |DATA_ANCESTORS|
  {
    custody[0] && custody[1] && Walks(FixedSignedData, DATA_SOURCE, 3, data, bounds)
  }

  /** Three batches fit exactly if the last fits behind the others, and then each does. */
  lemma FitsThree(bounds: Limits, taken: seq<Entry>, a: seq<Entry>, b: seq<Entry>, c: seq<Entry>)
    ensures FitsIn(bounds, taken, a + b + c) <==> FitsIn(bounds, taken + a + b, c)
    ensures FitsIn(bounds, taken, a + b + c) ==> FitsIn(bounds, taken, a) && FitsIn(bounds, taken + a, b)
  {
    FitsTwice(bounds, taken, a + b, c);
    FitsTwice(bounds, taken, a, b);
    assert taken + (a + b) == taken + a + b;
  }

  /** The fixed data: two directories and one source. */
  method TakeData(taker: Taker, data: Node, custody: seq<bool>) returns (ok: bool)
    requires |custody| == |DATA_ANCESTORS| && taker.Tallied() && taker.entries == [] && taker.location == FixedSignedData && Sane(data)
    modifies taker
    ensures ok <==> DataWalks(data, custody, taker.bounds) && FitsIn(taker.bounds, [], FixedRows(data))
    ensures ok ==> taker.Tallied() && taker.entries == FixedRows(data)
    ensures ok ==> OnePathEach(taker.entries) && AllBodies(FixedSignedData, taker.entries, taker.bounds) && DataDomain(taker.entries)
  {
    var a, b := AncestorRow(DATA_ANCESTORS[0]), AncestorRow(DATA_ANCESTORS[1]);
    AncestorBody(0, taker.bounds);
    AncestorBody(1, taker.bounds);
    FixedRowsAre(data);
    FitsThree(taker.bounds, [], [a], [b], Rows(DATA_SOURCE, data));
    ok := TakeAncestor(taker, a, 1, custody[0]);
    if !ok { return; }
    ok := TakeAncestor(taker, b, 2, custody[1]);
    if !ok { return; }
    ok := taker.Walk(DATA_SOURCE, 3, data);
    if ok { DataRows(Rows(DATA_SOURCE, data), taker.bounds); }
  }

  /** Three trees, one after the other. */
  method WalkThree(taker: Taker, p: string, a: Node, q: string, b: Node, r: string, c: Node) returns (ok: bool)
    requires taker.Tallied() && Sane(a) && Sane(b) && Sane(c)
    modifies taker
    ensures ok <==> && ThreeWalk(taker.location, p, a, q, b, r, c, taker.bounds)
                    && FitsIn(taker.bounds, old(taker.entries), Rows(p, a) + Rows(q, b) + Rows(r, c))
    ensures ok ==> taker.Tallied() && taker.entries != []
    ensures ok ==> taker.entries == old(taker.entries) + Rows(p, a) + Rows(q, b) + Rows(r, c)
    ensures ok ==> Found(taker.location, Rows(p, a), p, taker.bounds) && Found(taker.location, Rows(q, b), q, taker.bounds)
    ensures ok ==> Found(taker.location, Rows(r, c), r, taker.bounds)
  {
    FitsThree(taker.bounds, taker.entries, Rows(p, a), Rows(q, b), Rows(r, c));
    ok := taker.Walk(p, 1, a);
    if !ok { return; }
    ok := taker.Walk(q, 1, b);
    if !ok { return; }
    ok := taker.Walk(r, 1, c);
  }

  ghost predicate ThreeWalk(location: Location, p: string, a: Node, q: string, b: Node, r: string, c: Node, bounds: Limits) {
    Walks(location, p, 1, a, bounds) && Walks(location, q, 1, b, bounds) && Walks(location, r, 1, c, bounds)
  }

  /** Every entry below the roots is in order. */
  ghost predicate RootsWalk(location: Location, roots: seq<Node>, bounds: Limits)
    requires |roots| == |ROOTS|
  {
    ThreeWalk(location, ROOTS[0], roots[0], ROOTS[1], roots[1], ROOTS[2], roots[2], bounds)
  }

  /** The three roots. */
  method TakeRoots(taker: Taker, roots: seq<Node>) returns (ok: bool)
    requires taker.Tallied() && |roots| == |ROOTS| && forall i :: 0 <= i < |roots| ==> Sane(roots[i])
    requires OnePathEach(taker.entries) && AllBodies(taker.location, taker.entries, taker.bounds) && DataDomain(taker.entries)
    modifies taker
    ensures ok <==> && RootsWalk(taker.location, roots, taker.bounds)
                    && FitsIn(taker.bounds, old(taker.entries), Rows(ROOTS[0], roots[0]) + Rows(ROOTS[1], roots[1]) + Rows(ROOTS[2], roots[2]))
    ensures ok ==> taker.Tallied() && taker.entries != []
    ensures ok ==> taker.entries == old(taker.entries) + Rows(ROOTS[0], roots[0]) + Rows(ROOTS[1], roots[1]) + Rows(ROOTS[2], roots[2])
    ensures ok ==> OnePathEach(taker.entries) && AllBodies(taker.location, taker.entries, taker.bounds)
    ensures ok ==> AllMembers(taker.entries, |old(taker.entries)|)
  {
    ok := WalkThree(taker, ROOTS[0], roots[0], ROOTS[1], roots[1], ROOTS[2], roots[2]);
    if !ok { return; }
    ghost var batches := [Rows(ROOTS[0], roots[0]), Rows(ROOTS[1], roots[1]), Rows(ROOTS[2], roots[2])];
    RootsTogether(taker.location, old(taker.entries), batches, taker.bounds);
    RootMembers(old(taker.entries), batches);
  }

  lemma RootMembers(before: seq<Entry>, roots: seq<seq<Entry>>)
    requires |roots| == 3
    requires AllUnder(roots[0], ROOTS[0]) && AllUnder(roots[1], ROOTS[1]) && AllUnder(roots[2], ROOTS[2])
    ensures
      AllMembers(before + roots[0] + roots[1] + roots[2], |before|)
  {
    var all := before + roots[0] + roots[1] + roots[2];
    var n0, n1 := |before| + |roots[0]|, |before| + |roots[0]| + |roots[1]|;
    forall i | |before| <= i < |all| ensures Member(all[i].path) {
      if i < n0 {
        assert all[i] == roots[0][i - |before|] && Under(all[i].path, ROOTS[0]);
      } else if i < n1 {
        assert all[i] == roots[1][i - n0] && Under(all[i].path, ROOTS[1]);
      } else {
        assert all[i] == roots[2][i - n1] && Under(all[i].path, ROOTS[2]);
      }
    }
  }

  /** Every entry of the roots, and of the fixed data if it is asked for, is in order, and
      all together stay within the bounds. */
  ghost predicate AllWalk(location: Location, roots: seq<Node>, data: Node, custody: seq<bool>, bounds: Limits)
    requires |custody| == |DATA_ANCESTORS| && |roots| == |ROOTS|
  {
    && (location == FixedSignedData ==> DataWalks(data, custody, bounds)) && RootsWalk(location, roots, bounds)
    && |AllRows(location, roots, data)| <= bounds.entries && TotalBytes(AllRows(location, roots, data)) <= bounds.bytes
  }

  /** Limits, packages and entries are in order, and the fixed rule holds of the catalog. */
  ghost predicate Capturable(location: Location, roots: seq<Node>, data: Node, packages: seq<Package>, bounds: Limits, fixed: FixedRule,
                             custody: seq<bool>)
    requires |custody| == |DATA_ANCESTORS| && |roots| == |ROOTS|
  {
    && LimitsOk(bounds) && |packages| <= bounds.entries && PackagesOk(packages) && AllWalk(location, roots, data, custody, bounds)
    && (location == FixedSignedData ==> FixedData(Catalog(packages, SortBy(EntryPath, AllRows(location, roots, data))), fixed))
  }

  lemma AllRowsFit(location: Location, roots: seq<Node>, data: Node, bounds: Limits)
    requires |roots| == |ROOTS|
    ensures var first := if location == FixedSignedData then FixedRows(data) else [];
            var more := Rows(ROOTS[0], roots[0]) + Rows(ROOTS[1], roots[1]) + Rows(ROOTS[2], roots[2]);
            && AllRows(location, roots, data) == first + more
            && (FitsIn(bounds, first, more) <==>
                |AllRows(location, roots, data)| <= bounds.entries && TotalBytes(AllRows(location, roots, data)) <= bounds.bytes)
            && (FitsIn(bounds, first, more) ==> FitsIn(bounds, [], first))
  {
    var first := if location == FixedSignedData then FixedRows(data) else [];
    var more := Rows(ROOTS[0], roots[0]) + Rows(ROOTS[1], roots[1]) + Rows(ROOTS[2], roots[2]);
    assert AllRows(location, roots, data) == first + more;
    FitsTaken(bounds, first, more);
  }

  /** All walks of a census. */
  method TakeAll(taker: Taker, roots: seq<Node>, data: Node, custody: seq<bool>) returns (ok: bool)
    requires |custody| == |DATA_ANCESTORS| && |roots| == |ROOTS| && Sane(data) && forall i :: 0 <= i < |roots| ==> Sane(roots[i])
    requires taker.Tallied() && taker.entries == []
    modifies taker
    ensures ok <==> AllWalk(taker.location, roots, data, custody, taker.bounds)
    ensures ok ==> taker.Tallied() && taker.entries == AllRows(taker.location, roots, data) && taker.entries != []
    ensures ok ==> OnePathEach(taker.entries) && AllBodies(taker.location, taker.entries, taker.bounds)
    ensures ok ==> taker.location != FixedSignedData ==> AllMembers(taker.entries, 0)
  {
    AllRowsFit(taker.location, roots, data, taker.bounds);
    if taker.location == FixedSignedData {
      ok := TakeData(taker, data, custody);
      if !ok { return; }
    }
    ok := TakeRoots(taker, roots);
  }

  method TakeCensus(location: Location, roots: seq<Node>, data: Node, bounds: Limits, custody: seq<bool>)
    returns (ok: bool, rows: seq<Entry>, code: set<string>)
    requires |custody| == |DATA_ANCESTORS| && |roots| == |ROOTS| && Sane(data) && forall i :: 0 <= i < |roots| ==> Sane(roots[i])
    ensures ok <==> AllWalk(location, roots, data, custody, bounds)
    ensures ok ==> rows == AllRows(location, roots, data) != [] && code == CodePaths(rows)
    ensures ok ==> OnePathEach(rows) && AllBodies(location, rows, bounds) && (location != FixedSignedData ==> AllMembers(rows, 0))
  {
    var taker := new Taker(location, bounds);
    ok := TakeAll(taker, roots, data, custody);
    rows, code := taker.entries, taker.code;
  }

  /** `captureEnvelope`: the catalog of every row met, sorted by path; given its
      bytes and the time, the parser accepts it under the same bounds. */
  method Capture(location: Location, roots: seq<Node>, data: Node, packages: seq<Package>, bounds: Limits, fixed: FixedRule,
                 custody: seq<bool>)
    returns (ok: bool, c: Catalog, code: set<string>)
    requires |custody| == |DATA_ANCESTORS| && |roots| == |ROOTS| && Sane(data) && forall i :: 0 <= i < |roots| ==> Sane(roots[i])
    ensures ok ==> c == Catalog(packages, SortBy(EntryPath, AllRows(location, roots, data)))
    ensures ok ==> StrictBy(EntryPath, c.entries) && Parses(ParsedAs(location), c, bounds, fixed)
    ensures ok ==> code == CodePaths(c.entries)
    ensures ok <==> Capturable(location, roots, data, packages, bounds, fixed, custody)
  {
    c, code := Catalog(packages, []), {};
    ok := CheckRequest(packages, bounds);
    if !ok { return; }
    var rows;
    ok, rows, code := TakeCensus(location, roots, data, bounds, custody);
    if !ok { return; }
    ok, c := Cataloged(location, rows, packages, bounds, fixed);
  }

  method CheckRequest(packages: seq<Package>, bounds: Limits) returns (ok: bool)
    ensures ok <==> LimitsOk(bounds) && |packages| <= bounds.entries && PackagesOk(packages)
  {
    if !LimitsOk(bounds) || |packages| > bounds.entries { return false; }
    ok := ParsePackages(packages);
  }

  /** The catalog of a census, refused when the fixed rule does not hold of it. */
  method Cataloged(location: Location, rows: seq<Entry>, packages: seq<Package>, bounds: Limits, fixed: FixedRule)
    returns (ok: bool, c: Catalog)
    requires rows != [] && |rows| <= bounds.entries && TotalBytes(rows) <= bounds.bytes
    requires LimitsOk(bounds) && PackagesOk(packages) && |packages| <= bounds.entries
    requires OnePathEach(rows) && AllBodies(location, rows, bounds) && (location != FixedSignedData ==> AllMembers(rows, 0))
    ensures c == Catalog(packages, SortBy(EntryPath, rows)) && CodePaths(c.entries) == CodePaths(rows)
    ensures ok <==> (location == FixedSignedData ==> FixedData(c, fixed))
    ensures ok ==> StrictBy(EntryPath, c.entries) && Parses(ParsedAs(location), c, bounds, fixed)
  {
    c := Catalog(packages, SortBy(EntryPath, rows));
    CodeSorted(rows, c.entries);
    ok := location == FixedSignedData ==> FixedData(c, fixed);
    if ok { CapturedParses(location, rows, c, bounds, fixed); }
  }

  /** A census within the bounds makes a catalog that parses. */
  lemma CapturedParses(location: Location, rows: seq<Entry>, c: Catalog, bounds: Limits, fixed: FixedRule)
    requires c.entries == SortBy(EntryPath, rows) && rows != [] && |rows| <= bounds.entries && TotalBytes(rows) <= bounds.bytes
    requires LimitsOk(bounds) && PackagesOk(c.packages) && |c.packages| <= bounds.entries
    requires OnePathEach(rows) && AllBodies(location, rows, bounds)
    requires location == FixedSignedData ==> FixedData(c, fixed)
    requires location != FixedSignedData ==> AllMembers(rows, 0)
    ensures Parses(ParsedAs(location), c, bounds, fixed)
  {
    DomainOfSorted(location, rows, c, fixed);
    CensusParses(location, rows, bounds);
    OrderedParses(location, c, bounds, fixed);
  }

  lemma OrderedParses(location: Location, c: Catalog, bounds: Limits, fixed: FixedRule)
    requires 0 < |c.entries| <= bounds.entries && EntriesOk(ParsedAs(location), c.entries, bounds)
    requires LimitsOk(bounds) && PackagesOk(c.packages) && |c.packages| <= bounds.entries
    requires location == FixedSignedData ==> FixedData(c, fixed)
    ensures Parses(ParsedAs(location), c, bounds, fixed)
  {
  }

  lemma DomainOfSorted(location: Location, rows: seq<Entry>, c: Catalog, fixed: FixedRule)
    requires c.entries == SortBy(EntryPath, rows)
    requires location == FixedSignedData ==> FixedData(c, fixed)
    requires location != FixedSignedData ==> AllMembers(rows, 0)
    ensures AllIncluded(ParsedAs(location), rows)
  {
    forall i | 0 <= i < |rows| ensures Included(ParsedAs(location), rows[i].path) {
      if location == FixedSignedData { InSorted(rows, c, fixed, i); } else { assert Member(rows[i].path); }
    }
  }

  ghost predicate AllMembers(rows: seq<Entry>, from: nat) {
    forall i {:trigger Member(rows[i].path)} :: from <= i < |rows| ==> Member(rows[i].path)
  }

  lemma InSorted(rows: seq<Entry>, c: Catalog, fixed: FixedRule, i: nat)
    requires c.entries == SortBy(EntryPath, rows) && FixedData(c, fixed) && i < |rows|
    ensures DataMember(rows[i].path)
  {
    var k := SamePlace(rows, c.entries, i);
    assert DataMember(c.entries[k].path);
  }

  lemma SamePlace(rows: seq<Entry>, sorted: seq<Entry>, i: nat) returns (k: nat)
    requires multiset(rows) == multiset(sorted) && i < |rows|
    ensures k < |sorted| && sorted[k] == rows[i]
  {
    SameElements(rows, sorted);
    assert rows[i] in sorted;
    k :| 0 <= k < |sorted| && sorted[k] == rows[i];
  }
}
