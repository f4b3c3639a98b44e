/** The loader graph of the envelope: every file a dynamic loader could choose is
    itself a node of the graph. */
module Loader {
  import opened Text
  import opened Envelope

  datatype ElfFacts = ElfFacts(needed: seq<string>, runpath: seq<string>, rpath: seq<string>, interpreted: bool)

  datatype Backend = OpenSsl3 | BuiltinSha256

  type Rows = map<string, Entry>

  const SEARCH := ["/usr/lib/x86_64-linux-gnu", "/usr/lib", "/usr/lib64"]
  const HWCAPS := ["x86-64-v2", "x86-64-v3", "x86-64-v4"]
  const LOADER_PATH := "/usr/lib64/ld-linux-x86-64.so.2"
  const PROVIDERS := "/usr/lib/x86_64-linux-gnu/ossl-modules"

  // ---- aliases -------------------------------------------------------------

  /** The row an alias chain ends at; a revisited or missing path is an error. */
  function Resolve(rows: Rows, path: string, seen: set<string>): (r: Option<string>)
    requires seen <= rows.Keys
    ensures r.Some? ==> r.value in rows && rows[r.value].kind != Alias
    decreases rows.Keys - seen
  {
    if path in seen || path !in rows then None
    else if rows[path].kind != Alias then Some(path)
    else Resolve(rows, rows[path].target, seen + {path})
  }

  /** `aliasTarget`; it ends because each round uses up an unseen catalog path. */
  method AliasTarget(rows: Rows, start: string) returns (r: Option<string>)
    ensures r == Resolve(rows, start, {})
  {
    var seen: set<string> := {};
    var path := start;
    while true
      invariant seen <= rows.Keys && Resolve(rows, start, {}) == Resolve(rows, path, seen)
      decreases rows.Keys - seen
    {
      if path in seen || path !in rows { return None; }
      if rows[path].kind != Alias { return Some(path); }
      seen := seen + {path};
      path := rows[path].target;
    }
  }

  /** A chain of alias rows, each naming the next, up to a row that is none. */
  ghost predicate Trail(rows: Rows, trail: seq<string>) {
    && trail != [] && trail[|trail| - 1] in rows && rows[trail[|trail| - 1]].kind != Alias
    && forall i :: 0 <= i < |trail| - 1 ==>
         trail[i] in rows && rows[trail[i]].kind == Alias && rows[trail[i]].target == trail[i + 1]
  }

  /** A trail never meets a row twice: from there it could not end. */
  lemma {:induction false} TrailDistinct(rows: Rows, trail: seq<string>, i: nat, j: nat)
    requires Trail(rows, trail) && i < j < |trail|
    ensures trail[i] != trail[j]
    decreases |trail| - j
  {
    if trail[i] == trail[j] && j < |trail| - 1 { TrailDistinct(rows, trail, i + 1, j + 1); }
  }

  lemma {:induction false} TrailResolves(rows: Rows, trail: seq<string>, k: nat, seen: set<string>)
    requires Trail(rows, trail) && k < |trail| && seen <= rows.Keys
    requires forall x :: x in seen ==> exists i :: 0 <= i < k && trail[i] == x
    ensures Resolve(rows, trail[k], seen) == Some(trail[|trail| - 1])
    decreases |trail| - k
  {
    if trail[k] in seen {
      var i :| 0 <= i < k && trail[i] == trail[k];
      TrailDistinct(rows, trail, i, k);
    }
    if k < |trail| - 1 {
      forall x | x in seen + {trail[k]} ensures exists i :: 0 <= i < k + 1 && trail[i] == x {
        if x in seen { var i :| 0 <= i < k && trail[i] == x; } else { assert trail[k] == x; }
      }
      TrailResolves(rows, trail, k + 1, seen + {trail[k]});
    }
  }

  lemma {:induction false} ResolvedHasTrail(rows: Rows, path: string, seen: set<string>) returns (trail: seq<string>)
    requires seen <= rows.Keys && Resolve(rows, path, seen).Some?
    ensures Trail(rows, trail) && trail[0] == path && trail[|trail| - 1] == Resolve(rows, path, seen).value
    decreases rows.Keys - seen
  {
    if rows[path].kind != Alias {
      trail := [path];
    } else {
      var rest := ResolvedHasTrail(rows, rows[path].target, seen + {path});
      trail := [path] + rest;
    }
  }

  /** A path resolves to q exactly when a finite alias chain leads from it to q. */
  lemma ResolveIsChainEnd(rows: Rows, path: string, q: string)
    ensures Resolve(rows, path, {}) == Some(q) <==>
            exists trail :: Trail(rows, trail) && trail[0] == path && trail[|trail| - 1] == q
  {
    if Resolve(rows, path, {}) == Some(q) {
      var trail := ResolvedHasTrail(rows, path, {});
    }
    if exists trail :: Trail(rows, trail) && trail[0] == path && trail[|trail| - 1] == q {
      var trail :| Trail(rows, trail) && trail[0] == path && trail[|trail| - 1] == q;
      TrailResolves(rows, trail, 0, {});
    }
  }

  // ---- search paths --------------------------------------------------------

  /** `posix.dirname` of an absolute path. */
  function Dirname(path: string): (r: string) {
    var parts := Split(path, '/');
    if |parts| <= 2 then "/" else Together(parts[..|parts| - 1])
  }

  /** The directory of a file is what stands before its last name. */
  lemma DirnameOf(dir: string, name: string)
    requires '/' !in name && "/" <= dir
    ensures Dirname(dir + "/" + name) == dir && Dirname("/" + name) == "/"
  {
    assert |Split(dir, '/')| >= 2 by {
      assert dir == "" + "/" + dir[1..];
      SplitCons("", dir[1..]);
    }
    DirnameParts(dir, name);
    assert |Split("/" + name, '/')| == 2 by {
      assert "/" + name == "" + "/" + name;
      SplitCons("", name);
      SplitOne(name);
    }
  }

  lemma DirnameParts(dir: string, name: string)
    requires '/' !in name && |Split(dir, '/')| >= 2
    ensures Dirname(dir + "/" + name) == dir
  {
    SplitAppend(dir, name);
    TogetherSplit(dir);
    var parts := Split(dir, '/') + [name];
    assert parts[..|parts| - 1] == Split(dir, '/');
  }

  /** How long the token is that the string starts with. */
  function TokenAt(s: string): (n: nat)
    ensures n <= |s| && (n > 0 ==> s[0] == '$')
  {
    if "${ORIGIN}" <= s then 9 else if "$ORIGIN" <= s then 7 else 0
  }

  /** Both spellings of the origin token, everywhere in the string. */
  function ReplaceOrigin(s: string, dir: string): (r: string)
    decreases |s|
  {
    if s == [] then []
    else if TokenAt(s) == 0 then [s[0]] + ReplaceOrigin(s[1..], dir)
    else dir + ReplaceOrigin(s[TokenAt(s)..], dir)
  }

  /** Text without a dollar stays, whatever follows it. */
  lemma {:induction false} TextKept(s: string, rest: string, dir: string)
    requires '$' !in s
    ensures ReplaceOrigin(s + rest, dir) == s + ReplaceOrigin(rest, dir)
    decreases |s|
  {
    if s == [] {
      assert s + rest == rest;
    } else {
      TextKept(s[1..], rest, dir);
      CharKept(s[0], s[1..] + rest, dir);
      Peeled(s, rest);
      Peeled(s, ReplaceOrigin(rest, dir));
    }
  }

  /** Each token gives way to the directory. */
  lemma TokenReplaced(token: string, rest: string, dir: string)
    requires token == "$ORIGIN" || token == "${ORIGIN}"
    ensures ReplaceOrigin(token + rest, dir) == dir + ReplaceOrigin(rest, dir)
  {
    var s := token + rest;
    assert token <= s && s[|token|..] == rest;
    if token == "$ORIGIN" { assert s[1] != '{'; }
  }

  lemma Peeled(s: string, rest: string)
    requires s != []
    ensures s + rest == [s[0]] + (s[1..] + rest)
  {
  }

  lemma CharKept(c: char, tail: string, dir: string)
    requires c != '$'
    ensures ReplaceOrigin([c] + tail, dir) == [c] + ReplaceOrigin(tail, dir)
  {
    assert ([c] + tail)[0] == c && ([c] + tail)[1..] == tail;
  }

  /** A dollar that starts no token stays too, and so the value is refused. */
  lemma OtherDollarStays(s: string, dir: string)
    requires s != [] && s[0] == '$' && !("$ORIGIN" <= s) && !("${ORIGIN}" <= s)
    ensures '$' in ReplaceOrigin(s, dir)
  {
    assert ReplaceOrigin(s, dir)[0] == '$';
  }

  /** `expand`: a search directory of the file, or an error. */
  function Expand(rows: Rows, path: string, value: string): (r: Option<string>)
    ensures r.Some? ==> r.value in rows && rows[r.value].kind == Directory && Member(r.value)
  {
    var expanded := ReplaceOrigin(value, Dirname(path));
    if value == "" || '$' in expanded || !SafePath(expanded) || !Member(expanded) then None
    else if expanded !in rows || rows[expanded].kind != Directory then None
    else Some(expanded)
  }

  /** A value without a token names its directory itself; a value that starts with the
      token names one relative to the directory of the file. */
  lemma ExpandMeans(rows: Rows, dir: string, name: string, value: string, rest: string, token: string)
    requires '/' !in name && "/" <= dir && '$' !in dir && '$' !in value && '$' !in rest && value != ""
    requires token == "$ORIGIN" || token == "${ORIGIN}"
    ensures Expand(rows, dir + "/" + name, value) ==
            if SafePath(value) && Member(value) && value in rows && rows[value].kind == Directory then Some(value) else None
    ensures var there := dir + rest;
            Expand(rows, dir + "/" + name, token + rest) ==
            if SafePath(there) && Member(there) && there in rows && rows[there].kind == Directory then Some(there) else None
  {
    DirnameOf(dir, name);
    TextKept(value, [], dir);
    TextKept(rest, [], dir);
    assert value + [] == value && rest + [] == rest;
    TokenReplaced(token, rest, dir);
    assert '$' !in dir + rest && token + rest != "";
  }

  function ExpandAll(rows: Rows, path: string, values: seq<string>): (r: Option<seq<string>>) {
    if values == [] then Some([])
    else
      var init := ExpandAll(rows, path, values[..|values| - 1]);
      var last := Expand(rows, path, values[|values| - 1]);
      if init.None? || last.None? then None else Some(init.value + [last.value])
  }

  /** The file names tried in one directory, hardware variants included. */
  function InDirectory(dir: string, name: string): (r: seq<string>) {
    [dir + "/" + name, dir + "/glibc-hwcaps/" + HWCAPS[0] + "/" + name,
     dir + "/glibc-hwcaps/" + HWCAPS[1] + "/" + name, dir + "/glibc-hwcaps/" + HWCAPS[2] + "/" + name]
  }

  function Candidates(dirs: seq<string>, name: string): (r: seq<string>) {
    if dirs == [] then [] else Candidates(dirs[..|dirs| - 1], name) + InDirectory(dirs[|dirs| - 1], name)
  }

  lemma {:induction false} CandidatesCover(dirs: seq<string>, name: string, dir: string, c: string)
    requires dir in dirs && c in InDirectory(dir, name)
    ensures c in Candidates(dirs, name)
  {
    var n := |dirs| - 1;
    assert dirs == dirs[..n] + [dirs[n]];
    if dir in dirs[..n] { CandidatesCover(dirs[..n], name, dir, c); }
  }

  lemma {:induction false} ExpandAllMeans(rows: Rows, path: string, values: seq<string>)
    ensures ExpandAll(rows, path, values).Some? <==> forall v :: v in values ==> Expand(rows, path, v).Some?
    ensures ExpandAll(rows, path, values).Some? ==>
              forall dir :: dir in ExpandAll(rows, path, values).value <==>
                            exists v :: v in values && Expand(rows, path, v) == Some(dir)
  {
    if values != [] {
      var n := |values| - 1;
      ExpandAllMeans(rows, path, values[..n]);
      assert values == values[..n] + [values[n]];
    }
  }

  /** The file names a loader tries in one directory. */
  ghost predicate Tried(dir: string, name: string, c: string) {
    c == dir + "/" + name || exists level :: level in HWCAPS && c == dir + "/glibc-hwcaps/" + level + "/" + name
  }

  lemma TriedMeans(dir: string, name: string, c: string)
    ensures c in InDirectory(dir, name) <==> Tried(dir, name, c)
  {
    if level :| level in HWCAPS && c == dir + "/glibc-hwcaps/" + level + "/" + name {
      assert level == HWCAPS[0] || level == HWCAPS[1] || level == HWCAPS[2];
    }
    assert HWCAPS[0] in HWCAPS && HWCAPS[1] in HWCAPS && HWCAPS[2] in HWCAPS;
  }

  lemma {:induction false} CandidatesMean(dirs: seq<string>, name: string, c: string)
    ensures c in Candidates(dirs, name) <==> exists dir :: dir in dirs && Tried(dir, name, c)
  {
    if dirs != [] {
      var n := |dirs| - 1;
      CandidatesMean(dirs[..n], name, c);
      TriedMeans(dirs[n], name, c);
      assert dirs == dirs[..n] + [dirs[n]];
    }
  }

  // ---- targets of one file -------------------------------------------------

  /** A present candidate must lead to code. */
  predicate LeadsToCode(rows: Rows, c: string) {
    Resolve(rows, c, {}).Some? && rows[Resolve(rows, c, {}).value].kind == Elf
  }

  ghost predicate CandidatesOk(rows: Rows, cs: seq<string>) {
    forall i {:trigger cs[i]} :: 0 <= i < |cs| && cs[i] in rows ==> LeadsToCode(rows, cs[i])
  }

  predicate SomePresent(rows: Rows, cs: seq<string>) {
    exists i :: 0 <= i < |cs| && cs[i] in rows
  }

  ghost function TargetsOf(rows: Rows, cs: seq<string>): (s: set<string>)
    requires CandidatesOk(rows, cs)
  {
    set i | 0 <= i < |cs| && cs[i] in rows :: Resolve(rows, cs[i], {}).value
  }

  lemma TargetsAppend(rows: Rows, a: seq<string>, b: seq<string>)
    ensures CandidatesOk(rows, a + b) <==> CandidatesOk(rows, a) && CandidatesOk(rows, b)
    ensures SomePresent(rows, a + b) <==> SomePresent(rows, a) || SomePresent(rows, b)
    ensures CandidatesOk(rows, a + b) ==> TargetsOf(rows, a + b) == TargetsOf(rows, a) + TargetsOf(rows, b)
  {
    var c := a + b;
    assert forall i :: 0 <= i < |a| ==> c[i] == a[i];
    assert forall i :: 0 <= i < |b| ==> c[|a| + i] == b[i];
    if CandidatesOk(rows, a) && CandidatesOk(rows, b) {
      forall i | 0 <= i < |c| && c[i] in rows ensures LeadsToCode(rows, c[i]) {
        if i >= |a| { assert c[i] == b[i - |a|]; }
      }
    }
    if CandidatesOk(rows, c) {
      forall q ensures q in TargetsOf(rows, c) <==> q in TargetsOf(rows, a) || q in TargetsOf(rows, b) {
        if q in TargetsOf(rows, c) {
          var i :| 0 <= i < |c| && c[i] in rows && Resolve(rows, c[i], {}).value == q;
          if i >= |a| { assert c[i] == b[i - |a|]; }
        }
      }
    }
    if SomePresent(rows, c) {
      var i :| 0 <= i < |c| && c[i] in rows;
      if i >= |a| { assert c[i] == b[i - |a|]; }
    }
  }

  lemma TargetsOne(rows: Rows, c: string)
    ensures CandidatesOk(rows, [c]) <==> (c in rows ==> LeadsToCode(rows, c))
    ensures SomePresent(rows, [c]) <==> c in rows
    ensures CandidatesOk(rows, [c]) ==> TargetsOf(rows, [c]) == if c in rows then {Resolve(rows, c, {}).value} else {}
  {
    assert [c][0] == c;
  }

  lemma TargetsNone(rows: Rows)
    ensures CandidatesOk(rows, []) && !SomePresent(rows, []) && TargetsOf(rows, []) == {}
  {
  }

  /** The candidates of one directory. */
  method ScanDirectory(rows: Rows, cs: seq<string>) returns (ok: bool, targets: set<string>, matched: bool)
    ensures ok <==> CandidatesOk(rows, cs)
    ensures ok ==> targets == TargetsOf(rows, cs) && matched == SomePresent(rows, cs)
  {
    ok, targets, matched := true, {}, false;
    TargetsNone(rows);
    for n := 0 to |cs|
      invariant ok && CandidatesOk(rows, cs[..n])
      invariant targets == TargetsOf(rows, cs[..n]) && matched == SomePresent(rows, cs[..n])
    {
      TargetsOne(rows, cs[n]);
      TargetsAppend(rows, cs[..n], [cs[n]]);
      assert cs[..n + 1] == cs[..n] + [cs[n]];
      if cs[n] in rows {
        var canonical := AliasTarget(rows, cs[n]);
        if canonical.None? || rows[canonical.value].kind != Elf {
          TargetsAppend(rows, cs[..n + 1], cs[n + 1..]);
          assert cs == cs[..n + 1] + cs[n + 1..];
          return false, targets, matched;
        }
        targets, matched := targets + {canonical.value}, true;
      }
    }
    assert cs[..|cs|] == cs;
  }

  /** One needed name over all its search directories. */
  method ScanNeeded(rows: Rows, dirs: seq<string>, name: string) returns (ok: bool, targets: set<string>)
    ensures ok <==> CandidatesOk(rows, Candidates(dirs, name)) && SomePresent(rows, Candidates(dirs, name))
    ensures ok ==> targets == TargetsOf(rows, Candidates(dirs, name))
  {
    var matched := false;
    ok, targets := true, {};
    TargetsNone(rows);
    for n := 0 to |dirs|
      invariant ok && CandidatesOk(rows, Candidates(dirs[..n], name))
      invariant targets == TargetsOf(rows, Candidates(dirs[..n], name)) && matched == SomePresent(rows, Candidates(dirs[..n], name))
    {
      var found, hit;
      ok, found, hit := ScanDirectory(rows, InDirectory(dirs[n], name));
      NextDirectory(rows, dirs, name, n);
      if !ok { return; }
      targets, matched := targets + found, matched || hit;
    }
    assert dirs[..|dirs|] == dirs;
    ok := matched;
  }

  lemma NextDirectory(rows: Rows, dirs: seq<string>, name: string, n: nat)
    requires n < |dirs|
    ensures Candidates(dirs[..n + 1], name) == Candidates(dirs[..n], name) + InDirectory(dirs[n], name)
    ensures CandidatesOk(rows, Candidates(dirs[..n + 1], name)) <==>
            CandidatesOk(rows, Candidates(dirs[..n], name)) && CandidatesOk(rows, InDirectory(dirs[n], name))
    ensures SomePresent(rows, Candidates(dirs[..n + 1], name)) <==>
            SomePresent(rows, Candidates(dirs[..n], name)) || SomePresent(rows, InDirectory(dirs[n], name))
    ensures CandidatesOk(rows, Candidates(dirs[..n + 1], name)) ==>
              TargetsOf(rows, Candidates(dirs[..n + 1], name)) ==
              TargetsOf(rows, Candidates(dirs[..n], name)) + TargetsOf(rows, InDirectory(dirs[n], name))
    ensures CandidatesOk(rows, Candidates(dirs, name)) ==> CandidatesOk(rows, InDirectory(dirs[n], name))
  {
    assert dirs[..n + 1][..n] == dirs[..n];
    TargetsAppend(rows, Candidates(dirs[..n], name), InDirectory(dirs[n], name));
    if CandidatesOk(rows, Candidates(dirs, name)) {
      forall i | 0 <= i < |InDirectory(dirs[n], name)| && InDirectory(dirs[n], name)[i] in rows
        ensures LeadsToCode(rows, InDirectory(dirs[n], name)[i])
      {
        CandidatesCover(dirs, name, dirs[n], InDirectory(dirs[n], name)[i]);
        var k :| 0 <= k < |Candidates(dirs, name)| && Candidates(dirs, name)[k] == InDirectory(dirs[n], name)[i];
      }
    }
  }

  // ---- the graph -----------------------------------------------------------

  /** All directories a file's dependencies are searched in. */
  function Dirs(rows: Rows, path: string, facts: ElfFacts): (r: Option<seq<string>>) {
    var local := ExpandAll(rows, path, facts.rpath + facts.runpath);
    if local.None? then None else Some(local.value + SEARCH)
  }

  ghost predicate NameOk(rows: Rows, dirs: seq<string>, name: string) {
    CandidatesOk(rows, Candidates(dirs, name)) && SomePresent(rows, Candidates(dirs, name))
  }

  ghost predicate NamesOk(rows: Rows, dirs: seq<string>, names: seq<string>) {
    forall i {:trigger NameOk(rows, dirs, names[i])} :: 0 <= i < |names| ==> NameOk(rows, dirs, names[i])
  }

  ghost function NamesTargets(rows: Rows, dirs: seq<string>, names: seq<string>): (s: set<string>)
    requires NamesOk(rows, dirs, names)
  {
    if names == [] then {}
    else
      var n := |names| - 1;
      assert NameOk(rows, dirs, names[n]);
      assert forall i :: 0 <= i < n ==> NameOk(rows, dirs, names[i]) ==> NameOk(rows, dirs, names[..n][i]);
      NamesTargets(rows, dirs, names[..n]) + TargetsOf(rows, Candidates(dirs, names[n]))
  }

  /** Everything about one file resolves to code inside the catalog. */
  ghost predicate FileOk(rows: Rows, path: string, facts: ElfFacts) {
    && Dirs(rows, path, facts).Some? && NamesOk(rows, Dirs(rows, path, facts).value, facts.needed)
    && (facts.interpreted ==> LeadsToCode(rows, LOADER_PATH))
  }

  ghost function FileTargets(rows: Rows, path: string, facts: ElfFacts): (s: set<string>)
    requires FileOk(rows, path, facts)
  {
    NamesTargets(rows, Dirs(rows, path, facts).value, facts.needed) +
    (if facts.interpreted then {Resolve(rows, LOADER_PATH, {}).value} else {})
  }

  lemma NamesPrefix(rows: Rows, dirs: seq<string>, names: seq<string>, n: nat)
    requires n < |names|
    ensures NamesOk(rows, dirs, names[..n + 1]) <==> NamesOk(rows, dirs, names[..n]) && NameOk(rows, dirs, names[n])
    ensures NamesOk(rows, dirs, names) ==> NameOk(rows, dirs, names[n])
    ensures NamesOk(rows, dirs, names[..n + 1]) ==>
              NamesTargets(rows, dirs, names[..n + 1]) ==
              NamesTargets(rows, dirs, names[..n]) + TargetsOf(rows, Candidates(dirs, names[n]))
  {
    var m := names[..n + 1];
    assert m[..n] == names[..n] && m[n] == names[n];
    if NamesOk(rows, dirs, m) {
      assert NameOk(rows, dirs, m[n]);
      forall i | 0 <= i < n ensures NameOk(rows, dirs, names[..n][i]) { assert NameOk(rows, dirs, m[i]); }
    }
    if NamesOk(rows, dirs, names[..n]) && NameOk(rows, dirs, names[n]) {
      forall i | 0 <= i < |m| ensures NameOk(rows, dirs, m[i]) {
        if i < n { assert NameOk(rows, dirs, names[..n][i]); }
      }
    }
  }

  /** The body of the outer loop: the targets of one file. */
  method FileNode(rows: Rows, path: string, facts: ElfFacts) returns (ok: bool, targets: set<string>)
    ensures ok <==> FileOk(rows, path, facts)
    ensures ok ==> targets == FileTargets(rows, path, facts)
  {
    ok, targets := true, {};
    var dirs := Dirs(rows, path, facts);
    if dirs.None? { return false, {}; }
    assert NamesOk(rows, dirs.value, facts.needed[..0]);
    for n := 0 to |facts.needed|
      invariant ok && NamesOk(rows, dirs.value, facts.needed[..n])
      invariant targets == NamesTargets(rows, dirs.value, facts.needed[..n])
    {
      var found;
      ok, found := ScanNeeded(rows, dirs.value, facts.needed[n]);
      NamesPrefix(rows, dirs.value, facts.needed, n);
      if !ok { return; }
      targets := targets + found;
    }
    assert facts.needed[..|facts.needed|] == facts.needed;
    if facts.interpreted {
      var canonical := AliasTarget(rows, LOADER_PATH);
      if canonical.None? || rows[canonical.value].kind != Elf { return false, targets; }
      targets := targets + {canonical.value};
    }
  }

  type Graph = map<string, set<string>>

  /** Where a loader looks: the fixed directories, and whatever the search path of the
      file, old or new, expands to. */
  ghost predicate Searched(rows: Rows, p: string, facts: ElfFacts, dir: string) {
    dir in SEARCH || exists value :: (value in facts.rpath || value in facts.runpath) && Expand(rows, p, value) == Some(dir)
  }

  /** A row that may be taken for a needed name. */
  ghost predicate Offered(rows: Rows, p: string, facts: ElfFacts, name: string, c: string) {
    c in rows && exists dir :: Searched(rows, p, facts, dir) && Tried(dir, name, c)
  }

  /** What the loader may choose for file p. */
  ghost predicate Choice(rows: Rows, elf: map<string, ElfFacts>, p: string, q: string) {
    && p in elf
    && ((elf[p].interpreted && Resolve(rows, LOADER_PATH, {}) == Some(q)) ||
        exists name, c :: name in elf[p].needed && Offered(rows, p, elf[p], name, c) && Resolve(rows, c, {}) == Some(q))
  }

  lemma DirsMean(rows: Rows, p: string, facts: ElfFacts)
    ensures Dirs(rows, p, facts).Some? <==> forall v :: v in facts.rpath || v in facts.runpath ==> Expand(rows, p, v).Some?
    ensures Dirs(rows, p, facts).Some? ==> forall dir :: dir in Dirs(rows, p, facts).value <==> Searched(rows, p, facts, dir)
  {
    ExpandAllMeans(rows, p, facts.rpath + facts.runpath);
    assert forall v :: v in facts.rpath + facts.runpath <==> v in facts.rpath || v in facts.runpath;
  }

  lemma OfferedMeans(rows: Rows, p: string, facts: ElfFacts, name: string, c: string)
    requires Dirs(rows, p, facts).Some?
    ensures c in rows && c in Candidates(Dirs(rows, p, facts).value, name) <==> Offered(rows, p, facts, name, c)
  {
    DirsMean(rows, p, facts);
    CandidatesMean(Dirs(rows, p, facts).value, name, c);
  }

  /** Every search path leads to a directory of the catalog, every needed name is offered,
      and whatever is offered leads to code. */
  ghost predicate Resolves(rows: Rows, p: string, facts: ElfFacts) {
    && (forall v :: v in facts.rpath || v in facts.runpath ==> Expand(rows, p, v).Some?)
    && (forall name :: name in facts.needed ==> exists c :: Offered(rows, p, facts, name, c))
    && (forall name, c :: name in facts.needed && Offered(rows, p, facts, name, c) ==> LeadsToCode(rows, c))
    && (facts.interpreted ==> LeadsToCode(rows, LOADER_PATH))
  }

  lemma NameOkMeans(rows: Rows, p: string, facts: ElfFacts, name: string)
    requires Dirs(rows, p, facts).Some?
    ensures NameOk(rows, Dirs(rows, p, facts).value, name) <==>
            && (exists c :: Offered(rows, p, facts, name, c))
            && (forall c :: Offered(rows, p, facts, name, c) ==> LeadsToCode(rows, c))
  {
    var cs := Candidates(Dirs(rows, p, facts).value, name);
    forall c ensures c in rows && c in cs <==> Offered(rows, p, facts, name, c) { OfferedMeans(rows, p, facts, name, c); }
    if SomePresent(rows, cs) {
      var i :| 0 <= i < |cs| && cs[i] in rows;
      assert Offered(rows, p, facts, name, cs[i]);
    }
    if c :| Offered(rows, p, facts, name, c) {
      var i :| 0 <= i < |cs| && cs[i] == c;
    }
    if CandidatesOk(rows, cs) {
      forall c | Offered(rows, p, facts, name, c) ensures LeadsToCode(rows, c) {
        var i :| 0 <= i < |cs| && cs[i] == c;
      }
    }
    if forall c :: Offered(rows, p, facts, name, c) ==> LeadsToCode(rows, c) {
      forall i | 0 <= i < |cs| && cs[i] in rows ensures LeadsToCode(rows, cs[i]) { assert Offered(rows, p, facts, name, cs[i]); }
    }
  }

  /** What a file must meet, without the lists the check builds. */
  lemma FileOkMeans(rows: Rows, p: string, facts: ElfFacts)
    ensures FileOk(rows, p, facts) <==> Resolves(rows, p, facts)
  {
    DirsMean(rows, p, facts);
    if Dirs(rows, p, facts).Some? {
      var dirs := Dirs(rows, p, facts).value;
      forall name ensures NameOk(rows, dirs, name) <==>
                          && (exists c :: Offered(rows, p, facts, name, c))
                          && (forall c :: Offered(rows, p, facts, name, c) ==> LeadsToCode(rows, c))
      {
        NameOkMeans(rows, p, facts, name);
      }
      if NamesOk(rows, dirs, facts.needed) {
        forall name | name in facts.needed ensures NameOk(rows, dirs, name) {
          var i :| 0 <= i < |facts.needed| && facts.needed[i] == name;
          assert NameOk(rows, dirs, facts.needed[i]);
        }
      }
      if Resolves(rows, p, facts) {
        forall i | 0 <= i < |facts.needed| ensures NameOk(rows, dirs, facts.needed[i]) { assert facts.needed[i] in facts.needed; }
      }
    }
  }

  lemma TargetHeld(rows: Rows, cs: seq<string>, c: string)
    requires CandidatesOk(rows, cs) && c in cs && c in rows
    ensures Resolve(rows, c, {}).Some? && Resolve(rows, c, {}).value in TargetsOf(rows, cs)
  {
    var i :| 0 <= i < |cs| && cs[i] == c;
    assert LeadsToCode(rows, cs[i]);
  }

  lemma NamesTargetsHold(rows: Rows, dirs: seq<string>, names: seq<string>, name: string, c: string)
    requires NamesOk(rows, dirs, names) && name in names && c in Candidates(dirs, name) && c in rows
    ensures Resolve(rows, c, {}).Some? && Resolve(rows, c, {}).value in NamesTargets(rows, dirs, names)
  {
    var n :| 0 <= n < |names| && names[n] == name;
    NamesPrefix(rows, dirs, names, n);
    TargetHeld(rows, Candidates(dirs, name), c);
    NameTargetsIn(rows, dirs, names, n);
  }

  lemma {:induction false} NameTargetsIn(rows: Rows, dirs: seq<string>, names: seq<string>, n: nat)
    requires NamesOk(rows, dirs, names) && n < |names| && NameOk(rows, dirs, names[n])
    ensures TargetsOf(rows, Candidates(dirs, names[n])) <= NamesTargets(rows, dirs, names)
  {
    var last := |names| - 1;
    NamesPrefix(rows, dirs, names, last);
    assert names[..last + 1] == names;
    if n < last {
      assert names[..last][n] == names[n];
      NameTargetsIn(rows, dirs, names[..last], n);
    }
  }

  lemma {:induction false} NamesTargetsAreCode(rows: Rows, dirs: seq<string>, names: seq<string>, q: string)
    requires NamesOk(rows, dirs, names) && q in NamesTargets(rows, dirs, names)
    ensures q in rows && rows[q].kind == Elf
  {
    var n := |names| - 1;
    NamesPrefix(rows, dirs, names, n);
    assert names[..n + 1] == names;
    if q in NamesTargets(rows, dirs, names[..n]) { NamesTargetsAreCode(rows, dirs, names[..n], q); }
  }

  lemma {:induction false} NamesTargetsCome(rows: Rows, dirs: seq<string>, names: seq<string>, q: string)
    requires NamesOk(rows, dirs, names) && q in NamesTargets(rows, dirs, names)
    ensures exists name, c :: name in names && c in Candidates(dirs, name) && c in rows && Resolve(rows, c, {}) == Some(q)
  {
    var n := |names| - 1;
    NamesPrefix(rows, dirs, names, n);
    assert names[..n + 1] == names;
    if q in NamesTargets(rows, dirs, names[..n]) {
      NamesTargetsCome(rows, dirs, names[..n], q);
    } else {
      var cs := Candidates(dirs, names[n]);
      var i :| 0 <= i < |cs| && cs[i] in rows && Resolve(rows, cs[i], {}).value == q;
      assert LeadsToCode(rows, cs[i]);
      assert names[n] in names && cs[i] in cs && Resolve(rows, cs[i], {}) == Some(q);
    }
  }

  /** The targets of a file are exactly the choices of the loader. */
  lemma ChoiceIsTarget(rows: Rows, elf: map<string, ElfFacts>, p: string, q: string)
    requires p in elf && FileOk(rows, p, elf[p])
    ensures Choice(rows, elf, p, q) <==> q in FileTargets(rows, p, elf[p])
  {
    var facts, dirs := elf[p], Dirs(rows, p, elf[p]).value;
    if Choice(rows, elf, p, q) && !(facts.interpreted && Resolve(rows, LOADER_PATH, {}) == Some(q)) {
      var name, c :| name in facts.needed && Offered(rows, p, facts, name, c) && Resolve(rows, c, {}) == Some(q);
      OfferedMeans(rows, p, facts, name, c);
      NamesTargetsHold(rows, dirs, facts.needed, name, c);
    }
    if q in NamesTargets(rows, dirs, facts.needed) {
      NamesTargetsCome(rows, dirs, facts.needed, q);
      var name, c :| name in facts.needed && c in Candidates(dirs, name) && c in rows && Resolve(rows, c, {}) == Some(q);
      OfferedMeans(rows, p, facts, name, c);
    }
  }

  // ---- validation ----------------------------------------------------------

  /** `new Map(entries)`: a later row replaces an earlier one of the same path. */
  function RowsOf(entries: seq<Entry>): (m: Rows) {
    if entries == [] then map[]
    else RowsOf(entries[..|entries| - 1])[entries[|entries| - 1].path := entries[|entries| - 1]]
  }

  /** An alias leads to a row of the kind its name announces. */
  predicate AliasOk(rows: Rows, e: Entry) {
    && !Archive(e.path)
    && (e.kind == Alias ==>
          && Resolve(rows, e.path, {}).Some?
          && (EndsWith(e.path, ".py") ==> rows[Resolve(rows, e.path, {}).value].kind == Source)
          && (LibraryName(e.path) ==> rows[Resolve(rows, e.path, {}).value].kind == Elf))
  }

  predicate AliasesOk(rows: Rows, entries: seq<Entry>) {
    forall i :: 0 <= i < |entries| ==> AliasOk(rows, entries[i])
  }

  /** With the OpenSSL backend the provider directory holds code only. */
  predicate ProvidersOk(rows: Rows, entries: seq<Entry>, backend: Backend) {
    backend == OpenSsl3 ==>
      && PROVIDERS in rows && rows[PROVIDERS].kind == Directory
      && forall i :: 0 <= i < |entries| && Under(entries[i].path, PROVIDERS) && entries[i].kind != Directory ==>
           entries[i].kind == Elf || entries[i].kind == Alias
  }

  ghost predicate FilesOk(rows: Rows, elf: map<string, ElfFacts>) {
    forall p {:trigger FileOk(rows, p, elf[p])} :: p in elf ==> FileOk(rows, p, elf[p])
  }

  method CheckAlias(rows: Rows, e: Entry) returns (ok: bool)
    ensures ok <==> AliasOk(rows, e)
  {
    if Archive(e.path) { return false; }
    if e.kind != Alias { return true; }
    var canonical := AliasTarget(rows, e.path);
    if canonical.None? { return false; }
    var kind := rows[canonical.value].kind;
    ok := (EndsWith(e.path, ".py") ==> kind == Source) && (LibraryName(e.path) ==> kind == Elf);
  }

  /** The graph holds, for each file, exactly its targets. */
  ghost predicate GraphOf(rows: Rows, elf: map<string, ElfFacts>, graph: Graph) {
    && graph.Keys <= elf.Keys
    && forall p {:trigger graph[p]} :: p in graph ==> FileOk(rows, p, elf[p]) && graph[p] == FileTargets(rows, p, elf[p])
  }

  method BuildGraph(rows: Rows, elf: map<string, ElfFacts>) returns (ok: bool, graph: Graph)
    ensures ok <==> FilesOk(rows, elf)
    ensures ok ==> GraphOf(rows, elf, graph) && graph.Keys == elf.Keys
  {
    ok, graph := true, map[];
    var left := elf.Keys;
    while left != {}
      invariant ok && left <= elf.Keys && graph.Keys == elf.Keys - left && GraphOf(rows, elf, graph)
      decreases left
    {
      var p :| p in left;
      var targets;
      ok, targets := FileNode(rows, p, elf[p]);
      if !ok { return; }
      left := left - {p};
      graph := graph[p := targets];
    }
    forall p | p in elf ensures FileOk(rows, p, elf[p]) {
      assert p in graph && graph[p] == graph[p];
    }
  }

  /** `validatePythonEnvelopeLoader` */
  method ValidateLoader(entries: seq<Entry>, elf: map<string, ElfFacts>, backend: Backend) returns (ok: bool, graph: Graph)
    ensures
      var rows := RowsOf(entries);
      ok <==> AliasesOk(rows, entries) && FilesOk(rows, elf) && ProvidersOk(rows, entries, backend)
    ensures ok ==> GraphOf(RowsOf(entries), elf, graph) && graph.Keys == elf.Keys
    ensures ok ==> forall p :: p in elf ==> Resolves(RowsOf(entries), p, elf[p])
    ensures ok ==> forall p, q :: p in graph ==> (q in graph[p] <==> Choice(RowsOf(entries), elf, p, q))
  {
    var rows := RowsOf(entries);
    graph := map[];
    for n := 0 to |entries|
      invariant forall i :: 0 <= i < n ==> AliasOk(rows, entries[i])
    {
      ok := CheckAlias(rows, entries[n]);
      if !ok { return; }
    }
    ok, graph := BuildGraph(rows, elf);
    if !ok { return; }
    forall p | p in elf ensures Resolves(rows, p, elf[p]) { FileOkMeans(rows, p, elf[p]); }
    forall p, q | p in graph ensures q in graph[p] <==> Choice(rows, elf, p, q) { ChoiceIsTarget(rows, elf, p, q); }
    ok := ProvidersOk(rows, entries, backend);
  }

  /** The catalog and the ELF map name the same files. */
  ghost predicate Matches(rows: Rows, elf: map<string, ElfFacts>) {
    forall p :: p in elf <==> p in rows && rows[p].kind == Elf
  }

  lemma {:induction false} RowsIndexed(entries: seq<Entry>)
    requires StrictBy(EntryPath, entries)
    ensures forall e :: e in entries ==> e.path in RowsOf(entries) && RowsOf(entries)[e.path] == e
    ensures forall p :: p in RowsOf(entries) ==> RowsOf(entries)[p] in entries && RowsOf(entries)[p].path == p
  {
    if entries != [] {
      var init, last := entries[..|entries| - 1], entries[|entries| - 1];
      RowsIndexed(init);
      assert entries == init + [last];
      forall e | e in init ensures e.path != last.path {
        var i :| 0 <= i < |init| && init[i] == e;
        assert Less(EntryPath(entries[i]), EntryPath(entries[|entries| - 1]));
        LessIrreflexive(last.path);
      }
    }
  }

  /** Facts for the paths that a census classified as ELF are facts for the ELF
      rows of its catalog. */
  lemma CensusMatches(entries: seq<Entry>, elf: map<string, ElfFacts>)
    requires StrictBy(EntryPath, entries) && elf.Keys == CodePaths(entries)
    ensures Matches(RowsOf(entries), elf)
  {
    RowsIndexed(entries);
    forall p ensures p in elf <==> p in RowsOf(entries) && RowsOf(entries)[p].kind == Elf { InCodePaths(entries, p); }
  }

  /** Every target of the graph is itself a node. */
  lemma GraphClosed(rows: Rows, elf: map<string, ElfFacts>, graph: Graph, p: string, q: string)
    requires Matches(rows, elf) && GraphOf(rows, elf, graph) && graph.Keys == elf.Keys && p in graph && q in graph[p]
    ensures q in graph
  {
    if q in NamesTargets(rows, Dirs(rows, p, elf[p]).value, elf[p].needed) {
      NamesTargetsAreCode(rows, Dirs(rows, p, elf[p]).value, elf[p].needed, q);
    }
  }

  /** A run of the loader: each file is a possible choice for the one before. */
  ghost predicate LoadRun(rows: Rows, elf: map<string, ElfFacts>, run: seq<string>) {
    forall i :: 0 <= i < |run| - 1 ==> Choice(rows, elf, run[i], run[i + 1])
  }

  /** Whatever the loader chooses, however often, stays inside the graph and
      follows its edges. */
  lemma {:induction false} LoadRunStaysInside(rows: Rows, elf: map<string, ElfFacts>, graph: Graph, run: seq<string>)
    requires Matches(rows, elf) && GraphOf(rows, elf, graph) && graph.Keys == elf.Keys
    requires run != [] && run[0] in graph && LoadRun(rows, elf, run)
    ensures forall i :: 0 <= i < |run| ==> run[i] in graph
    ensures forall i :: 0 <= i < |run| - 1 ==> run[i] in graph && run[i + 1] in graph[run[i]]
  {
    if |run| > 1 {
      ChoiceIsTarget(rows, elf, run[0], run[1]);
      GraphClosed(rows, elf, graph, run[0], run[1]);
      LoadRunStaysInside(rows, elf, graph, run[1..]);
      assert forall i :: 1 <= i < |run| ==> run[i] == run[1..][i - 1];
    }
  }
}
