/** The usr-merge of an extracted root: directories are merged in place by
    renaming leaves, and nothing is lost or overwritten. */
module UsrMerge {
  import opened Text

  const MAX_VISITED := 20000
  const MAX_FILE := 32 * 1024 * 1024
  const MAX_BYTES := 512 * 1024 * 1024
  const MAX_NAME := 255
  const MAX_LITERAL := 4096

  type Path = seq<string>

  /** `guarded` stands for owner, group, device, link count and write bits. */
  datatype Node =
    | Dir(mode: nat, guarded: bool)
    | File(content: string, size: nat, guarded: bool)
    | Symlink(literal: string, size: nat, guarded: bool)
    | Special

  type Nodes = map<Path, Node>

  /** Every entry lies in a directory that is itself an entry. */
  ghost predicate TreeShaped(nodes: Nodes) {
    forall p {:trigger Parented(nodes, p)} :: p in nodes ==> Parented(nodes, p)
  }

  predicate Parented(nodes: Nodes, p: Path) {
    p != [] ==> p[..|p| - 1] in nodes && nodes[p[..|p| - 1]].Dir?
  }

  /** Where an entry of `source` belongs under `target`. */
  function Moved(source: Path, target: Path, p: Path): (q: Path)
    requires source <= p
  {
    target + p[|source|..]
  }

  predicate Apart(a: Path, b: Path) {
    !(a <= b) && !(b <= a)
  }

  /** Entries below source whose first name is in `done`. */
  predicate Goes(source: Path, done: set<string>, p: Path) {
    source < p && p[|source|] in done
  }

  /** Places below target that such an entry comes to. */
  predicate Comes(was: Nodes, source: Path, target: Path, done: set<string>, q: Path) {
    target < q && q[|target|] in done && source + q[|target|..] in was
  }

  predicate Stays(was: Nodes, source: Path, done: set<string>, q: Path) {
    q in was && !Goes(source, done, q)
  }

  /** `now` is `was` with the named children of source merged into target. */
  ghost predicate Relocated(was: Nodes, now: Nodes, source: Path, target: Path, done: set<string>) {
    && (forall q :: q in now <==> Stays(was, source, done, q) || Comes(was, source, target, done, q))
    && (forall q :: q in now && Stays(was, source, done, q) ==> now[q] == was[q])
    && (forall q :: q in now && !Stays(was, source, done, q) ==> now[q] == was[source + q[|target|..]])
  }

  /** Where both trees have an entry, both have the same directory. */
  ghost predicate Compatible(was: Nodes, source: Path, target: Path, done: set<string>) {
    forall p :: p in was && Goes(source, done, p) && Moved(source, target, p) in was ==>
      was[p].Dir? && was[Moved(source, target, p)] == was[p]
  }

  /** The complete merge: source is gone, its entries are below target at the
      same relative paths, and every other entry is as it was. */
  ghost predicate Merged(was: Nodes, now: Nodes, source: Path, target: Path) {
    && (forall q :: q in now <==> (q in was && !(source <= q)) || (target < q && source + q[|target|..] in was))
    && (forall q :: q in now && q in was && !(source <= q) ==> now[q] == was[q])
    && (forall q :: q in now && !(q in was && !(source <= q)) ==> now[q] == was[source + q[|target|..]])
  }

  /** No entry of target is overwritten: only equal directories meet. */
  ghost predicate NoOverwrite(was: Nodes, source: Path, target: Path) {
    forall p :: p in was && source < p && Moved(source, target, p) in was ==>
      was[p].Dir? && was[Moved(source, target, p)] == was[p]
  }

  function Leaves(nodes: Nodes, dir: Path): (s: set<Path>) {
    set p | p in nodes && dir <= p && !nodes[p].Dir?
  }

  function LeavesOf(nodes: Nodes, dir: Path, done: set<string>): (s: set<Path>) {
    set p | p in nodes && Goes(dir, done, p) && !nodes[p].Dir?
  }

  function Names(nodes: Nodes, dir: Path): (s: set<string>) {
    set p | p in nodes && dir < p && |p| == |dir| + 1 :: p[|dir|]
  }

  // ---- what can be merged --------------------------------------------------

  /** A name with no slash and no control character. */
  predicate NameFits(name: string) {
    && |name| <= MAX_NAME && name != "." && name != ".."
    && forall i :: 0 <= i < |name| ==> ' ' <= name[i] && name[i] != '/' && name[i] != '\U{7F}'
  }

  predicate LeafFits(n: Node) {
    !n.Dir? && !n.Special? && n.guarded && n.size <= MAX_FILE && (n.Symlink? ==> |n.literal| <= MAX_LITERAL)
  }

  /** An entry below c can go below d: a guarded directory that finds no entry or the same
      directory there, or a leaf in order that finds no entry. */
  ghost predicate Fine(nodes: Nodes, c: Path, d: Path, p: Path)
    requires p in nodes && c <= p
  {
    var q := Moved(c, d, p);
    if nodes[p].Dir? then nodes[p].guarded && (q in nodes ==> nodes[q] == nodes[p])
    else LeafFits(nodes[p]) && q !in nodes
  }

  ghost predicate FineAt(nodes: Nodes, c: Path, d: Path, p: Path) {
    p in nodes && c <= p ==> Fine(nodes, c, d, p) && (p != c ==> NameFits(p[|p| - 1]))
  }

  ghost predicate AllFine(nodes: Nodes, c: Path, d: Path) {
    forall p {:trigger FineAt(nodes, c, d, p)} :: FineAt(nodes, c, d, p)
  }

  ghost predicate FineIn(nodes: Nodes, source: Path, target: Path, done: set<string>, p: Path) {
    p in nodes && Goes(source, done, p) ==> Fine(nodes, source, target, p) && NameFits(p[|p| - 1])
  }

  /** The same for the entries whose first name is in `done`. */
  ghost predicate NamesFine(nodes: Nodes, source: Path, target: Path, done: set<string>) {
    forall p {:trigger FineIn(nodes, source, target, done, p)} :: FineIn(nodes, source, target, done, p)
  }

  function Dirs(nodes: Nodes, dir: Path): (s: set<Path>) {
    set p | p in nodes && dir <= p && nodes[p].Dir?
  }

  function DirsOf(nodes: Nodes, dir: Path, done: set<string>): (s: set<Path>) {
    set p | p in nodes && Goes(dir, done, p) && nodes[p].Dir?
  }

  /** The visits that merging what stands at or below c takes. */
  function Spent(nodes: Nodes, c: Path): (n: nat) {
    5 * |Dirs(nodes, c)| + 3 * |Leaves(nodes, c)|
  }

  function SpentOf(nodes: Nodes, dir: Path, done: set<string>): (n: nat) {
    5 * |DirsOf(nodes, dir, done)| + 3 * |LeavesOf(nodes, dir, done)|
  }

  function SizeAt(nodes: Nodes, p: Path): (n: nat) {
    if p in nodes && (nodes[p].File? || nodes[p].Symlink?) then nodes[p].size else 0
  }

  ghost function Weight(nodes: Nodes, s: set<Path>): (n: nat) {
    if s == {} then 0
    else
      var p :| p in s;
      SizeAt(nodes, p) + Weight(nodes, s - {p})
  }

  lemma {:induction false} WeightRemove(nodes: Nodes, s: set<Path>, p: Path)
    requires p in s
    ensures Weight(nodes, s) == SizeAt(nodes, p) + Weight(nodes, s - {p})
    decreases |s|
  {
    var x :| x in s && Weight(nodes, s) == SizeAt(nodes, x) + Weight(nodes, s - {x});
    if x != p {
      WeightRemove(nodes, s - {x}, p);
      WeightRemove(nodes, s - {p}, x);
      assert s - {x} - {p} == s - {p} - {x};
    }
  }

  lemma {:induction false} WeightUnion(nodes: Nodes, a: set<Path>, b: set<Path>)
    requires a !! b
    ensures Weight(nodes, a + b) == Weight(nodes, a) + Weight(nodes, b)
    decreases |a|
  {
    if a == {} {
      assert a + b == b;
    } else {
      var p :| p in a;
      WeightRemove(nodes, a, p);
      WeightRemove(nodes, a + b, p);
      assert a + b - {p} == (a - {p}) + b;
      WeightUnion(nodes, a - {p}, b);
    }
  }

  lemma {:induction false} WeightSame(nodes: Nodes, other: Nodes, s: set<Path>)
    requires forall p :: p in s ==> SizeAt(nodes, p) == SizeAt(other, p)
    ensures Weight(nodes, s) == Weight(other, s)
  {
    if s != {} {
      var p :| p in s;
      WeightRemove(nodes, s, p);
      WeightRemove(other, s, p);
      WeightSame(nodes, other, s - {p});
    }
  }

  // ---- tree shape ----------------------------------------------------------

  lemma {:induction false} Ancestor(nodes: Nodes, p: Path, n: nat)
    requires TreeShaped(nodes) && p in nodes && n < |p|
    ensures p[..n] in nodes && nodes[p[..n]].Dir?
    decreases |p|
  {
    var parent := p[..|p| - 1];
    assert Parented(nodes, p);
    if n < |parent| {
      Ancestor(nodes, parent, n);
      assert parent[..n] == p[..n];
    }
  }

  /** Below a directory every entry hangs on one of its names. */
  lemma BelowHasName(nodes: Nodes, dir: Path, p: Path)
    requires TreeShaped(nodes) && p in nodes && dir < p
    ensures p[|dir|] in Names(nodes, dir) && dir + [p[|dir|]] in nodes
  {
    var child := p[..|dir| + 1];
    if |p| > |dir| + 1 { Ancestor(nodes, p, |dir| + 1); } else { assert child == p; }
    assert child == dir + [p[|dir|]];
  }

  /** A leaf, or a missing entry, has nothing below it. */
  lemma NothingBelow(nodes: Nodes, c: Path, p: Path)
    requires TreeShaped(nodes) && p in nodes && c < p
    ensures c in nodes && nodes[c].Dir?
  {
    Ancestor(nodes, p, |c|);
    assert p[..|c|] == c;
  }

  /** A place that is free has nothing below it. */
  lemma NothingUnder(nodes: Nodes, d: Path)
    requires TreeShaped(nodes) && d !in nodes
    ensures forall p :: p in nodes ==> !(d < p)
  {
    forall p | p in nodes ensures !(d < p) {
      if d < p {
        assert p[..|d|] == d;
        Ancestor(nodes, p, |d|);
      }
    }
  }

  lemma NewDirShape(nodes: Nodes, d: Path, entry: Node)
    requires TreeShaped(nodes) && d != [] && d !in nodes && d[..|d| - 1] in nodes && nodes[d[..|d| - 1]].Dir?
    ensures TreeShaped(nodes[d := entry])
  {
    NothingUnder(nodes, d);
    var now := nodes[d := entry];
    forall p | p in now ensures Parented(now, p) {
      assert p in nodes ==> Parented(nodes, p);
      assert p != [] && p[..|p| - 1] == d ==> d < p;
    }
  }

  // ---- one name after another ----------------------------------------------

  /** A name not yet merged is where it was, on both sides. */
  lemma UnmergedName(was: Nodes, cur: Nodes, source: Path, target: Path, done: set<string>, name: string, p: Path)
    requires Relocated(was, cur, source, target, done) && Apart(source, target) && name !in done
    requires source + [name] <= p || target + [name] <= p
    ensures p in cur <==> p in was
    ensures p in cur ==> cur[p] == was[p]
  {
    if source + [name] <= p {
      assert p[|source|] == name;
      assert !(target <= p) by {
        if target <= p { PrefixesComparable(source, target, p); }
      }
    } else {
      assert p[|target|] == name;
      assert !(source <= p) by {
        if source <= p { PrefixesComparable(source, target, p); }
      }
    }
    assert Stays(was, source, done, p) <==> p in was;
    assert !Comes(was, source, target, done, p);
  }

  lemma PrefixesComparable(a: Path, b: Path, x: Path)
    requires a <= x && b <= x
    ensures a <= b || b <= a
  {
    if |a| <= |b| { assert a == x[..|a|] == b[..|a|]; } else { assert b == x[..|b|] == a[..|b|]; }
  }

  /** `now` is `cur` with everything at or below c put at or below d. */
  ghost predicate Shifted(cur: Nodes, now: Nodes, c: Path, d: Path) {
    forall q {:trigger q in now} ::
      && (q in now <==> (q in cur && !(c <= q)) || (d <= q && c + q[|d|..] in cur))
      && (q in now ==> now[q] == if q in cur && !(c <= q) then cur[q] else cur[c + q[|d|..]])
  }

  /** Where both sides of a shift have an entry, both have the same directory. */
  ghost predicate NoClash(cur: Nodes, c: Path, d: Path) {
    forall p {:trigger Moved(c, d, p)} :: p in cur && c <= p && Moved(c, d, p) in cur ==>
      cur[p].Dir? && cur[Moved(c, d, p)] == cur[p]
  }

  lemma ShiftAt(was: Nodes, cur: Nodes, now: Nodes, source: Path, target: Path, done: set<string>, name: string, q: Path)
    requires Relocated(was, cur, source, target, done) && Apart(source, target) && name !in done
    requires Shifted(cur, now, source + [name], target + [name])
    ensures q in now <==> Stays(was, source, done + {name}, q) || Comes(was, source, target, done + {name}, q)
    ensures q in now ==> now[q] == if Stays(was, source, done + {name}, q) then was[q] else was[source + q[|target|..]]
  {
    var c, d := source + [name], target + [name];
    assert q in now <==> (q in cur && !(c <= q)) || (d <= q && c + q[|d|..] in cur);
    if d <= q {
      assert q[|target|] == name && [name] + q[|d|..] == q[|target|..];
      assert source + q[|target|..] == c + q[|d|..];
      UnmergedName(was, cur, source, target, done, name, c + q[|d|..]);
      UnmergedName(was, cur, source, target, done, name, q);
      assert !(c <= q) by { if c <= q { PrefixesComparable(source, target, q); } }
      assert !(source <= q) by { if source <= q { PrefixesComparable(source, target, q); } }
    } else if c <= q {
      assert q[|source|] == name;
      assert !(target <= q) by { if target <= q { PrefixesComparable(source, target, q); } }
    } else {
      assert source < q && q[|source|] == name ==> c <= q;
      assert target < q && q[|target|] == name ==> d <= q;
    }
  }

  /** Shifting one more name extends the merge by that name. */
  lemma Absorb(was: Nodes, cur: Nodes, now: Nodes, source: Path, target: Path, done: set<string>, name: string)
    requires Relocated(was, cur, source, target, done) && Apart(source, target) && name !in done
    requires Shifted(cur, now, source + [name], target + [name])
    ensures Relocated(was, now, source, target, done + {name})
  {
    forall q ensures q in now <==> Stays(was, source, done + {name}, q) || Comes(was, source, target, done + {name}, q) {
      ShiftAt(was, cur, now, source, target, done, name, q);
    }
    forall q | q in now && Stays(was, source, done + {name}, q) ensures now[q] == was[q] {
      ShiftAt(was, cur, now, source, target, done, name, q);
    }
    forall q | q in now && !Stays(was, source, done + {name}, q) ensures now[q] == was[source + q[|target|..]] {
      ShiftAt(was, cur, now, source, target, done, name, q);
    }
  }

  lemma AbsorbCompatible(was: Nodes, cur: Nodes, source: Path, target: Path, done: set<string>, name: string)
    requires Relocated(was, cur, source, target, done) && Apart(source, target) && name !in done
    requires Compatible(was, source, target, done) && NoClash(cur, source + [name], target + [name])
    ensures Compatible(was, source, target, done + {name})
  {
    var c, d := source + [name], target + [name];
    forall p | p in was && Goes(source, done + {name}, p) && Moved(source, target, p) in was
      ensures was[p].Dir? && was[Moved(source, target, p)] == was[p]
    {
      if p[|source|] == name {
        assert c <= p;
        assert p[|source|..] == [name] + p[|c|..];
        assert Moved(source, target, p) == Moved(c, d, p);
        UnmergedName(was, cur, source, target, done, name, p);
        UnmergedName(was, cur, source, target, done, name, Moved(c, d, p));
      } else {
        assert Goes(source, done, p);
      }
    }
  }

  lemma AbsorbLeaves(was: Nodes, cur: Nodes, source: Path, target: Path, done: set<string>, name: string)
    requires Relocated(was, cur, source, target, done) && Apart(source, target) && name !in done
    ensures |LeavesOf(was, source, done + {name})| == |LeavesOf(was, source, done)| + |Leaves(cur, source + [name])|
  {
    var c := source + [name];
    var a, b := LeavesOf(was, source, done), Leaves(cur, c);
    forall p ensures p in LeavesOf(was, source, done + {name}) <==> p in a || p in b {
      if c <= p {
        assert p[|source|] == name;
        UnmergedName(was, cur, source, target, done, name, p);
      } else {
        assert source < p && p[|source|] == name ==> c <= p;
      }
    }
    assert LeavesOf(was, source, done + {name}) == a + b;
    assert a !! b;
  }

  // ---- single renames and directories --------------------------------------

  lemma LeafStandsAlone(cur: Nodes, c: Path)
    requires TreeShaped(cur) && c in cur && !cur[c].Dir?
    ensures forall p :: p in cur && c <= p ==> p == c
  {
    forall p | p in cur && c <= p ensures p == c {
      if c < p { NothingBelow(cur, c, p); }
    }
  }

  lemma RenameAt(cur: Nodes, c: Path, d: Path, q: Path)
    requires Apart(c, d) && c in cur && d !in cur && forall p :: p in cur && c <= p ==> p == c
    ensures
      var now := (cur - {c})[d := cur[c]];
      && (q in now <==> (q in cur && !(c <= q)) || (d <= q && c + q[|d|..] in cur))
      && (q in now ==> now[q] == if q in cur && !(c <= q) then cur[q] else cur[c + q[|d|..]])
  {
    if d <= q {
      var from := c + q[|d|..];
      assert c <= from;
      assert from in cur ==> from == c;
      assert from == c <==> q == d;
      assert !(c <= q) by { if c <= q { PrefixesComparable(c, d, q); } }
    }
  }

  lemma RenameShifts(cur: Nodes, c: Path, d: Path)
    requires TreeShaped(cur) && Apart(c, d) && c in cur && !cur[c].Dir? && d !in cur
    ensures Shifted(cur, (cur - {c})[d := cur[c]], c, d) && NoClash(cur, c, d) && Leaves(cur, c) == {c}
  {
    LeafStandsAlone(cur, c);
    forall q ensures
      var now := (cur - {c})[d := cur[c]];
      && (q in now <==> (q in cur && !(c <= q)) || (d <= q && c + q[|d|..] in cur))
      && (q in now ==> now[q] == if q in cur && !(c <= q) then cur[q] else cur[c + q[|d|..]])
    {
      RenameAt(cur, c, d, q);
    }
    assert Moved(c, d, c) == d;
  }

  /** A merged child directory is a shift of that directory. */
  lemma MergeShifts(cur: Nodes, now: Nodes, c: Path, d: Path)
    requires Apart(c, d) && c in cur && cur[c].Dir? && (d in cur ==> cur[d] == cur[c])
    requires Merged(cur[d := cur[c]], now, c, d) && NoOverwrite(cur[d := cur[c]], c, d)
    ensures Shifted(cur, now, c, d) && NoClash(cur, c, d) && Leaves(cur[d := cur[c]], c) == Leaves(cur, c)
  {
    var mid := cur[d := cur[c]];
    forall q ensures
      && (q in now <==> (q in cur && !(c <= q)) || (d <= q && c + q[|d|..] in cur))
      && (q in now ==> now[q] == if q in cur && !(c <= q) then cur[q] else cur[c + q[|d|..]])
    {
      assert q in now <==> (q in mid && !(c <= q)) || (d < q && c + q[|d|..] in mid);
      if q == d {
        assert c + q[|d|..] == c;
      } else if d < q {
        assert c <= c + q[|d|..] && c + q[|d|..] != d;
      }
    }
    forall p | p in cur && c <= p && Moved(c, d, p) in cur ensures cur[p].Dir? && cur[Moved(c, d, p)] == cur[p] {
      if p == c { assert Moved(c, d, p) == d; } else { assert p != d && Moved(c, d, p) != d; }
    }
  }

  /** Everything below source hangs on one of the names. */
  ghost predicate Covers(was: Nodes, source: Path, names: set<string>) {
    forall p :: p in was && source < p ==> p[|source|] in names
  }

  lemma NamesCover(was: Nodes, source: Path)
    requires TreeShaped(was)
    ensures Covers(was, source, Names(was, source))
  {
    forall p | p in was && source < p ensures p[|source|] in Names(was, source) { BelowHasName(was, source, p); }
  }

  lemma CoveredLeaves(was: Nodes, source: Path, names: set<string>)
    requires Covers(was, source, names) && source in was && was[source].Dir?
    ensures LeavesOf(was, source, names) == Leaves(was, source)
  {
    forall p ensures p in LeavesOf(was, source, names) <==> p in Leaves(was, source) {
      assert source <= p && p != source ==> source < p;
    }
  }

  lemma CompleteAt(was: Nodes, cur: Nodes, source: Path, target: Path, names: set<string>, q: Path)
    requires Covers(was, source, names) && Apart(source, target) && Relocated(was, cur, source, target, names)
    ensures q in cur - {source} <==> (q in was && !(source <= q)) || (target < q && source + q[|target|..] in was)
    ensures q in cur - {source} ==> cur[q] == if q in was && !(source <= q) then was[q] else was[source + q[|target|..]]
    ensures q in cur ==> !(source < q)
  {
    if target <= q {
      assert !(source <= q) by { if source <= q { PrefixesComparable(source, target, q); } }
    }
    if target < q {
      var from := source + q[|target|..];
      assert source < from && from[|source|] == q[|target|];
    }
    assert source <= q ==> q == source || source < q;
  }

  /** With all names merged, removing the empty source completes the merge. */
  lemma Complete(was: Nodes, cur: Nodes, source: Path, target: Path, names: set<string>)
    requires Covers(was, source, names) && TreeShaped(cur) && Apart(source, target)
    requires Relocated(was, cur, source, target, names) && Compatible(was, source, target, names)
    ensures Merged(was, cur - {source}, source, target) && NoOverwrite(was, source, target) && TreeShaped(cur - {source})
  {
    var now := cur - {source};
    forall q ensures q in now <==> (q in was && !(source <= q)) || (target < q && source + q[|target|..] in was) {
      CompleteAt(was, cur, source, target, names, q);
    }
    forall q | q in now ensures now[q] == if q in was && !(source <= q) then was[q] else was[source + q[|target|..]] {
      CompleteAt(was, cur, source, target, names, q);
    }
    forall p | p in was && source < p ensures Goes(source, names, p) {}
    forall q | q in now && q != [] ensures Parented(now, q) {
      assert Parented(cur, q);
      CompleteAt(was, cur, source, target, names, q);
      assert q[..|q| - 1] == source ==> source < q;
    }
  }

  // ---- when a merge succeeds -----------------------------------------------

  /** What stands at or below a name not yet merged is as it was. */
  lemma NameAsBefore(was: Nodes, cur: Nodes, source: Path, target: Path, done: set<string>, name: string)
    requires Relocated(was, cur, source, target, done) && Apart(source, target) && name !in done
    ensures var c, d := source + [name], target + [name];
            && AllFine(cur, c, d) == AllFine(was, c, d) && Dirs(cur, c) == Dirs(was, c) && Leaves(cur, c) == Leaves(was, c)
            && Weight(cur, Leaves(cur, c)) == Weight(was, Leaves(was, c))
  {
    var c, d := source + [name], target + [name];
    forall p | c <= p ensures FineAt(cur, c, d, p) == FineAt(was, c, d, p) {
      UnmergedName(was, cur, source, target, done, name, p);
      UnmergedName(was, cur, source, target, done, name, Moved(c, d, p));
    }
    forall p ensures FineAt(cur, c, d, p) == FineAt(was, c, d, p) {}
    forall p ensures p in Dirs(cur, c) <==> p in Dirs(was, c) {
      if c <= p { UnmergedName(was, cur, source, target, done, name, p); }
    }
    forall p ensures p in Leaves(cur, c) <==> p in Leaves(was, c) {
      if c <= p { UnmergedName(was, cur, source, target, done, name, p); }
    }
    forall p | p in Leaves(was, c) ensures SizeAt(cur, p) == SizeAt(was, p) {
      UnmergedName(was, cur, source, target, done, name, p);
    }
    WeightSame(was, cur, Leaves(was, c));
  }

  lemma BelowName(source: Path, target: Path, name: string, p: Path)
    ensures source + [name] <= p <==> source < p && p[|source|] == name
    ensures source + [name] <= p ==> Moved(source + [name], target + [name], p) == Moved(source, target, p)
  {
    var c := source + [name];
    if source < p && p[|source|] == name { assert p[..|c|] == c; }
    if c <= p { assert p[|source|..] == [name] + p[|c|..]; }
  }

  lemma FineName(was: Nodes, source: Path, target: Path, done: set<string>, name: string)
    requires TreeShaped(was) && source + [name] in was
    ensures NamesFine(was, source, target, done + {name}) <==>
            NamesFine(was, source, target, done) && NameFits(name) && AllFine(was, source + [name], target + [name])
  {
    var c, d := source + [name], target + [name];
    forall p ensures Goes(source, done + {name}, p) <==> Goes(source, done, p) || c <= p { BelowName(source, target, name, p); }
    if NamesFine(was, source, target, done + {name}) {
      forall p ensures FineIn(was, source, target, done, p) { assert FineIn(was, source, target, done + {name}, p); }
      assert FineIn(was, source, target, done + {name}, c);
      forall p ensures FineAt(was, c, d, p) {
        BelowName(source, target, name, p);
        assert FineIn(was, source, target, done + {name}, p);
      }
    }
    if NamesFine(was, source, target, done) && NameFits(name) && AllFine(was, c, d) {
      forall p ensures FineIn(was, source, target, done + {name}, p) {
        BelowName(source, target, name, p);
        assert FineIn(was, source, target, done, p) && FineAt(was, c, d, p);
      }
    }
  }

  lemma CountName(was: Nodes, source: Path, done: set<string>, name: string)
    requires name !in done
    ensures SpentOf(was, source, done + {name}) == SpentOf(was, source, done) + Spent(was, source + [name])
    ensures Weight(was, LeavesOf(was, source, done + {name})) ==
            Weight(was, LeavesOf(was, source, done)) + Weight(was, Leaves(was, source + [name]))
  {
    var c := source + [name];
    forall p ensures Goes(source, done + {name}, p) <==> Goes(source, done, p) || c <= p { BelowName(source, source, name, p); }
    forall p ensures !(Goes(source, done, p) && c <= p) { BelowName(source, source, name, p); }
    var a, b := DirsOf(was, source, done), Dirs(was, c);
    assert DirsOf(was, source, done + {name}) == a + b && a !! b;
    var x, y := LeavesOf(was, source, done), Leaves(was, c);
    assert LeavesOf(was, source, done + {name}) == x + y && x !! y;
    WeightUnion(was, x, y);
  }

  lemma MoreNames(was: Nodes, source: Path, target: Path, some: set<string>, all: set<string>)
    requires some <= all
    ensures NamesFine(was, source, target, all) ==> NamesFine(was, source, target, some)
    ensures SpentOf(was, source, some) <= SpentOf(was, source, all)
    ensures Weight(was, LeavesOf(was, source, some)) <= Weight(was, LeavesOf(was, source, all))
  {
    if NamesFine(was, source, target, all) {
      forall p ensures FineIn(was, source, target, some, p) { assert FineIn(was, source, target, all, p); }
    }
    assert SpentOf(was, source, some) <= SpentOf(was, source, all) by {
      Smaller(DirsOf(was, source, some), DirsOf(was, source, all));
      Smaller(LeavesOf(was, source, some), LeavesOf(was, source, all));
    }
    Lighter(was, LeavesOf(was, source, some), LeavesOf(was, source, all));
  }

  lemma Smaller(a: set<Path>, b: set<Path>)
    requires a <= b
    ensures |a| <= |b|
  {
    assert b == a + (b - a);
  }

  lemma Lighter(nodes: Nodes, a: set<Path>, b: set<Path>)
    requires a <= b
    ensures Weight(nodes, a) <= Weight(nodes, b)
  {
    assert b == a + (b - a);
    WeightUnion(nodes, a, b - a);
  }

  /** All names together with the directory itself. */
  lemma WholeFine(was: Nodes, source: Path, target: Path, names: set<string>)
    requires Covers(was, source, names) && source in was && was[source].Dir? && target in was
    ensures AllFine(was, source, target) <==>
            was[source].guarded && was[target] == was[source] && NamesFine(was, source, target, names)
    ensures Spent(was, source) == SpentOf(was, source, names) + 5
  {
    assert Moved(source, target, source) == target;
    if AllFine(was, source, target) {
      assert FineAt(was, source, target, source);
      forall p ensures FineIn(was, source, target, names, p) { assert FineAt(was, source, target, p); }
    }
    if was[source].guarded && was[target] == was[source] && NamesFine(was, source, target, names) {
      forall p ensures FineAt(was, source, target, p) {
        assert source <= p && p != source ==> source < p;
        assert FineIn(was, source, target, names, p);
      }
    }
    CoveredLeaves(was, source, names);
    forall p ensures p in Dirs(was, source) <==> p in DirsOf(was, source, names) + {source} {
      assert source <= p && p != source ==> source < p;
    }
    assert Dirs(was, source) == DirsOf(was, source, names) + {source};
  }

  /** A directory made for c at the free place d changes nothing about c. */
  lemma MadeFine(cur: Nodes, c: Path, d: Path)
    requires TreeShaped(cur) && Apart(c, d) && c in cur && cur[c].Dir? && cur[c].guarded && d !in cur
    ensures var mid := cur[d := cur[c]];
            && AllFine(mid, c, d) == AllFine(cur, c, d) && Dirs(mid, c) == Dirs(cur, c) && Leaves(mid, c) == Leaves(cur, c)
            && Weight(mid, Leaves(mid, c)) == Weight(cur, Leaves(cur, c))
  {
    var mid := cur[d := cur[c]];
    forall p ensures FineAt(mid, c, d, p) == FineAt(cur, c, d, p) {
      if c <= p {
        assert p != d && (Moved(c, d, p) == d <==> p == c);
      }
    }
    WeightSame(mid, cur, Leaves(cur, c));
    assert Leaves(mid, c) == Leaves(cur, c);
  }

  lemma LeafFine(cur: Nodes, c: Path, d: Path)
    requires TreeShaped(cur) && c in cur && !cur[c].Dir?
    ensures AllFine(cur, c, d) <==> LeafFits(cur[c]) && d !in cur
    ensures Spent(cur, c) == 3 && (!cur[c].Special? ==> Weight(cur, Leaves(cur, c)) == cur[c].size)
  {
    LeafStandsAlone(cur, c);
    assert Moved(c, d, c) == d;
    if AllFine(cur, c, d) { assert FineAt(cur, c, d, c); }
    assert Dirs(cur, c) == {} && Leaves(cur, c) == {c};
    WeightRemove(cur, {c}, c);
  }

  lemma SomethingSpent(cur: Nodes, c: Path)
    requires c in cur
    ensures Spent(cur, c) >= 3
  {
    assert c in Dirs(cur, c) || c in Leaves(cur, c);
  }

  /** What merging the directory source asks for at least. */
  lemma MergeNeeds(nodes: Nodes, source: Path, target: Path)
    requires TreeShaped(nodes) && source in nodes && nodes[source].Dir? && target in nodes
    ensures Spent(nodes, source) >= 5
    ensures AllFine(nodes, source, target) ==> nodes[source].guarded && nodes[target] == nodes[source]
  {
    NamesCover(nodes, source);
    WholeFine(nodes, source, target, Names(nodes, source));
  }

  lemma AllNames(nodes: Nodes, source: Path, target: Path, names: seq<string>)
    requires TreeShaped(nodes) && source in nodes && nodes[source].Dir? && nodes[source].guarded && target in nodes
    requires nodes[target] == nodes[source] && forall x :: x in names <==> x in Names(nodes, source)
    ensures AllFine(nodes, source, target) <==> NamesFine(nodes, source, target, Taken(names, |names|))
    ensures Spent(nodes, source) == SpentOf(nodes, source, Taken(names, |names|)) + 5
    ensures LeavesOf(nodes, source, Taken(names, |names|)) == Leaves(nodes, source)
  {
    assert Taken(names, |names|) == Names(nodes, source) by { assert names[..|names|] == names; }
    NamesCover(nodes, source);
    CoveredLeaves(nodes, source, Names(nodes, source));
    WholeFine(nodes, source, target, Names(nodes, source));
  }

  /** What the next name adds to the conditions and the costs. */
  lemma NameDecides(was: Nodes, cur: Nodes, source: Path, target: Path, names: seq<string>, n: nat)
    requires TreeShaped(was) && n < |names| && names[n] !in Taken(names, n) && Taken(names, n + 1) == Taken(names, n) + {names[n]}
    requires Relocated(was, cur, source, target, Taken(names, n)) && Apart(source, target) && source + [names[n]] in cur
    ensures var c, d, now, next, all := source + [names[n]], target + [names[n]], Taken(names, n), Taken(names, n + 1), Taken(names, |names|);
            && (NamesFine(was, source, target, next) <==>
                NamesFine(was, source, target, now) && NameFits(names[n]) && AllFine(cur, c, d))
            && SpentOf(was, source, next) == SpentOf(was, source, now) + Spent(cur, c)
            && Weight(was, LeavesOf(was, source, next)) == Weight(was, LeavesOf(was, source, now)) + Weight(cur, Leaves(cur, c))
            && (NamesFine(was, source, target, all) ==> NamesFine(was, source, target, next))
            && SpentOf(was, source, next) <= SpentOf(was, source, all)
            && Weight(was, LeavesOf(was, source, next)) <= Weight(was, LeavesOf(was, source, all))
  {
    NameAsBefore(was, cur, source, target, Taken(names, n), names[n]);
    UnmergedName(was, cur, source, target, Taken(names, n), names[n], source + [names[n]]);
    FineName(was, source, target, Taken(names, n), names[n]);
    CountName(was, source, Taken(names, n), names[n]);
    assert Taken(names, n + 1) <= Taken(names, |names|);
    MoreNames(was, source, target, Taken(names, n + 1), Taken(names, |names|));
  }

  class Merger {
    /** How many of the checks come before the deadline. */
    const inTime: nat
    var nodes: Nodes
    var visited: nat
    var moved: nat
    var bytes: nat

    function Limit(): (n: nat) {
      if inTime <= MAX_VISITED then inTime else MAX_VISITED
    }

    /** The visit and time bound. */
    method Bound() returns (ok: bool)
      modifies this`visited
      ensures visited == old(visited) + 1 && (ok <==> visited <= Limit())
    {
      visited := visited + 1;
      ok := visited <= MAX_VISITED && visited <= inTime;
    }

    /** `protectedDirectory` */
    method Protected(dir: Path) returns (ok: bool)
      modifies this`visited
      ensures visited == old(visited) + 1
      ensures ok <==> visited <= Limit() && dir in nodes && nodes[dir].Dir? && nodes[dir].guarded
    {
      ok := Bound();
      ok := ok && dir in nodes && nodes[dir].Dir? && nodes[dir].guarded;
    }

    /** `readdirSync(dir).sort()` */
    method Listing(dir: Path) returns (names: seq<string>)
      ensures Distinct(names) && (forall n :: n in names <==> n in Names(nodes, dir))
      ensures SortedBy(Itself, names)
    {
      var left := Names(nodes, dir);
      var found: seq<string> := [];
      while left != {}
        invariant Distinct(found) && (forall n :: n in found ==> n !in left)
        invariant forall n :: n in Names(nodes, dir) <==> n in found || n in left
        decreases left
      {
        var n :| n in left;
        left := left - {n};
        found := found + [n];
      }
      names := SortBy(Itself, found);
      SortSorted(Itself, found);
      SameElements(names, found);
      DistinctRearranged(found, names);
    }

    /** Moves one leaf that has no counterpart. */
    method Rename(c: Path, d: Path) returns (ok: bool)
      requires TreeShaped(nodes) && Apart(c, d) && c in nodes && !nodes[c].Dir?
      modifies this`nodes, this`visited, this`moved, this`bytes
      ensures visited >= old(visited)
      ensures ok <==> && LeafFits(old(nodes)[c]) && d !in old(nodes) && old(visited) + 2 <= Limit()
                      && old(bytes) + old(nodes)[c].size <= MAX_BYTES
      ensures ok ==> nodes == (old(nodes) - {c})[d := old(nodes)[c]] && moved == old(moved) + 1
      ensures ok ==> visited == old(visited) + 2 && bytes == old(bytes) + old(nodes)[c].size
    {
      if d in nodes || nodes[c].Special? || !nodes[c].guarded || nodes[c].size > MAX_FILE { return false; }
      bytes := bytes + nodes[c].size;
      if bytes > MAX_BYTES { return false; }
      if nodes[c].Symlink? && |nodes[c].literal| > MAX_LITERAL { return false; }
      ok := Bound();
      if !ok { return; }
      nodes := (nodes - {c})[d := nodes[c]];
      moved := moved + 1;
      ok := Bound();
    }

    /** Merging what stands at or below c keeps to both limits. */
    ghost predicate Affords(cost: int, weight: nat)
      reads this
    {
      visited + cost <= Limit() && bytes + weight <= MAX_BYTES
    }

    /** A directory of source meets its counterpart, or gets one. */
    method MergeDirectory(c: Path, d: Path) returns (ok: bool)
      requires TreeShaped(nodes) && Apart(c, d) && c in nodes && nodes[c].Dir? && d != [] && bytes <= MAX_BYTES
      requires d[..|d| - 1] in nodes && nodes[d[..|d| - 1]].Dir?
      modifies this
      ensures visited > old(visited)
      ensures ok ==> TreeShaped(nodes) && Shifted(old(nodes), nodes, c, d) && NoClash(old(nodes), c, d)
      ensures ok ==> moved == old(moved) + |Leaves(old(nodes), c)|
      ensures ok <==> AllFine(old(nodes), c, d) && old(Affords(Spent(nodes, c) - 1, Weight(nodes, Leaves(nodes, c))))
      ensures ok ==> visited == old(visited) + Spent(old(nodes), c) - 1
      ensures ok ==> bytes == old(bytes) + Weight(old(nodes), Leaves(old(nodes), c))
      decreases MAX_VISITED - visited, 0
    {
      assert c in Dirs(nodes, c);
      assert Moved(c, d, c) == d;
      assert FineAt(nodes, c, d, c) ==> nodes[c].guarded && (d in nodes ==> nodes[d] == nodes[c]);
      ok := Protected(c);
      if !ok { return; }
      if d !in nodes {
        NewDirShape(nodes, d, Dir(nodes[c].mode, true));
        MadeFine(nodes, c, d);
        nodes := nodes[d := Dir(nodes[c].mode, true)];
      } else if !nodes[d].Dir? {
        return false;
      }
      ghost var mid := nodes;
      ok := Merge(c, d);
      if ok {
        assert mid == old(nodes)[d := old(nodes)[c]];
        MergeShifts(old(nodes), nodes, c, d);
      }
    }

    /** One entry of source: a leaf is renamed, a directory merged or created. */
    method MergeName(source: Path, target: Path, name: string) returns (ok: bool)
      requires TreeShaped(nodes) && Apart(source, target) && source + [name] in nodes && bytes <= MAX_BYTES
      requires target in nodes && nodes[target].Dir?
      modifies this
      ensures visited > old(visited)
      ensures ok ==> TreeShaped(nodes) && Shifted(old(nodes), nodes, source + [name], target + [name])
      ensures ok ==> NoClash(old(nodes), source + [name], target + [name])
      ensures ok ==> moved == old(moved) + |Leaves(old(nodes), source + [name])|
      ensures ok <==> && NameFits(name) && AllFine(old(nodes), source + [name], target + [name])
                      && old(Affords(Spent(nodes, source + [name]), Weight(nodes, Leaves(nodes, source + [name]))))
      ensures ok ==> visited == old(visited) + Spent(old(nodes), source + [name])
      ensures ok ==> bytes == old(bytes) + Weight(old(nodes), Leaves(old(nodes), source + [name]))
      decreases MAX_VISITED - visited, 0
    {
      var c, d := source + [name], target + [name];
      ApartChildren(source, target, name);
      assert d[..|d| - 1] == target;
      SomethingSpent(nodes, c);
      ok := Bound();
      if !ok || !NameFits(name) { return false; }
      if !nodes[c].Dir? { LeafFine(nodes, c, d); }
      if nodes[c].Dir? {
        ok := MergeDirectory(c, d);
      } else {
        ok := Rename(c, d);
        if ok {
          RenameShape(old(nodes), c, d);
          RenameShifts(old(nodes), c, d);
        }
      }
    }

    /** The loop of `merge` over the sorted names of source. */
    method MergeNames(source: Path, target: Path, names: seq<string>) returns (ok: bool)
      requires TreeShaped(nodes) && Apart(source, target) && target in nodes && nodes[target].Dir?
      requires Distinct(names) && forall x :: x in names <==> x in Names(nodes, source)
      requires visited <= Limit() && bytes <= MAX_BYTES
      modifies this
      ensures visited >= old(visited)
      ensures ok <==> && NamesFine(old(nodes), source, target, Taken(names, |names|))
                      && old(Affords(SpentOf(nodes, source, Taken(names, |names|)), Weight(nodes, LeavesOf(nodes, source, Taken(names, |names|)))))
      ensures ok ==> visited == old(visited) + SpentOf(old(nodes), source, Taken(names, |names|))
      ensures ok ==> bytes == old(bytes) + Weight(old(nodes), LeavesOf(old(nodes), source, Taken(names, |names|)))
      ensures ok ==> TreeShaped(nodes) && Relocated(old(nodes), nodes, source, target, Taken(names, |names|))
      ensures ok ==> Compatible(old(nodes), source, target, Taken(names, |names|))
      ensures ok ==> moved == old(moved) + |LeavesOf(old(nodes), source, Taken(names, |names|))|
      decreases MAX_VISITED - visited, 1
    {
      NothingMovedYet(nodes, source, target, names);
      for n := 0 to |names|
        invariant visited >= old(visited) && TreeShaped(nodes)
        invariant Relocated(old(nodes), nodes, source, target, Taken(names, n))
        invariant Compatible(old(nodes), source, target, Taken(names, n))
        invariant moved == old(moved) + |LeavesOf(old(nodes), source, Taken(names, n))|
        invariant NamesFine(old(nodes), source, target, Taken(names, n))
        invariant visited == old(visited) + SpentOf(old(nodes), source, Taken(names, n)) <= Limit()
        invariant bytes == old(bytes) + Weight(old(nodes), LeavesOf(old(nodes), source, Taken(names, n)))
        invariant bytes <= MAX_BYTES
      {
        ghost var cur := nodes;
        NextName(old(nodes), cur, source, target, names, n);
        NameDecides(old(nodes), cur, source, target, names, n);
        ok := MergeName(source, target, names[n]);
        if !ok { return; }
        AbsorbAll(old(nodes), cur, nodes, source, target, names, n);
      }
      ok := true;
    }

    /** Both directories are guarded and have one mode. */
    method CheckPair(source: Path, target: Path) returns (ok: bool)
      modifies this`visited
      ensures visited > old(visited) && (ok ==> visited == old(visited) + 2)
      ensures ok <==> GuardedDir(nodes, source) && target in nodes && nodes[target] == nodes[source] && old(visited) + 2 <= Limit()
    {
      ok := Protected(source);
      if !ok { return; }
      ok := Protected(target);
      ok := ok && nodes[source].mode == nodes[target].mode;
    }

    /** `merge`: on success source is gone, its leaves are at the same relative
        paths below target, and nothing else changed. */
    method Merge(source: Path, target: Path) returns (ok: bool)
      requires TreeShaped(nodes) && Apart(source, target) && bytes <= MAX_BYTES
      modifies this
      ensures visited > old(visited)
      ensures ok ==> source in old(nodes) && old(nodes)[source].Dir? && target in old(nodes) &&
                     old(nodes)[target] == old(nodes)[source]
      ensures ok ==> TreeShaped(nodes) && Merged(old(nodes), nodes, source, target) && NoOverwrite(old(nodes), source, target)
      ensures ok ==> moved == old(moved) + |Leaves(old(nodes), source)|
      ensures ok <==> && source in old(nodes) && old(nodes)[source].Dir? && target in old(nodes)
                      && AllFine(old(nodes), source, target)
                      && old(Affords(Spent(nodes, source) - 2, Weight(nodes, Leaves(nodes, source))))
      ensures ok ==> visited == old(visited) + Spent(old(nodes), source) - 2
      ensures ok ==> bytes == old(bytes) + Weight(old(nodes), Leaves(old(nodes), source))
      decreases MAX_VISITED - visited, 1
    {
      if source in nodes && nodes[source].Dir? && target in nodes { MergeNeeds(nodes, source, target); }
      ok := CheckPair(source, target);
      if !ok { return; }
      var names := Listing(source);
      AllNames(nodes, source, target, names);
      ok := MergeNames(source, target, names);
      if !ok { return; }
      AllMerged(old(nodes), nodes, source, target, names);
      ok := Protected(source);
      if !ok { return; }
      nodes := nodes - {source};
    }

    /** One alias of `normalizeSignedUsrLayout`: already a link, or merged and
        replaced by one. */
    method Alias(root: Path, name: string) returns (ok: bool)
      requires TreeShaped(nodes) && name != "usr" && bytes <= MAX_BYTES
      modifies this
      ensures ok ==> TreeShaped(nodes) && IsAlias(nodes, root, name)
      ensures ok ==> Realiased(old(nodes), nodes, root + [name], root + ["usr", name])
      ensures ok ==> moved == old(moved) + |LeavesBelow(old(nodes), root + [name])|
      ensures ok <==> AliasFine(old(nodes), root, name) && old(Affords(AliasVisits(nodes, root, name), AliasWeight(nodes, root, name)))
      ensures ok ==> visited == old(visited) + AliasVisits(old(nodes), root, name)
      ensures ok ==> bytes == old(bytes) + AliasWeight(old(nodes), root, name) <= MAX_BYTES
    {
      var source, target := root + [name], root + ["usr", name];
      assert Apart(source, target) by { assert source[|root|] != target[|root|]; }
      if source !in nodes { return false; }
      SomethingSpent(nodes, source);
      if nodes[source].Dir? && target in nodes { MergeNeeds(nodes, source, target); }
      ok := Protected(target);
      if !ok { return; }
      LeavesBelowOf(nodes, source);
      if nodes[source].Symlink? {
        ok := nodes[source].guarded && nodes[source].literal == "usr/" + name;
        return;
      }
      if !nodes[source].Dir? { return false; }
      ok := Merge(source, target);
      if !ok { return; }
      var link := Symlink("usr/" + name, |name| + 4, true);
      LinkReplaces(old(nodes), nodes, source, target, link);
      nodes := nodes[source := link];
    }

    method CheckRoots(root: Path) returns (ok: bool)
      modifies this`visited
      ensures ok <==> RootsFine(nodes, root) && old(visited) + 3 <= Limit()
      ensures ok ==> visited == old(visited) + 3
    {
      ok := Protected(if root == [] then [] else root[..|root| - 1]);
      if !ok { return; }
      ok := Protected(root);
      if !ok { return; }
      ok := Protected(root + ["usr"]);
    }

    /** All aliases, one after the other. */
    method SettleAliases(root: Path, all: nat) returns (ok: bool)
      requires all == |ALIASES| && TreeShaped(nodes) && visited <= Limit() && bytes <= MAX_BYTES
      modifies this
      ensures ok ==> TreeShaped(nodes) && Normalized(old(nodes), nodes, root, all)
      ensures ok ==> moved == old(moved) + |Movers(old(nodes), root, all)|
      ensures ok <==> && AliasesFine(old(nodes), root, all)
                      && old(Affords(VisitsUpTo(nodes, root, all), WeightUpTo(nodes, root, all)))
    {
      NothingNormalizedYet(nodes, root);
      ghost var was := nodes;
      for k := 0 to all
        invariant TreeShaped(nodes) && Normalized(was, nodes, root, k) && Due(was, nodes, root, k)
        invariant moved == old(moved) + |Movers(was, root, k)|
        invariant visited == old(visited) + VisitsUpTo(was, root, k) <= Limit()
        invariant bytes == old(bytes) + WeightUpTo(was, root, k) <= MAX_BYTES
      {
        ghost var cur := nodes;
        AliasesApart(k);
        DueNow(was, cur, root, k, all);
        ok := Alias(root, ALIASES[k]);
        if !ok { return; }
        DueNext(was, cur, nodes, root, k);
        NextAlias(was, cur, nodes, root, k);
      }
      ok := true;
    }

    /** All four aliases: every leaf that was below one of them is below /usr at
        the same relative path, every other leaf is where it was, and there is
        no other leaf but the links. What is counted is the leaves that moved. It
        succeeds exactly if the directories are guarded, each alias is the right
        link or a directory that can be merged, and the limits are kept. */
    method Normalize(root: Path) returns (ok: bool)
      requires TreeShaped(nodes) && bytes <= MAX_BYTES
      modifies this
      ensures ok ==> TreeShaped(nodes) && Normalized(old(nodes), nodes, root, |ALIASES|)
      ensures ok ==> moved == old(moved) + |Movers(old(nodes), root, |ALIASES|)|
      ensures ok <==> && RootsFine(old(nodes), root) && AliasesFine(old(nodes), root, |ALIASES|)
                      && old(Affords(3 + VisitsUpTo(nodes, root, |ALIASES|), WeightUpTo(nodes, root, |ALIASES|)))
    {
      ok := CheckRoots(root);
      if !ok { return; }
      ok := SettleAliases(root, |ALIASES|);
    }
  }

  const ALIASES := ["bin", "sbin", "lib", "lib64"]

  predicate GuardedDir(nodes: Nodes, p: Path) {
    p in nodes && nodes[p].Dir? && nodes[p].guarded
  }

  /** The directories that are looked at before anything else. */
  predicate RootsFine(nodes: Nodes, root: Path) {
    GuardedDir(nodes, if root == [] then [] else root[..|root| - 1]) && GuardedDir(nodes, root) && GuardedDir(nodes, root + ["usr"])
  }

  /** An alias can be settled: its target is a guarded directory, and it is the right link
      or a directory that can be merged. */
  ghost predicate AliasFine(nodes: Nodes, root: Path, name: string) {
    var source, target := root + [name], root + ["usr", name];
    && source in nodes && GuardedDir(nodes, target)
    && if nodes[source].Symlink? then nodes[source].guarded && nodes[source].literal == "usr/" + name
       else nodes[source].Dir? && AllFine(nodes, source, target)
  }

  predicate Linked(nodes: Nodes, root: Path, name: string) {
    root + [name] in nodes && nodes[root + [name]].Symlink?
  }

  function AliasVisits(nodes: Nodes, root: Path, name: string): (n: nat) {
    if Linked(nodes, root, name) then 1
    else if Spent(nodes, root + [name]) == 0 then 0 else Spent(nodes, root + [name]) - 1
  }

  ghost function AliasWeight(nodes: Nodes, root: Path, name: string): (n: nat) {
    if Linked(nodes, root, name) then 0 else Weight(nodes, Leaves(nodes, root + [name]))
  }

  function VisitsUpTo(nodes: Nodes, root: Path, k: nat): (n: nat)
    requires k <= |ALIASES|
  {
    if k == 0 then 0 else VisitsUpTo(nodes, root, k - 1) + AliasVisits(nodes, root, ALIASES[k - 1])
  }

  ghost function WeightUpTo(nodes: Nodes, root: Path, k: nat): (n: nat)
    requires k <= |ALIASES|
  {
    if k == 0 then 0 else WeightUpTo(nodes, root, k - 1) + AliasWeight(nodes, root, ALIASES[k - 1])
  }

  lemma {:induction false} UpToGrows(nodes: Nodes, root: Path, j: nat, k: nat)
    requires j <= k <= |ALIASES|
    ensures VisitsUpTo(nodes, root, j) <= VisitsUpTo(nodes, root, k) && WeightUpTo(nodes, root, j) <= WeightUpTo(nodes, root, k)
    decreases k
  {
    if j < k { UpToGrows(nodes, root, j, k - 1); }
  }

  /** Nothing about the alias has changed. */
  ghost predicate SameAlias(was: Nodes, now: Nodes, root: Path, name: string) {
    && AliasFine(now, root, name) == AliasFine(was, root, name) && AliasVisits(now, root, name) == AliasVisits(was, root, name)
    && AliasWeight(now, root, name) == AliasWeight(was, root, name)
  }

  ghost predicate AliasesFine(nodes: Nodes, root: Path, k: nat)
    requires k <= |ALIASES|
  {
    forall j {:trigger AliasFine(nodes, root, ALIASES[j])} :: 0 <= j < k ==> AliasFine(nodes, root, ALIASES[j])
  }

  /** The first k aliases could be settled, and nothing about the others has changed. */
  ghost predicate Due(was: Nodes, now: Nodes, root: Path, k: nat)
    requires k <= |ALIASES|
  {
    && AliasesFine(was, root, k)
    && forall j {:trigger SameAlias(was, now, root, ALIASES[j])} :: k <= j < |ALIASES| ==> SameAlias(was, now, root, ALIASES[j])
  }

  /** What the next alias asks for, and why failing there is failing at all. */
  lemma DueNow(was: Nodes, cur: Nodes, root: Path, k: nat, all: nat)
    requires k < all == |ALIASES| && Due(was, cur, root, k)
    ensures SameAlias(was, cur, root, ALIASES[k])
    ensures AliasesFine(was, root, all) ==> AliasFine(was, root, ALIASES[k])
    ensures VisitsUpTo(was, root, k) + AliasVisits(was, root, ALIASES[k]) == VisitsUpTo(was, root, k + 1) <= VisitsUpTo(was, root, all)
    ensures WeightUpTo(was, root, k) + AliasWeight(was, root, ALIASES[k]) == WeightUpTo(was, root, k + 1) <= WeightUpTo(was, root, all)
  {
    assert SameAlias(was, cur, root, ALIASES[k]);
    UpToGrows(was, root, k + 1, all);
    if AliasesFine(was, root, all) { assert AliasFine(was, root, ALIASES[k]); }
  }

  lemma DueNext(was: Nodes, cur: Nodes, now: Nodes, root: Path, k: nat)
    requires k < |ALIASES| && Due(was, cur, root, k) && AliasFine(cur, root, ALIASES[k])
    requires Realiased(cur, now, root + [ALIASES[k]], root + ["usr", ALIASES[k]])
    ensures Due(was, now, root, k + 1)
  {
    assert SameAlias(was, cur, root, ALIASES[k]);
    forall j | k < j < |ALIASES| ensures SameAlias(was, now, root, ALIASES[j]) {
      assert SameAlias(was, cur, root, ALIASES[j]);
      OtherAlias(cur, now, root, j, k);
    }
  }

  /** Settling one alias leaves what stands below another one and its target. */
  lemma OtherEntries(cur: Nodes, now: Nodes, root: Path, j: nat, k: nat, q: Path)
    requires j < |ALIASES| && k < |ALIASES| && j != k && Realiased(cur, now, root + [ALIASES[k]], root + ["usr", ALIASES[k]])
    requires root + [ALIASES[j]] <= q || root + ["usr", ALIASES[j]] <= q
    ensures q in now <==> q in cur
    ensures q in now ==> now[q] == cur[q]
  {
    var source, target := root + [ALIASES[k]], root + ["usr", ALIASES[k]];
    AliasesApart(j);
    AliasesApart(k);
    AliasesDiffer(j, k);
    assert q[|root|] != ALIASES[k];
    assert !(source <= q);
    assert !(target <= q) by { assert q[|root|] == "usr" ==> q[|root| + 1] == ALIASES[j]; }
    if now != cur { assert q in now - {source} <==> q in now; }
  }

  lemma AliasesDiffer(j: nat, k: nat)
    requires j < |ALIASES| && k < |ALIASES| && j != k
    ensures ALIASES[j] != ALIASES[k]
  {
    assert |ALIASES[j]| != |ALIASES[k]| || ALIASES[j][0] != ALIASES[k][0];
  }

  lemma OtherAlias(cur: Nodes, now: Nodes, root: Path, j: nat, k: nat)
    requires j < |ALIASES| && k < |ALIASES| && j != k && Realiased(cur, now, root + [ALIASES[k]], root + ["usr", ALIASES[k]])
    ensures SameAlias(cur, now, root, ALIASES[j])
  {
    var c, d := root + [ALIASES[j]], root + ["usr", ALIASES[j]];
    forall q | c <= q || d <= q ensures q in now <==> q in cur { OtherEntries(cur, now, root, j, k, q); }
    forall q | (c <= q || d <= q) && q in now ensures now[q] == cur[q] { OtherEntries(cur, now, root, j, k, q); }
    SameBelow(cur, now, c, d);
  }

  lemma SameBelow(cur: Nodes, now: Nodes, c: Path, d: Path)
    requires forall q :: c <= q || d <= q ==> (q in now <==> q in cur)
    requires forall q :: (c <= q || d <= q) && q in now ==> now[q] == cur[q]
    ensures AllFine(now, c, d) == AllFine(cur, c, d) && Spent(now, c) == Spent(cur, c)
    ensures Weight(now, Leaves(now, c)) == Weight(cur, Leaves(cur, c))
  {
    forall p ensures FineAt(now, c, d, p) == FineAt(cur, c, d, p) {
      if c <= p { assert d <= Moved(c, d, p); }
    }
    assert Dirs(now, c) == Dirs(cur, c) && Leaves(now, c) == Leaves(cur, c);
    WeightSame(now, cur, Leaves(cur, c));
  }

  ghost predicate IsAlias(nodes: Nodes, root: Path, name: string) {
    root + [name] in nodes && nodes[root + [name]].Symlink? && nodes[root + [name]].guarded &&
    nodes[root + [name]].literal == "usr/" + name
  }

  /** The first k aliases are links. */
  ghost predicate Aliased(nodes: Nodes, root: Path, k: nat)
    requires k <= |ALIASES|
  {
    forall j :: 0 <= j < k ==> IsAlias(nodes, root, ALIASES[j])
  }

  /** Either nothing happened, or source was merged and its place taken. */
  ghost predicate Realiased(was: Nodes, now: Nodes, source: Path, target: Path) {
    || (now == was && source in was && was[source].Symlink?)
    || (source in was && was[source].Dir? && Merged(was, now - {source}, source, target) && NoOverwrite(was, source, target))
  }

  /** Where a leaf is after the first k aliases. */
  function Home(root: Path, k: nat, p: Path): (q: Path)
    requires k <= |ALIASES|
  {
    if root <= p && |p| > |root| + 1 && p[|root|] in ALIASES[..k] then root + ["usr"] + p[|root|..] else p
  }

  ghost predicate LeavesKept(was: Nodes, now: Nodes, root: Path, k: nat)
    requires k <= |ALIASES|
  {
    forall p :: p in was && !was[p].Dir? ==> Home(root, k, p) in now && now[Home(root, k, p)] == was[p]
  }

  /** A leaf afterwards is an earlier leaf at its home, or one of the links. */
  ghost predicate Accounted(was: Nodes, root: Path, k: nat, q: Path, node: Node)
    requires k <= |ALIASES|
  {
    || (exists p :: p in was && was[p] == node && Home(root, k, p) == q)
    || (exists j :: 0 <= j < k && q == root + [ALIASES[j]])
  }

  ghost predicate NoOtherLeaves(was: Nodes, now: Nodes, root: Path, k: nat)
    requires k <= |ALIASES|
  {
    forall q :: q in now && !now[q].Dir? ==> Accounted(was, root, k, q, now[q])
  }

  function LeavesBelow(nodes: Nodes, dir: Path): (s: set<Path>) {
    set p | p in nodes && dir < p && !nodes[p].Dir?
  }

  /** The leaves that the first k aliases move. */
  function Movers(was: Nodes, root: Path, k: nat): (s: set<Path>)
    requires k <= |ALIASES|
  {
    set p | p in was && !was[p].Dir? && Home(root, k, p) != p
  }

  /** The layout after the first k aliases. */
  ghost predicate Normalized(was: Nodes, now: Nodes, root: Path, k: nat)
    requires k <= |ALIASES|
  {
    Aliased(now, root, k) && LeavesKept(was, now, root, k) && NoOtherLeaves(was, now, root, k)
  }

  lemma NextAlias(was: Nodes, cur: Nodes, now: Nodes, root: Path, k: nat)
    requires k < |ALIASES| && TreeShaped(cur) && Normalized(was, cur, root, k) && IsAlias(now, root, ALIASES[k])
    requires Realiased(cur, now, root + [ALIASES[k]], root + ["usr", ALIASES[k]])
    ensures Normalized(was, now, root, k + 1)
    ensures |Movers(was, root, k + 1)| == |Movers(was, root, k)| + |LeavesBelow(cur, root + [ALIASES[k]])|
  {
    AliasKeepsLeaves(was, cur, now, root, k);
    AliasKeepsAliases(cur, now, root, k);
    AliasAddsNoLeaf(was, cur, now, root, k);
    NextMovers(was, cur, root, k);
  }

  lemma LeavesBelowOf(nodes: Nodes, dir: Path)
    requires TreeShaped(nodes) && dir in nodes
    ensures LeavesBelow(nodes, dir) == if nodes[dir].Dir? then Leaves(nodes, dir) else {}
  {
    forall p | p in nodes && dir < p ensures nodes[dir].Dir? { NothingBelow(nodes, dir, p); }
    forall p | p in nodes && dir <= p ensures p == dir || dir < p {}
  }

  lemma NothingNormalizedYet(was: Nodes, root: Path)
    ensures Normalized(was, was, root, 0) && Movers(was, root, 0) == {}
  {
    forall p ensures Home(root, 0, p) == p {}
    forall q | q in was && !was[q].Dir? ensures Accounted(was, root, 0, q, was[q]) { assert Home(root, 0, q) == q; }
  }

  /** A leaf q of the state after an alias step, before it. */
  lemma LeafBeforeAlias(cur: Nodes, now: Nodes, source: Path, target: Path, q: Path) returns (x: Path)
    requires TreeShaped(cur) && Realiased(cur, now, source, target) && q in now && !now[q].Dir?
    requires q == source ==> now == cur && cur[source].Symlink?
    ensures x in cur && cur[x] == now[q] && q == if source < x then Moved(source, target, x) else x
  {
    x := q;
    if now == cur && cur[source].Symlink? {
      if source < q { NothingBelow(cur, source, q); }
    } else {
      assert q in now - {source} && (now - {source})[q] == now[q];
      if !(q in cur && !(source <= q)) {
        x := source + q[|target|..];
        assert Moved(source, target, x) == q;
      }
    }
  }

  lemma AliasAddsNoLeaf(was: Nodes, cur: Nodes, now: Nodes, root: Path, k: nat)
    requires k < |ALIASES| && TreeShaped(cur) && NoOtherLeaves(was, cur, root, k)
    requires Realiased(cur, now, root + [ALIASES[k]], root + ["usr", ALIASES[k]])
    ensures NoOtherLeaves(was, now, root, k + 1)
  {
    var source, target := root + [ALIASES[k]], root + ["usr", ALIASES[k]];
    forall q | q in now && !now[q].Dir? ensures Accounted(was, root, k + 1, q, now[q]) {
      if q != source {
        var x := LeafBeforeAlias(cur, now, source, target, q);
        AccountedNext(was, root, k, x, now[q]);
      }
    }
  }

  lemma AccountedNext(was: Nodes, root: Path, k: nat, x: Path, node: Node)
    requires k < |ALIASES| && Accounted(was, root, k, x, node)
    ensures
      var source, target := root + [ALIASES[k]], root + ["usr", ALIASES[k]];
      Accounted(was, root, k + 1, if source < x then Moved(source, target, x) else x, node)
  {
    var source := root + [ALIASES[k]];
    if p :| p in was && was[p] == node && Home(root, k, p) == x {
      HomeNext(root, k, p);
    } else {
      var j :| 0 <= j < k && x == root + [ALIASES[j]];
      assert !(source < x);
    }
  }

  /** What one more alias moves is what stood below it from the start. */
  lemma NextMovers(was: Nodes, cur: Nodes, root: Path, k: nat)
    requires k < |ALIASES| && LeavesKept(was, cur, root, k) && NoOtherLeaves(was, cur, root, k)
    ensures |Movers(was, root, k + 1)| == |Movers(was, root, k)| + |LeavesBelow(cur, root + [ALIASES[k]])|
  {
    var source := root + [ALIASES[k]];
    var a, b := Movers(was, root, k), LeavesBelow(cur, source);
    forall p ensures p in b <==> p in was && !was[p].Dir? && source < p { LeafBelowAlias(was, cur, root, k, p); }
    forall p ensures p in Movers(was, root, k + 1) <==> p in a || p in b {
      HomeNext(root, k, p);
      if source < p { HomeBelowAlias(root, k, p); }
    }
    forall p | p in b ensures p !in a { HomeBelowAlias(root, k, p); }
    assert Movers(was, root, k + 1) == a + b && a !! b;
  }

  /** Below an alias still to come every path is its own home. */
  lemma HomeBelowAlias(root: Path, k: nat, p: Path)
    requires k < |ALIASES| && (root + [ALIASES[k]] < p || root + [ALIASES[k]] < Home(root, k, p))
    ensures Home(root, k, p) == p && Home(root, k + 1, p) != p
  {
    var source := root + [ALIASES[k]];
    assert ALIASES[k] !in ALIASES[..k] && ALIASES[k] != "usr" by { AliasesApart(k); }
    assert source < p ==> p[|root|] == ALIASES[k];
    assert source < Home(root, k, p) ==> Home(root, k, p)[|root|] == ALIASES[k];
    HomeNext(root, k, p);
  }

  lemma AliasesApart(k: nat)
    requires k < |ALIASES|
    ensures ALIASES[k] !in ALIASES[..k] && ALIASES[k] != "usr"
  {
    assert forall j :: 0 <= j < k ==> |ALIASES[j]| != |ALIASES[k]| || ALIASES[j][0] != ALIASES[k][0];
    assert ALIASES[k][0] != 'u';
  }

  lemma LeafBelowAlias(was: Nodes, cur: Nodes, root: Path, k: nat, p: Path)
    requires k < |ALIASES| && LeavesKept(was, cur, root, k) && NoOtherLeaves(was, cur, root, k)
    ensures p in LeavesBelow(cur, root + [ALIASES[k]]) <==> p in was && !was[p].Dir? && root + [ALIASES[k]] < p
  {
    var source := root + [ALIASES[k]];
    if p in LeavesBelow(cur, source) {
      assert Accounted(was, root, k, p, cur[p]);
      if x :| x in was && was[x] == cur[p] && Home(root, k, x) == p {
        HomeBelowAlias(root, k, x);
      }
    } else if p in was && !was[p].Dir? && source < p {
      HomeBelowAlias(root, k, p);
    }
  }

  /** A leaf x of the state before an alias step, after it. */
  lemma LeafAfterAlias(cur: Nodes, now: Nodes, source: Path, target: Path, x: Path)
    requires TreeShaped(cur) && Realiased(cur, now, source, target) && Apart(source, target) && x in cur && !cur[x].Dir?
    ensures source < x ==> Moved(source, target, x) in now && now[Moved(source, target, x)] == cur[x]
    ensures !(source < x) ==> x in now && now[x] == cur[x]
  {
    if source < x {
      NothingBelow(cur, source, x);
      var q := Moved(source, target, x);
      assert target < q && source + q[|target|..] == x;
      assert !(source <= q) by { if source <= q { PrefixesComparable(source, target, q); } }
      assert q in now - {source};
    } else if cur[source].Dir? {
      assert x != source && !(source <= x);
      assert x in now - {source};
    }
  }

  lemma AliasKeepsLeaf(cur: Nodes, now: Nodes, root: Path, k: nat, p: Path, node: Node)
    requires k < |ALIASES| && TreeShaped(cur) && !node.Dir?
    requires Home(root, k, p) in cur && cur[Home(root, k, p)] == node
    requires Realiased(cur, now, root + [ALIASES[k]], root + ["usr", ALIASES[k]])
    ensures Home(root, k + 1, p) in now && now[Home(root, k + 1, p)] == node
  {
    var source, target := root + [ALIASES[k]], root + ["usr", ALIASES[k]];
    assert Apart(source, target) by { assert source[|root|] != target[|root|]; }
    HomeNext(root, k, p);
    LeafAfterAlias(cur, now, source, target, Home(root, k, p));
  }

  lemma AliasKeepsLeaves(was: Nodes, cur: Nodes, now: Nodes, root: Path, k: nat)
    requires k < |ALIASES| && TreeShaped(cur) && LeavesKept(was, cur, root, k)
    requires Realiased(cur, now, root + [ALIASES[k]], root + ["usr", ALIASES[k]])
    ensures LeavesKept(was, now, root, k + 1)
  {
    forall p | p in was && !was[p].Dir? ensures Home(root, k + 1, p) in now && now[Home(root, k + 1, p)] == was[p] {
      AliasKeepsLeaf(cur, now, root, k, p, was[p]);
    }
  }

  lemma HomeNext(root: Path, k: nat, p: Path)
    requires k < |ALIASES|
    ensures
      var source, target, x := root + [ALIASES[k]], root + ["usr", ALIASES[k]], Home(root, k, p);
      Home(root, k + 1, p) == if source < x then Moved(source, target, x) else x
  {
    var source, target, x := root + [ALIASES[k]], root + ["usr", ALIASES[k]], Home(root, k, p);
    assert ALIASES[..k + 1] == ALIASES[..k] + [ALIASES[k]];
    if source < x {
      assert x[|root|] == ALIASES[k] && x == p;
      assert root <= p && p[|root|..] == [ALIASES[k]] + p[|source|..];
    } else if x == p && root <= p && |p| > |root| + 1 {
      assert p[|root|] == ALIASES[k] ==> source < p;
    }
  }

  lemma LinkReplaces(was: Nodes, merged: Nodes, source: Path, target: Path, link: Node)
    requires TreeShaped(was) && TreeShaped(merged) && Merged(was, merged, source, target) && NoOverwrite(was, source, target)
    requires source != [] && source in was && was[source].Dir? && !(target <= source)
    ensures TreeShaped(merged[source := link]) && Realiased(was, merged[source := link], source, target)
  {
    var now := merged[source := link];
    assert source !in merged;
    assert now - {source} == merged;
    var parent := source[..|source| - 1];
    assert Parented(was, source) && !(source <= parent);
    assert parent in merged && merged[parent] == was[parent];
    NothingUnder(merged, source);
    NewDirShape(merged, source, link);
  }

  lemma AliasKeepsAlias(cur: Nodes, now: Nodes, root: Path, j: nat, k: nat)
    requires j < k < |ALIASES| && TreeShaped(cur) && IsAlias(cur, root, ALIASES[j])
    requires Realiased(cur, now, root + [ALIASES[k]], root + ["usr", ALIASES[k]])
    ensures IsAlias(now, root, ALIASES[j])
  {
    var source, target := root + [ALIASES[k]], root + ["usr", ALIASES[k]];
    assert Apart(source, target) by { assert source[|root|] != target[|root|]; }
    LeafAfterAlias(cur, now, source, target, root + [ALIASES[j]]);
  }

  /** Once every name is handled the merge is complete but for the empty source. */
  lemma AllMerged(was: Nodes, cur: Nodes, source: Path, target: Path, names: seq<string>)
    requires TreeShaped(was) && TreeShaped(cur) && Apart(source, target) && source in was && was[source].Dir?
    requires forall x :: x in names <==> x in Names(was, source)
    requires Relocated(was, cur, source, target, Taken(names, |names|)) && Compatible(was, source, target, Taken(names, |names|))
    ensures Merged(was, cur - {source}, source, target) && NoOverwrite(was, source, target) && TreeShaped(cur - {source})
    ensures LeavesOf(was, source, Taken(names, |names|)) == Leaves(was, source)
  {
    assert Taken(names, |names|) == Names(was, source) by { assert names[..|names|] == names; }
    NamesCover(was, source);
    CoveredLeaves(was, source, Names(was, source));
    Complete(was, cur, source, target, Names(was, source));
  }

  lemma AliasKeepsAliases(cur: Nodes, now: Nodes, root: Path, k: nat)
    requires k < |ALIASES| && TreeShaped(cur) && Aliased(cur, root, k) && IsAlias(now, root, ALIASES[k])
    requires Realiased(cur, now, root + [ALIASES[k]], root + ["usr", ALIASES[k]])
    ensures Aliased(now, root, k + 1)
  {
    forall j | 0 <= j < k ensures IsAlias(now, root, ALIASES[j]) { AliasKeepsAlias(cur, now, root, j, k); }
  }

  /** The names handled so far. */
  ghost function Taken(names: seq<string>, n: nat): (s: set<string>)
    requires n <= |names|
  {
    set x | x in names[..n]
  }

  lemma ApartChildren(source: Path, target: Path, name: string)
    requires Apart(source, target)
    ensures Apart(source + [name], target + [name])
  {
    if source + [name] <= target + [name] { PrefixesComparable(source, target, target + [name]); }
    if target + [name] <= source + [name] { PrefixesComparable(source, target, source + [name]); }
  }

  lemma NextName(was: Nodes, cur: Nodes, source: Path, target: Path, names: seq<string>, n: nat)
    requires n < |names| && Distinct(names) && (forall x :: x in names <==> x in Names(was, source))
    requires Relocated(was, cur, source, target, Taken(names, n)) && Apart(source, target)
    requires target in was && was[target].Dir?
    ensures names[n] !in Taken(names, n) && Taken(names, n + 1) == Taken(names, n) + {names[n]}
    ensures source + [names[n]] in cur && target in cur && cur[target].Dir?
  {
    assert names[..n + 1] == names[..n] + [names[n]];
    assert names[n] in Names(was, source);
    var p :| p in was && source < p && |p| == |source| + 1 && p[|source|] == names[n];
    assert p == source + [names[n]];
    UnmergedName(was, cur, source, target, Taken(names, n), names[n], p);
    assert Stays(was, source, Taken(names, n), target);
  }

  lemma NothingMovedYet(was: Nodes, source: Path, target: Path, names: seq<string>)
    ensures Relocated(was, was, source, target, Taken(names, 0)) && Compatible(was, source, target, Taken(names, 0))
    ensures LeavesOf(was, source, Taken(names, 0)) == {}
  {
    assert Taken(names, 0) == {};
  }

  lemma AbsorbAll(was: Nodes, cur: Nodes, now: Nodes, source: Path, target: Path, names: seq<string>, n: nat)
    requires n < |names| && names[n] !in Taken(names, n) && Taken(names, n + 1) == Taken(names, n) + {names[n]}
    requires Relocated(was, cur, source, target, Taken(names, n)) && Apart(source, target)
    requires Compatible(was, source, target, Taken(names, n))
    requires Shifted(cur, now, source + [names[n]], target + [names[n]]) && NoClash(cur, source + [names[n]], target + [names[n]])
    ensures Relocated(was, now, source, target, Taken(names, n + 1)) && Compatible(was, source, target, Taken(names, n + 1))
    ensures |LeavesOf(was, source, Taken(names, n + 1))| ==
            |LeavesOf(was, source, Taken(names, n))| + |Leaves(cur, source + [names[n]])|
  {
    Absorb(was, cur, now, source, target, Taken(names, n), names[n]);
    AbsorbCompatible(was, cur, source, target, Taken(names, n), names[n]);
    AbsorbLeaves(was, cur, source, target, Taken(names, n), names[n]);
  }

  lemma RenameShape(nodes: Nodes, c: Path, d: Path)
    requires TreeShaped(nodes) && Apart(c, d) && c in nodes && !nodes[c].Dir? && d != [] && d !in nodes
    requires d[..|d| - 1] in nodes && nodes[d[..|d| - 1]].Dir?
    ensures TreeShaped((nodes - {c})[d := nodes[c]])
  {
    var now := (nodes - {c})[d := nodes[c]];
    forall p | p in now && p != [] ensures Parented(now, p) {
      var parent := p[..|p| - 1];
      assert p in nodes ==> Parented(nodes, p);
      assert parent in nodes && nodes[parent].Dir?;
      assert parent != c && parent != d;
    }
  }
}
