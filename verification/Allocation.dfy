/** Allocated metadata of a partition of trees: hardlinked objects are charged to
    the first tree that meets them, and one failure withholds every total. */
module Allocation {
  import opened Text
  import opened Ledger

  const MAX_DEPTH := 256

  datatype Kind = Directory | Regular | Symlink | Unexpected

  type Key = (nat, nat)

  datatype Stat = Stat(key: Key, kind: Kind, nlink: nat, blocks: int, size: int, ctime: int, mtime: int)

  /** What must agree between two names of one object. */
  datatype Fact = Fact(kind: Kind, blocks: int, nlink: nat, size: int, ctime: int, mtime: int)

  datatype Link = Link(fact: Fact, members: map<nat, nat>)

  /** A directory tree, entries in name order. `entered` and `left` answer the checks
      of identity, mount and membership before and after an entry is taken up. */
  datatype Tree = Tree(stat: Stat, entries: seq<Tree>, entered: bool, left: bool)

  /** An entry met while walking tree number `tree`. */
  datatype Met = Met(tree: nat, stat: Stat)

  function FactOf(s: Stat): (f: Fact) {
    Fact(s.kind, s.blocks, s.nlink, s.size, s.ctime, s.mtime)
  }

  /** Objects that can have several names. */
  predicate Linked(s: Stat) {
    s.kind != Directory && s.nlink > 1
  }

  predicate Usable(s: Stat) {
    s.kind != Unexpected && s.blocks >= 0 && s.size >= 0
  }

  /** The entries a walk meets, in order. */
  function Entries(t: Tree): (r: seq<Stat>) {
    [t.stat] + (if t.stat.kind == Directory then EntriesOf(t.entries) else [])
  }

  function EntriesOf(ts: seq<Tree>): (r: seq<Stat>) {
    if ts == [] then [] else Entries(ts[0]) + EntriesOf(ts[1..])
  }

  // ---- what the counters mean ----------------------------------------------

  /** The sizes and counts a walk adds up. */
  datatype Weight = Blocks | Bytes | Objects

  function WeightOf(w: Weight, s: Stat): (n: int) {
    match w case Blocks => s.blocks * 512 case Bytes => s.size case Objects => 1
  }

  predicate AllUsable(met: seq<Met>) {
    forall i :: 0 <= i < |met| ==> met[i].stat.kind != Unexpected && met[i].stat.blocks >= 0 && met[i].stat.size >= 0
  }

  /** Some entry under key k is no directory and has further links. */
  predicate MetLink(met: seq<Met>, k: Key) {
    exists i :: 0 <= i < |met| && met[i].stat.kind != Directory && met[i].stat.nlink > 1 && met[i].stat.key == k
  }

  /** All such entries, by their places. */
  ghost function LinkPlaces(met: seq<Met>, k: Key): (s: set<nat>) {
    set i: nat | i < |met| && met[i].stat.kind != Directory && met[i].stat.nlink > 1 && met[i].stat.key == k
  }

  /** An entry is charged unless it is a further name of a linked object. */
  predicate Charged(before: seq<Met>, s: Stat) {
    !Linked(s) || !MetLink(before, s.key)
  }

  /** Total of the charged entries of one tree. */
  function TreeTotal(met: seq<Met>, tree: nat, w: Weight): (n: int) {
    if met == [] then 0
    else
      var last := met[|met| - 1];
      TreeTotal(met[..|met| - 1], tree, w) +
      (if last.tree == tree && Charged(met[..|met| - 1], last.stat) then WeightOf(w, last.stat) else 0)
  }

  /** One more entry adds its weight to its own tree if it is charged. */
  lemma TotalNext(met: seq<Met>, tree: nat, s: Stat)
    ensures forall w :: TreeTotal(met + [Met(tree, s)], tree, w) ==
                        TreeTotal(met, tree, w) + if Charged(met, s) then WeightOf(w, s) else 0
  {
    assert (met + [Met(tree, s)])[..|met|] == met;
  }

  /** Total over the trees 0 .. n - 1. */
  function PartitionTotal(met: seq<Met>, n: nat, w: Weight): (total: int) {
    if n == 0 then 0 else PartitionTotal(met, n - 1, w) + TreeTotal(met, n - 1, w)
  }

  /** How many names of object k one tree contributed. */
  function Names(met: seq<Met>, tree: nat, k: Key): (n: nat) {
    if met == [] then 0
    else
      var last := met[|met| - 1];
      Names(met[..|met| - 1], tree, k) + (if last.tree == tree && Linked(last.stat) && last.stat.key == k then 1 else 0)
  }

  /** The distinct objects reached, each with the stat of its first entry. */
  function Reached(met: seq<Met>): (m: map<Key, Stat>) {
    if met == [] then map[]
    else
      var m := Reached(met[..|met| - 1]);
      var s := met[|met| - 1].stat;
      if s.key in m then m else m[s.key := s]
  }

  // ---- conservation --------------------------------------------------------

  /** Only objects with further links, and no directories, are met under two names. */
  ghost predicate OneName(met: seq<Met>) {
    forall i, j :: 0 <= i < j < |met| && met[i].stat.key == met[j].stat.key ==>
      && met[i].stat.kind != Directory && met[i].stat.nlink > 1
      && met[j].stat.kind != Directory && met[j].stat.nlink > 1
  }

  ghost function SumOf(m: map<Key, Stat>, w: Weight): (n: int) {
    if m == map[] then 0
    else
      var k :| k in m;
      WeightOf(w, m[k]) + SumOf(m - {k}, w)
  }

  /** The sum does not depend on the order in which objects are taken. */
  lemma {:induction false} SumRemove(m: map<Key, Stat>, k: Key, w: Weight)
    requires k in m
    ensures SumOf(m, w) == WeightOf(w, m[k]) + SumOf(m - {k}, w)
    decreases |m|
  {
    var c :| c in m && SumOf(m, w) == WeightOf(w, m[c]) + SumOf(m - {c}, w);
    if c != k {
      assert |m - {c}| == |m| - 1 by { assert (m - {c}).Keys == m.Keys - {c}; }
      assert |m - {k}| == |m| - 1 by { assert (m - {k}).Keys == m.Keys - {k}; }
      SumRemove(m - {c}, k, w);
      SumRemove(m - {k}, c, w);
      assert (m - {c}) - {k} == (m - {k}) - {c};
    }
  }

  lemma {:induction false} ReachedKeys(met: seq<Met>)
    ensures forall k :: k in Reached(met) <==> exists i :: 0 <= i < |met| && met[i].stat.key == k
  {
    if met != [] {
      var p := met[..|met| - 1];
      ReachedKeys(p);
      forall k | k in Reached(met) ensures exists i :: 0 <= i < |met| && met[i].stat.key == k {
        if k in Reached(p) {
          var i :| 0 <= i < |p| && p[i].stat.key == k;
          assert met[i].stat.key == k;
        } else {
          assert met[|met| - 1].stat.key == k;
        }
      }
      forall i | 0 <= i < |met| ensures met[i].stat.key in Reached(met) {
        if i < |p| { assert p[i].stat.key in Reached(p); }
      }
    }
  }

  lemma {:induction false} PartitionStep(met: seq<Met>, n: nat, w: Weight)
    requires met != []
    ensures
      var p, last := met[..|met| - 1], met[|met| - 1];
      PartitionTotal(met, n, w) ==
      PartitionTotal(p, n, w) + (if last.tree < n && Charged(p, last.stat) then WeightOf(w, last.stat) else 0)
  {
    if n > 0 { PartitionStep(met, n - 1, w); }
  }

  lemma {:induction false} NothingMet(n: nat, w: Weight)
    ensures PartitionTotal([], n, w) == 0
  {
    if n > 0 { NothingMet(n - 1, w); }
  }

  /** When only linked objects have several names, an entry is charged exactly
      when it is the first of its object. */
  lemma ChargedIsFirst(met: seq<Met>)
    requires met != [] && OneName(met)
    ensures Charged(met[..|met| - 1], met[|met| - 1].stat) <==> met[|met| - 1].stat.key !in Reached(met[..|met| - 1])
  {
    var p, last := met[..|met| - 1], met[|met| - 1];
    ReachedKeys(p);
    if last.stat.key in Reached(p) {
      var i :| 0 <= i < |p| && p[i].stat.key == last.stat.key;
      assert met[i] == p[i] && met[|met| - 1] == last;
    }
  }

  /** Conservation: the totals of the trees add up to the weight of the distinct
      objects reached. */
  lemma {:induction false} TotalsAreOfDistinctObjects(met: seq<Met>, n: nat, w: Weight)
    requires OneName(met) && forall i :: 0 <= i < |met| ==> met[i].tree < n
    ensures PartitionTotal(met, n, w) == SumOf(Reached(met), w)
  {
    if met == [] {
      NothingMet(n, w);
    } else {
      var p, last := met[..|met| - 1], met[|met| - 1];
      TotalsAreOfDistinctObjects(p, n, w);
      PartitionStep(met, n, w);
      ChargedIsFirst(met);
      if last.stat.key !in Reached(p) {
        SumRemove(Reached(met), last.stat.key, w);
        assert Reached(met) - {last.stat.key} == Reached(p);
      }
    }
  }

  /** Each object is charged by exactly one entry, so to exactly one tree. */
  lemma {:induction false} ChargedExactlyOnce(met: seq<Met>, k: Key)
    requires OneName(met) && k in Reached(met)
    ensures exists i :: 0 <= i < |met| && met[i].stat.key == k && Charged(met[..i], met[i].stat)
    ensures forall i, j :: 0 <= i < j < |met| && met[i].stat.key == met[j].stat.key == k ==> !Charged(met[..j], met[j].stat)
  {
    var n := |met| - 1;
    var p := met[..n];
    ChargedIsFirst(met);
    if k in Reached(p) {
      ChargedExactlyOnce(p, k);
      var i :| 0 <= i < |p| && p[i].stat.key == k && Charged(p[..i], p[i].stat);
      assert met[..i] == p[..i];
    }
    forall i, j | 0 <= i < j < |met| && met[i].stat.key == met[j].stat.key == k ensures !Charged(met[..j], met[j].stat) {
      assert met[..j][i] == met[i];
    }
  }

  /** All names of object k met in the trees 0 .. n - 1. */
  function NamesTotal(met: seq<Met>, n: nat, k: Key): (total: nat) {
    if n == 0 then 0 else NamesTotal(met, n - 1, k) + Names(met, n - 1, k)
  }

  function NameCount(met: seq<Met>, k: Key): (n: nat) {
    if met == [] then 0
    else NameCount(met[..|met| - 1], k) +
         (if Linked(met[|met| - 1].stat) && met[|met| - 1].stat.key == k then 1 else 0)
  }

  /** The names counted are the places of the linked entries under the key. */
  lemma {:induction false} NameCountIsPlaces(met: seq<Met>, k: Key)
    ensures NameCount(met, k) == |LinkPlaces(met, k)|
  {
    if met != [] {
      var n := |met| - 1;
      NameCountIsPlaces(met[..n], k);
      var more: set<nat> := if Linked(met[n].stat) && met[n].stat.key == k then {n} else {};
      assert LinkPlaces(met, k) == LinkPlaces(met[..n], k) + more;
      assert n !in LinkPlaces(met[..n], k);
    }
  }

  lemma {:induction false} NamesStep(met: seq<Met>, n: nat, k: Key)
    requires met != []
    ensures
      var last := met[|met| - 1];
      NamesTotal(met, n, k) == NamesTotal(met[..|met| - 1], n, k) +
                               (if last.tree < n && Linked(last.stat) && last.stat.key == k then 1 else 0)
  {
    if n > 0 { NamesStep(met, n - 1, k); }
  }

  lemma {:induction false} NoNames(n: nat, k: Key)
    ensures NamesTotal([], n, k) == 0
  {
    if n > 0 { NoNames(n - 1, k); }
  }

  /** The per-tree link counts of an object add up to its visited entries. */
  lemma {:induction false} NamesAddUp(met: seq<Met>, n: nat, k: Key)
    requires forall i :: 0 <= i < |met| ==> met[i].tree < n
    ensures NamesTotal(met, n, k) == NameCount(met, k)
  {
    if met == [] {
      NoNames(n, k);
    } else {
      NamesAddUp(met[..|met| - 1], n, k);
      NamesStep(met, n, k);
    }
  }

  // ---- what the walk lets in -----------------------------------------------

  /** The linked objects in the order they were first met. */
  function LinkOrder(met: seq<Met>): (keys: seq<Key>)
    ensures Distinct(keys) && forall k :: k in keys <==> MetLink(met, k)
  {
    if met == [] then []
    else
      var init, last := met[..|met| - 1], met[|met| - 1];
      assert met == init + [last];
      assert forall k :: MetLink(met, k) <==> MetLink(init, k) || (Linked(last.stat) && last.stat.key == k) by {
        forall k ensures MetLink(met, k) <==> MetLink(init, k) || (Linked(last.stat) && last.stat.key == k) { MetLinkAppend(init, last, k); }
      }
      LinkOrder(init) + if Linked(last.stat) && !MetLink(init, last.stat.key) then [last.stat.key] else []
  }

  /** Two names of one linked object show the same facts. */
  ghost predicate Agreeing(met: seq<Met>) {
    forall k, i, j :: i in LinkPlaces(met, k) && j in LinkPlaces(met, k) ==> met[i].stat == met[j].stat
  }

  /** When one more entry agrees with the entries before it. */
  ghost predicate Agrees(met: seq<Met>, s: Stat) {
    forall i :: 0 <= i < |met| && Linked(met[i].stat) && Linked(s) && met[i].stat.key == s.key ==> FactOf(met[i].stat) == FactOf(s)
  }

  /** When one more entry is let in. */
  ghost predicate Admits(met: seq<Met>, s: Stat, limit: nat) {
    Usable(s) && Agrees(met, s) && (Linked(s) && !MetLink(met, s.key) ==> |LinkOrder(met)| < limit)
  }

  /** Entries a walk may meet, one after the other. */
  ghost predicate Admissible(met: seq<Met>, limit: nat) {
    met != [] ==> Admissible(met[..|met| - 1], limit) && Admits(met[..|met| - 1], met[|met| - 1].stat, limit)
  }

  lemma OrderNext(met: seq<Met>, m: Met)
    ensures LinkOrder(met + [m]) == LinkOrder(met) + if Linked(m.stat) && !MetLink(met, m.stat.key) then [m.stat.key] else []
  {
    assert (met + [m])[..|met|] == met;
  }

  lemma AdmissibleNext(met: seq<Met>, m: Met, limit: nat)
    ensures Admissible(met + [m], limit) <==> Admissible(met, limit) && Admits(met, m.stat, limit)
  {
    assert (met + [m])[..|met|] == met;
  }

  lemma UsableNeeded(met: seq<Met>, m: Met, limit: nat)
    ensures Admissible(met + [m], limit) ==> Usable(m.stat)
  {
    AdmissibleNext(met, m, limit);
  }

  /** Admissible entries are usable, show no conflict, and stay within the link limit. */
  lemma {:induction false} AdmissibleMeans(met: seq<Met>, limit: nat)
    ensures Admissible(met, limit) <==> AllUsable(met) && Agreeing(met) && |LinkOrder(met)| <= limit
  {
    if met != [] {
      var init, last := met[..|met| - 1], met[|met| - 1];
      AdmissibleMeans(init, limit);
      assert met == init + [last];
      OrderNext(init, last);
      UsableNext(init, last);
      AgreeingNext(init, last);
    }
  }

  lemma PlacesNext(met: seq<Met>, m: Met, k: Key)
    ensures LinkPlaces(met + [m], k) == LinkPlaces(met, k) + if Linked(m.stat) && m.stat.key == k then {|met|} else {}
  {
  }

  lemma AgreeingNext(met: seq<Met>, m: Met)
    ensures Agreeing(met + [m]) <==> Agreeing(met) && Agrees(met, m.stat)
  {
    var all, n := met + [m], |met|;
    forall k ensures LinkPlaces(all, k) == LinkPlaces(met, k) + if Linked(m.stat) && m.stat.key == k then {n} else {} {
      PlacesNext(met, m, k);
    }
    if Agreeing(all) {
      forall k, i, j | i in LinkPlaces(met, k) && j in LinkPlaces(met, k) ensures met[i].stat == met[j].stat {
        assert i in LinkPlaces(all, k) && j in LinkPlaces(all, k) && all[i] == met[i] && all[j] == met[j];
      }
      forall i | 0 <= i < n && Linked(met[i].stat) && Linked(m.stat) && met[i].stat.key == m.stat.key
        ensures FactOf(met[i].stat) == FactOf(m.stat)
      {
        assert i in LinkPlaces(all, m.stat.key) && n in LinkPlaces(all, m.stat.key) && all[i] == met[i] && all[n] == m;
      }
    }
    if Agreeing(met) && Agrees(met, m.stat) {
      forall k, i, j | i in LinkPlaces(all, k) && j in LinkPlaces(all, k) ensures all[i].stat == all[j].stat {
        assert i < n ==> i in LinkPlaces(met, k) && all[i] == met[i];
        assert j < n ==> j in LinkPlaces(met, k) && all[j] == met[j];
      }
    }
  }

  lemma UsableNext(met: seq<Met>, m: Met)
    ensures AllUsable(met + [m]) <==> AllUsable(met) && Usable(m.stat)
  {
    var all := met + [m];
    assert all[|met|] == m && forall i :: 0 <= i < |met| ==> all[i] == met[i];
  }

  /** What is not let in stays out, whatever comes later. */
  lemma {:induction false} AdmissiblePrefix(met: seq<Met>, more: seq<Met>, limit: nat)
    requires Admissible(met + more, limit)
    ensures Admissible(met, limit)
  {
    if more == [] {
      assert met + more == met;
    } else {
      assert (met + more)[..|met + more| - 1] == met + more[..|more| - 1];
      AdmissiblePrefix(met, more[..|more| - 1], limit);
    }
  }

  /** No check fails anywhere in the tree, and it is not too deep. */
  predicate Steady(t: Tree, depth: nat)
    decreases t, 0
  {
    depth <= MAX_DEPTH && t.entered && t.left && SteadyEntries(t, |t.entries|, depth + 1)
  }

  /** The first n entries of a directory. */
  predicate SteadyEntries(t: Tree, n: nat, depth: nat)
    requires n <= |t.entries|
    decreases t, 0, n
  {
    forall i :: 0 <= i < n ==> SteadyEntry(t.entries[i], depth)
  }

  predicate SteadyEntry(t: Tree, depth: nat)
    decreases t, 1
  {
    t.stat.kind != Unexpected && if t.stat.kind == Directory then Steady(t, depth) else t.entered && t.left
  }

  const KINDS := {Directory, Regular, Symlink}

  /** How many entries of one kind a tree has. */
  function KindCount(met: seq<Met>, tree: nat, kind: Kind): (n: nat) {
    if met == [] then 0
    else KindCount(met[..|met| - 1], tree, kind) + if met[|met| - 1].tree == tree && met[|met| - 1].stat.kind == kind then 1 else 0
  }

  // ---- the walk ------------------------------------------------------------

  /** The hardlink table says what the entries so far say. */
  ghost predicate LinksExact(met: seq<Met>, links: map<Key, Link>) {
    && (forall k :: k in links <==> MetLink(met, k))
    && (forall i :: 0 <= i < |met| && Linked(met[i].stat) ==>
          met[i].stat.key in links && links[met[i].stat.key].fact == FactOf(met[i].stat))
    && (forall k, t :: k in links ==>
          (t in links[k].members <==> Names(met, t, k) > 0) &&
          (t in links[k].members ==> links[k].members[t] == Names(met, t, k)))
  }

  /** The table after one more name of a linked object. */
  function Registered(links: map<Key, Link>, m: Met): (r: map<Key, Link>) {
    var k := m.stat.key;
    if k in links then
      var members := links[k].members;
      links[k := links[k].(members := members[m.tree := (if m.tree in members then members[m.tree] else 0) + 1])]
    else
      links[k := Link(FactOf(m.stat), map[m.tree := 1])]
  }

  lemma {:induction false} NamesNeedLink(met: seq<Met>, t: nat, k: Key)
    ensures Names(met, t, k) > 0 ==> MetLink(met, k)
  {
    if met != [] {
      var p := met[..|met| - 1];
      NamesNeedLink(p, t, k);
      if MetLink(p, k) {
        var i :| 0 <= i < |p| && Linked(p[i].stat) && p[i].stat.key == k;
        assert met[i] == p[i];
      } else if Names(met, t, k) > 0 {
        assert Linked(met[|met| - 1].stat) && met[|met| - 1].stat.key == k;
      }
    }
  }

  lemma MetLinkAppend(met: seq<Met>, m: Met, k: Key)
    ensures MetLink(met + [m], k) <==> MetLink(met, k) || (Linked(m.stat) && m.stat.key == k)
  {
    var all := met + [m];
    if MetLink(met, k) {
      var i :| 0 <= i < |met| && Linked(met[i].stat) && met[i].stat.key == k;
      assert all[i] == met[i];
    }
    assert all[|met|] == m;
    assert forall i :: 0 <= i < |met| ==> all[i] == met[i];
  }

  lemma NamesAppend(met: seq<Met>, m: Met, t: nat, k: Key)
    ensures Names(met + [m], t, k) == Names(met, t, k) + (if m.tree == t && Linked(m.stat) && m.stat.key == k then 1 else 0)
  {
    assert (met + [m])[..|met|] == met;
  }

  lemma UnlinkedKeepsLinks(met: seq<Met>, links: map<Key, Link>, m: Met)
    requires LinksExact(met, links) && !Linked(m.stat)
    ensures LinksExact(met + [m], links)
  {
    var all := met + [m];
    forall k ensures k in links <==> MetLink(all, k) { MetLinkAppend(met, m, k); }
    forall k, t | k in links
      ensures (t in links[k].members <==> Names(all, t, k) > 0) && (t in links[k].members ==> links[k].members[t] == Names(all, t, k))
    {
      NamesAppend(met, m, t, k);
    }
  }

  lemma RegisteredExact(met: seq<Met>, links: map<Key, Link>, m: Met)
    requires LinksExact(met, links) && Linked(m.stat)
    requires m.stat.key in links ==> links[m.stat.key].fact == FactOf(m.stat)
    ensures LinksExact(met + [m], Registered(links, m))
  {
    var all, now := met + [m], Registered(links, m);
    forall k ensures k in now <==> MetLink(all, k) { MetLinkAppend(met, m, k); }
    forall i | 0 <= i < |all| && Linked(all[i].stat)
      ensures all[i].stat.key in now && now[all[i].stat.key].fact == FactOf(all[i].stat)
    {
      if i < |met| { assert all[i] == met[i]; }
    }
    forall k, t | k in now
      ensures (t in now[k].members <==> Names(all, t, k) > 0) && (t in now[k].members ==> now[k].members[t] == Names(all, t, k))
    {
      NamesAppend(met, m, t, k);
      NamesNeedLink(met, t, k);
    }
  }

  lemma KindNext(met: seq<Met>, m: Met, tree: nat, kind: Kind)
    ensures KindCount(met + [m], tree, kind) == KindCount(met, tree, kind) + if m.tree == tree && m.stat.kind == kind then 1 else 0
  {
    assert (met + [m])[..|met|] == met;
  }

  lemma KindsNext(met: seq<Met>, tree: nat, s: Stat)
    requires s.kind in KINDS
    ensures KindsOf(met + [Met(tree, s)], tree) == KindsOf(met, tree)[s.kind := KindsOf(met, tree)[s.kind] + 1]
  {
    KindNext(met, Met(tree, s), tree, Directory);
    KindNext(met, Met(tree, s), tree, Regular);
    KindNext(met, Met(tree, s), tree, Symlink);
  }

  /** Every entry of a tree by its kind, further names of linked objects included. */
  function KindsOf(met: seq<Met>, tree: nat): (r: map<Kind, nat>)
    ensures r.Keys == KINDS
  {
    map[Directory := KindCount(met, tree, Directory), Regular := KindCount(met, tree, Regular), Symlink := KindCount(met, tree, Symlink)]
  }

  ghost predicate Asked(met: seq<Met>) { true }

  /** The sums are those of the current tree, charged once per object. */
  ghost predicate Summed(met: seq<Met>, tree: nat, sums: map<Weight, int>) {
    && (forall i :: 0 <= i < |met| ==> met[i].tree <= tree)
    && sums.Keys == {Blocks, Bytes, Objects} && (forall w :: w in sums ==> sums[w] == TreeTotal(met, tree, w))
  }

  /** The register holds the linked objects met, in order. */
  ghost predicate InRegister(met: seq<Met>, links: map<Key, Link>, order: seq<Key>) {
    LinksExact(met, links) && order == LinkOrder(met) && |order| == |links|
  }

  /** `Summed`, folded up unless asked for. */
  ghost predicate Totalled(met: seq<Met>, tree: nat, sums: map<Weight, int>) {
    forall l {:trigger Asked(l)} :: Asked(l) && l == met ==> Summed(l, tree, sums)
  }

  /** `InRegister`, folded up unless asked for. */
  ghost predicate Filed(met: seq<Met>, links: map<Key, Link>, order: seq<Key>) {
    forall l {:trigger Asked(l)} :: Asked(l) && l == met ==> InRegister(l, links, order)
  }

  /** Sums and register say what the entries so far say. */
  ghost predicate Booked(met: seq<Met>, tree: nat, sums: map<Weight, int>, links: map<Key, Link>, order: seq<Key>) {
    Totalled(met, tree, sums) && Filed(met, links, order)
  }

  class Walk {
    const linkLimit: nat
    var tree: nat
    var sums: map<Weight, int>
    var kinds: map<Kind, nat>
    var links: map<Key, Link>
    /** The keys of `links` in the order they were entered. */
    var order: seq<Key>
    ghost var met: seq<Met>

    ghost predicate Valid()
      reads this
    {
      Admissible(met, linkLimit) && Booked(met, tree, sums, links, order) && kinds.Keys == KINDS
    }

    constructor (linkLimit: nat)
      ensures Valid() && tree == 0 && met == [] && this.linkLimit == linkLimit && kinds == KindsOf(met, tree)
    {
      this.linkLimit, tree, links, order, met := linkLimit, 0, map[], [], [];
      sums := map[Blocks := 0, Bytes := 0, Objects := 0];
      kinds := map[Directory := 0, Regular := 0, Symlink := 0];
    }

    /** Charges an entry to the current tree. */
    method Charge(s: Stat)
      requires sums.Keys == {Blocks, Bytes, Objects}
      modifies this`sums
      ensures sums.Keys == {Blocks, Bytes, Objects}
      ensures forall w :: w in sums ==> sums[w] == old(sums)[w] + WeightOf(w, s)
    {
      sums := map[Blocks := sums[Blocks] + s.blocks * 512, Bytes := sums[Bytes] + s.size, Objects := sums[Objects] + 1];
    }

    /** Enters a name of a linked object; `first` if it is the first one. */
    method Enrol(s: Stat) returns (o: Outcome, first: bool)
      requires Admissible(met, linkLimit) && Filed(met, links, order) && Linked(s) && Usable(s)
      modifies this`links, this`order
      ensures o == Done <==> Admissible(met + [Met(tree, s)], linkLimit)
      ensures o == Done ==> Filed(met + [Met(tree, s)], links, order)
      ensures o == Done ==> first == !MetLink(met, s.key)
      ensures o != Done ==> links == old(links) && order == old(order)
    {
      EnrolDecides(met, links, order, tree, s, linkLimit);
      first := s.key !in links;
      if !first && links[s.key].fact != FactOf(s) { return Refused(HostError), first; }
      if first && |links| >= linkLimit { return Refused(HostError), first; }
      EnrolStep(met, links, order, tree, s);
      Inscribe(s);
      o := Done;
    }

    /** One more name in the register. */
    method Inscribe(s: Stat)
      modifies this`links, this`order
      ensures links == Registered(old(links), Met(tree, s))
      ensures order == if s.key in old(links) then old(order) else old(order) + [s.key]
    {
      if s.key !in links {
        var none: map<nat, nat> := map[];
        links, order := links[s.key := Link(FactOf(s), none[tree := 1])], order + [s.key];
      } else {
        var row := links[s.key];
        links := links[s.key := row.(members := row.members[tree := (if tree in row.members then row.members[tree] else 0) + 1])];
      }
    }

    /** An entry that was let in is met, and charged if it is the first of its object. */
    method Account(s: Stat, first: bool)
      requires Totalled(met, tree, sums) && Usable(s) && first == Charged(met, s)
      modifies this`sums, this`met
      ensures Totalled(met, tree, sums) && met == old(met) + [Met(tree, s)]
    {
      assert Asked(met);
      if first { Charge(s); }
      TotalNext(met, tree, s);
      met := met + [Met(tree, s)];
    }

    /** `add`: the entry is let in exactly if it is admissible; a refusal leaves all but
        the count of its kind as it was. */
    method Add(s: Stat) returns (o: Outcome)
      requires Valid()
      modifies this`sums, this`kinds, this`links, this`order, this`met
      ensures Valid() && (o == Done <==> Admissible(old(met) + [Met(tree, s)], linkLimit))
      ensures kinds == if s.kind == Unexpected then old(kinds) else old(kinds)[s.kind := old(kinds)[s.kind] + 1]
      ensures o == Done ==> met == old(met) + [Met(tree, s)] && s.kind in KINDS
      ensures o != Done ==> met == old(met) && sums == old(sums) && links == old(links) && order == old(order)
    {
      UsableNeeded(met, Met(tree, s), linkLimit);
      if s.kind == Unexpected { return Refused(HostError); }
      kinds := kinds[s.kind := kinds[s.kind] + 1];
      if s.blocks < 0 || s.size < 0 { return Refused(HostError); }
      o := Enter(s);
    }

    /** A usable entry: entered in the register if it is linked, then charged. */
    method Enter(s: Stat) returns (o: Outcome)
      requires Admissible(met, linkLimit) && Booked(met, tree, sums, links, order) && Usable(s)
      modifies this`sums, this`links, this`order, this`met
      ensures Booked(met, tree, sums, links, order) && (o == Done <==> Admissible(old(met) + [Met(tree, s)], linkLimit))
      ensures o == Done ==> met == old(met) + [Met(tree, s)]
      ensures o != Done ==> met == old(met) && sums == old(sums) && links == old(links) && order == old(order)
    {
      var first := true;
      if Linked(s) {
        o, first := Enrol(s);
        if o != Done { return; }
      } else {
        AdmissibleNext(met, Met(tree, s), linkLimit);
        UnlinkedStep(met, links, order, Met(tree, s));
      }
      Account(s, first);
      o := Done;
    }

    /** The counts by kind are those of the entries met, until an entry is refused. */
    ghost predicate Counted()
      reads this
    {
      kinds == KindsOf(met, tree)
    }

    method AddCounted(s: Stat) returns (o: Outcome)
      requires Valid() && Counted()
      modifies this`sums, this`kinds, this`links, this`order, this`met
      ensures Valid() && (o == Done <==> Admissible(old(met) + [Met(tree, s)], linkLimit))
      ensures o == Done ==> met == old(met) + [Met(tree, s)] && Counted()
      ensures o != Done ==> met == old(met)
    {
      o := Add(s);
      if o == Done { KindsNext(old(met), tree, s); }
    }

    /** One directory entry of `visit`, with the checks around it. */
    method VisitEntry(child: Tree, depth: nat) returns (o: Outcome)
      requires Valid() && Counted()
      modifies this`sums, this`kinds, this`links, this`order, this`met
      ensures Valid() && Grew(old(met), met, tree) && (o == Done ==> Counted())
      ensures o == Done <==> SteadyEntry(child, depth) && Admissible(old(met) + Tagged(tree, Entries(child)), linkLimit)
      ensures o == Done ==> met == old(met) + Tagged(tree, Entries(child))
      decreases child, 1
    {
      if child.stat.kind == Unexpected { return Refused(HostError); }
      if child.stat.kind == Directory {
        o := Visit(child, depth);
        return;
      }
      OneEntry(tree, child);
      o := VisitLeaf(child);
    }

    /** An entry that is no directory. */
    method VisitLeaf(child: Tree) returns (o: Outcome)
      requires Valid() && Counted()
      modifies this`sums, this`kinds, this`links, this`order, this`met
      ensures Valid() && Grew(old(met), met, tree) && (o == Done ==> Counted())
      ensures o == Done <==> child.entered && child.left && Admissible(old(met) + [Met(tree, child.stat)], linkLimit)
      ensures o == Done ==> met == old(met) + [Met(tree, child.stat)]
    {
      if !child.entered { return Refused(HostError); }
      o := AddCounted(child.stat);
      if o == Done && !child.left { o := Refused(HostError); }
    }

    /** `visit`: succeeds exactly if no check fails and every entry is admissible, and
        has then met exactly the entries of the tree, in order. */
    method Visit(t: Tree, depth: nat) returns (o: Outcome)
      requires Valid() && Counted() && t.stat.kind == Directory
      modifies this`sums, this`kinds, this`links, this`order, this`met
      ensures Valid() && Grew(old(met), met, tree) && (o == Done ==> Counted())
      ensures o == Done <==> Steady(t, depth) && Admissible(old(met) + Tagged(tree, Entries(t)), linkLimit)
      ensures o == Done ==> met == old(met) + Tagged(tree, Entries(t))
      decreases t, 0
    {
      if depth > MAX_DEPTH || !t.entered { return Refused(HostError); }
      o := AddCounted(t.stat);
      FirstOfVisit(old(met), tree, t, linkLimit);
      if o != Done { return; }
      ghost var now := met;
      o := VisitEntries(t, depth, old(met));
      GrewOn(old(met), now, met, tree);
      if o == Done && !t.left { o := Refused(HostError); }
    }

    /** The entries of a directory that was itself let in. */
    method VisitEntries(t: Tree, depth: nat, ghost before: seq<Met>) returns (o: Outcome)
      requires Valid() && Counted() && t.stat.kind == Directory && met == before + MetUpTo(tree, t, 0)
      modifies this`sums, this`kinds, this`links, this`order, this`met
      ensures Valid() && Grew(old(met), met, tree) && (o == Done ==> Counted())
      ensures o == Done <==> SteadyEntries(t, |t.entries|, depth + 1) && Admissible(before + Tagged(tree, Entries(t)), linkLimit)
      ensures o == Done ==> met == before + Tagged(tree, Entries(t))
      decreases t, 0, 0
    {
      o := Done;
      for n := 0 to |t.entries|
        invariant Valid() && Counted() && met == before + MetUpTo(tree, t, n) && SteadyEntries(t, n, depth + 1)
        invariant Grew(old(met), met, tree) && o == Done
      {
        NextOfVisit(before, tree, t, n, linkLimit);
        ghost var now := met;
        o := VisitEntry(t.entries[n], depth + 1);
        GrewOn(old(met), now, met, tree);
        if o != Done { return; }
      }
      WholeVisit(tree, t);
    }

    /** Counters of the next tree start at nothing; the link table is shared. */
    method NextTree()
      requires Valid()
      modifies this`tree, this`sums, this`kinds
      ensures Valid() && Counted() && tree == old(tree) + 1
    {
      TurnToTree(met, tree, sums, links, order);
      tree := tree + 1;
      sums := map[Blocks := 0, Bytes := 0, Objects := 0];
      kinds := map[Directory := 0, Regular := 0, Symlink := 0];
    }
  }

  lemma TurnToTree(met: seq<Met>, tree: nat, sums: map<Weight, int>, links: map<Key, Link>, order: seq<Key>)
    requires Booked(met, tree, sums, links, order)
    ensures Booked(met, tree + 1, map[Blocks := 0, Bytes := 0, Objects := 0], links, order)
    ensures KindsOf(met, tree + 1) == map[Directory := 0, Regular := 0, Symlink := 0]
  {
    assert Asked(met);
    NoneSummed(met, tree);
    NoneOfKind(met, tree + 1, Directory);
    NoneOfKind(met, tree + 1, Regular);
    NoneOfKind(met, tree + 1, Symlink);
  }

  lemma NoneSummed(met: seq<Met>, tree: nat)
    requires forall i :: 0 <= i < |met| ==> met[i].tree <= tree
    ensures Summed(met, tree + 1, map[Blocks := 0, Bytes := 0, Objects := 0])
  {
    NotYetMet(met, tree + 1, Blocks);
    NotYetMet(met, tree + 1, Bytes);
    NotYetMet(met, tree + 1, Objects);
  }

  /** Only entries of the current tree were added. */
  ghost predicate Grew(before: seq<Met>, after: seq<Met>, tree: nat) {
    before <= after && forall i :: |before| <= i < |after| ==> after[i].tree == tree
  }

  lemma GrewOn(a: seq<Met>, b: seq<Met>, c: seq<Met>, tree: nat)
    requires Grew(a, b, tree) && Grew(b, c, tree)
    ensures Grew(a, c, tree)
  {
    forall i | |a| <= i < |c| ensures c[i].tree == tree {
      assert i < |b| ==> c[i] == b[i];
    }
  }

  /** The register answers whether an entry agrees with the ones before it. */
  lemma RegisterAgrees(met: seq<Met>, links: map<Key, Link>, s: Stat)
    requires LinksExact(met, links) && Linked(s)
    ensures Agrees(met, s) <==> s.key in links ==> links[s.key].fact == FactOf(s)
  {
    if s.key in links {
      var i :| 0 <= i < |met| && Linked(met[i].stat) && met[i].stat.key == s.key;
      assert links[s.key].fact == FactOf(met[i].stat);
    }
  }

  /** What the register decides about one more name. */
  lemma EnrolDecides(met: seq<Met>, links: map<Key, Link>, order: seq<Key>, tree: nat, s: Stat, limit: nat)
    requires Admissible(met, limit) && Filed(met, links, order) && Linked(s) && Usable(s)
    ensures MetLink(met, s.key) <==> s.key in links
    ensures Admissible(met + [Met(tree, s)], limit) <==> if s.key in links then links[s.key].fact == FactOf(s) else |links| < limit
  {
    assert Asked(met);
    AdmissibleNext(met, Met(tree, s), limit);
    RegisterAgrees(met, links, s);
  }

  lemma UnlinkedStep(met: seq<Met>, links: map<Key, Link>, order: seq<Key>, m: Met)
    requires Filed(met, links, order) && !Linked(m.stat)
    ensures Filed(met + [m], links, order)
  {
    assert Asked(met);
    UnlinkedKeepsLinks(met, links, m);
    OrderNext(met, m);
  }

  lemma EnrolStep(met: seq<Met>, links: map<Key, Link>, order: seq<Key>, tree: nat, s: Stat)
    requires Filed(met, links, order) && Linked(s) && (s.key in links ==> links[s.key].fact == FactOf(s))
    ensures Filed(met + [Met(tree, s)], Registered(links, Met(tree, s)), if s.key in links then order else order + [s.key])
  {
    assert Asked(met);
    RegisteredExact(met, links, Met(tree, s));
    OrderNext(met, Met(tree, s));
  }

  lemma {:induction false} NoneOfKind(met: seq<Met>, tree: nat, kind: Kind)
    requires forall i :: 0 <= i < |met| ==> met[i].tree < tree
    ensures KindCount(met, tree, kind) == 0
  {
    if met != [] { NoneOfKind(met[..|met| - 1], tree, kind); }
  }

  /** A visit that fails on its first entry fails as a whole. */
  lemma FirstOfVisit(before: seq<Met>, tree: nat, t: Tree, limit: nat)
    requires t.stat.kind == Directory
    ensures before + [Met(tree, t.stat)] == before + MetUpTo(tree, t, 0)
    ensures Admissible(before + Tagged(tree, Entries(t)), limit) ==> Admissible(before + [Met(tree, t.stat)], limit)
  {
    var rest := Tagged(tree, EntriesOf(t.entries));
    assert before + Tagged(tree, Entries(t)) == (before + [Met(tree, t.stat)]) + rest;
    if Admissible(before + Tagged(tree, Entries(t)), limit) { AdmissiblePrefix(before + [Met(tree, t.stat)], rest, limit); }
  }

  /** What a whole visit meets, cut after its first n entries. */
  lemma VisitSplit(before: seq<Met>, tree: nat, t: Tree, n: nat)
    requires t.stat.kind == Directory && n <= |t.entries|
    ensures before + Tagged(tree, Entries(t)) == (before + MetUpTo(tree, t, n)) + Tagged(tree, EntriesOf(t.entries[n..]))
  {
    EntriesSplit(t.entries, n);
    var head, tail := [t.stat] + EntriesOf(t.entries[..n]), EntriesOf(t.entries[n..]);
    assert Entries(t) == head + tail;
    TaggedAppend(tree, head, tail);
  }

  /** A visit that fails on a later entry fails as a whole. */
  lemma NextOfVisit(before: seq<Met>, tree: nat, t: Tree, n: nat, limit: nat)
    requires t.stat.kind == Directory && n < |t.entries|
    ensures Admissible(before + Tagged(tree, Entries(t)), limit) ==> Admissible(before + MetUpTo(tree, t, n + 1), limit)
    ensures before + MetUpTo(tree, t, n) + Tagged(tree, Entries(t.entries[n])) == before + MetUpTo(tree, t, n + 1)
  {
    MetNext(before, tree, t, n);
    VisitSplit(before, tree, t, n + 1);
    var now, tail := before + MetUpTo(tree, t, n + 1), Tagged(tree, EntriesOf(t.entries[n + 1..]));
    if Admissible(now + tail, limit) { AdmissiblePrefix(now, tail, limit); }
  }

  lemma {:induction false} EntriesSplit(ts: seq<Tree>, n: nat)
    requires n <= |ts|
    ensures EntriesOf(ts) == EntriesOf(ts[..n]) + EntriesOf(ts[n..])
  {
    if n == 0 {
      assert ts[..0] == [] && ts[0..] == ts;
    } else {
      var rest := ts[1..];
      EntriesSplit(rest, n - 1);
      assert rest[n - 1..] == ts[n..];
      assert EntriesOf(ts[..n]) == Entries(ts[0]) + EntriesOf(rest[..n - 1]) by { assert ts[..n][1..] == rest[..n - 1]; }
    }
  }

  function Tagged(tree: nat, stats: seq<Stat>): (r: seq<Met>)
    ensures |r| == |stats| && forall i :: 0 <= i < |r| ==> r[i] == Met(tree, stats[i])
  {
    seq(|stats|, i requires 0 <= i < |stats| => Met(tree, stats[i]))
  }

  lemma TaggedAppend(tree: nat, a: seq<Stat>, b: seq<Stat>)
    ensures Tagged(tree, a + b) == Tagged(tree, a) + Tagged(tree, b)
  {
  }

  lemma {:induction false} EntriesNext(ts: seq<Tree>, n: nat)
    requires n < |ts|
    ensures EntriesOf(ts[..n + 1]) == EntriesOf(ts[..n]) + Entries(ts[n])
  {
    if n == 0 {
      assert ts[..1] == [ts[0]] && ts[..0] == [];
    } else {
      EntriesNext(ts[1..], n - 1);
      assert ts[..n + 1][1..] == ts[1..][..n] && ts[..n][1..] == ts[1..][..n - 1];
    }
  }

  /** What a visit has met after its first n entries. */
  function MetUpTo(tree: nat, t: Tree, n: nat): (r: seq<Met>)
    requires n <= |t.entries|
    ensures forall i :: 0 <= i < |r| ==> r[i].tree == tree
  {
    Tagged(tree, [t.stat] + EntriesOf(t.entries[..n]))
  }

  lemma WholeVisit(tree: nat, t: Tree)
    requires t.stat.kind == Directory
    ensures MetUpTo(tree, t, |t.entries|) == Tagged(tree, Entries(t))
  {
    assert t.entries[..|t.entries|] == t.entries;
  }

  lemma OneEntry(tree: nat, t: Tree)
    requires t.stat.kind != Directory
    ensures Tagged(tree, Entries(t)) == [Met(tree, t.stat)]
  {
    assert Entries(t) == [t.stat];
  }

  lemma MetNext(before: seq<Met>, tree: nat, t: Tree, n: nat)
    requires n < |t.entries|
    ensures before + MetUpTo(tree, t, n) + Tagged(tree, Entries(t.entries[n])) == before + MetUpTo(tree, t, n + 1)
  {
    EntriesNext(t.entries, n);
    assert [t.stat] + EntriesOf(t.entries[..n + 1]) == [t.stat] + EntriesOf(t.entries[..n]) + Entries(t.entries[n]);
    TaggedAppend(tree, [t.stat] + EntriesOf(t.entries[..n]), Entries(t.entries[n]));
  }

  lemma {:induction false} NotYetMet(met: seq<Met>, tree: nat, w: Weight)
    requires forall i :: 0 <= i < |met| ==> met[i].tree < tree
    ensures TreeTotal(met, tree, w) == 0
  {
    if met != [] { NotYetMet(met[..|met| - 1], tree, w); }
  }

  // ---- the partition report ------------------------------------------------

  /** A selected tree: whether its root was captured, and whether it still was
      the captured root at the end. */
  datatype Item = Item(observed: bool, stillObserved: bool, tree: Tree)

  datatype Measurement = Measurement(totals: map<Weight, int>, kinds: map<Kind, nat>)

  datatype Row = Row(observed: bool, measurement: Option<Measurement>)

  function AllMet(items: seq<Item>): (r: seq<Met>)
    ensures forall i :: 0 <= i < |r| ==> r[i].tree < |items|
  {
    if items == [] then []
    else AllMet(items[..|items| - 1]) + Tagged(|items| - 1, Entries(items[|items| - 1].tree))
  }

  function TotalsOf(met: seq<Met>, tree: nat): (r: map<Weight, int>) {
    map[Blocks := TreeTotal(met, tree, Blocks), Bytes := TreeTotal(met, tree, Bytes), Objects := TreeTotal(met, tree, Objects)]
  }

  function MeasureOf(met: seq<Met>, tree: nat): (r: Measurement) {
    Measurement(TotalsOf(met, tree), KindsOf(met, tree))
  }

  /** Later entries of other trees change nothing. */
  lemma {:induction false} TreeTotalOther(met: seq<Met>, more: seq<Met>, tree: nat, w: Weight)
    requires forall i :: 0 <= i < |more| ==> more[i].tree != tree
    ensures TreeTotal(met + more, tree, w) == TreeTotal(met, tree, w)
  {
    if more == [] {
      assert met + more == met;
    } else {
      var n := |more| - 1;
      assert (met + more)[..|met| + n] == met + more[..n];
      TreeTotalOther(met, more[..n], tree, w);
    }
  }

  lemma {:induction false} KindsOther(met: seq<Met>, more: seq<Met>, tree: nat, kind: Kind)
    requires forall i :: 0 <= i < |more| ==> more[i].tree != tree
    ensures KindCount(met + more, tree, kind) == KindCount(met, tree, kind)
  {
    if more == [] {
      assert met + more == met;
    } else {
      var n := |more| - 1;
      assert (met + more)[..|met| + n] == met + more[..n];
      KindsOther(met, more[..n], tree, kind);
    }
  }

  lemma MeasureOther(met: seq<Met>, more: seq<Met>, tree: nat)
    requires forall i :: 0 <= i < |more| ==> more[i].tree != tree
    ensures MeasureOf(met + more, tree) == MeasureOf(met, tree)
  {
    TreeTotalOther(met, more, tree, Blocks);
    TreeTotalOther(met, more, tree, Bytes);
    TreeTotalOther(met, more, tree, Objects);
    KindsOther(met, more, tree, Directory);
    KindsOther(met, more, tree, Regular);
    KindsOther(met, more, tree, Symlink);
  }

  /** Every tree was captured, no check fails in it, and all entries are admissible. */
  ghost predicate Sound(items: seq<Item>, limit: nat) {
    Ready(items) && Admissible(AllMet(items), limit)
  }

  predicate Ready(items: seq<Item>) {
    forall k :: 0 <= k < |items| ==> items[k].observed && Steady(items[k].tree, 0)
  }

  ghost predicate AllObserved(rows: seq<Row>) {
    forall k :: 0 <= k < |rows| ==> rows[k].observed
  }

  /** The rows so far: a measured tree has its totals; every tree was measured exactly
      if the items are sound, and then exactly their entries were met. */
  ghost predicate Measured(items: seq<Item>, rows: seq<Row>, met: seq<Met>, limit: nat) {
    && |rows| <= |items|
    && (forall k :: 0 <= k < |rows| ==> rows[k].measurement == if rows[k].observed then Some(MeasureOf(met, k)) else None)
    && (AllObserved(rows) <==> Sound(items[..|rows|], limit))
    && (AllObserved(rows) ==> met == AllMet(items[..|rows|]))
  }

  /** What one tree adds. */
  ghost predicate Step(item: Item, n: nat, row: Row, met: seq<Met>, after: seq<Met>, limit: nat) {
    && Grew(met, after, n)
    && (row.observed <==> item.observed && Steady(item.tree, 0) && Admissible(met + Tagged(n, Entries(item.tree)), limit))
    && (row.observed ==> after == met + Tagged(n, Entries(item.tree)))
    && row.measurement == if row.observed then Some(MeasureOf(after, n)) else None
  }

  lemma AllMetNext(items: seq<Item>, n: nat)
    requires n < |items|
    ensures AllMet(items[..n + 1]) == AllMet(items[..n]) + Tagged(n, Entries(items[n].tree))
  {
    assert items[..n + 1][..n] == items[..n];
  }

  lemma ReadyNext(items: seq<Item>, n: nat)
    requires n < |items|
    ensures Ready(items[..n + 1]) <==> Ready(items[..n]) && items[n].observed && Steady(items[n].tree, 0)
  {
    var now, next := items[..n], items[..n + 1];
    assert next[n] == items[n] && forall k :: 0 <= k < n ==> next[k] == now[k];
    if Ready(next) {
      forall k | 0 <= k < n ensures now[k].observed && Steady(now[k].tree, 0) { assert next[k] == now[k]; }
    }
  }

  lemma SoundNext(items: seq<Item>, n: nat, limit: nat)
    requires n < |items|
    ensures Sound(items[..n + 1], limit) <==>
            (Sound(items[..n], limit) && items[n].observed && Steady(items[n].tree, 0) && Admissible(AllMet(items[..n + 1]), limit))
  {
    ReadyNext(items, n);
    AllMetNext(items, n);
    var before, more := AllMet(items[..n]), Tagged(n, Entries(items[n].tree));
    if Admissible(before + more, limit) { AdmissiblePrefix(before, more, limit); }
  }

  /** Rows already measured keep their measurements. */
  lemma RowsKept(rows: seq<Row>, row: Row, met: seq<Met>, after: seq<Met>)
    requires forall k :: 0 <= k < |rows| ==> rows[k].measurement == if rows[k].observed then Some(MeasureOf(met, k)) else None
    requires Grew(met, after, |rows|) && row.measurement == if row.observed then Some(MeasureOf(after, |rows|)) else None
    ensures forall k :: 0 <= k <= |rows| ==>
              (rows + [row])[k].measurement == if (rows + [row])[k].observed then Some(MeasureOf(after, k)) else None
  {
    var all := rows + [row];
    forall k | 0 <= k <= |rows|
      ensures all[k].measurement == if all[k].observed then Some(MeasureOf(after, k)) else None
    {
      if k < |rows| {
        assert after == met + after[|met|..] && all[k] == rows[k];
        MeasureOther(met, after[|met|..], k);
      }
    }
  }

  lemma ObservedNextRow(rows: seq<Row>, row: Row)
    ensures AllObserved(rows + [row]) <==> AllObserved(rows) && row.observed
  {
    var all := rows + [row];
    assert all[|rows|] == row && forall k :: 0 <= k < |rows| ==> all[k] == rows[k];
  }

  lemma SoundStep(items: seq<Item>, n: nat, all: bool, row: Row, met: seq<Met>, after: seq<Met>, limit: nat)
    requires n < |items| && (all <==> Sound(items[..n], limit)) && (all ==> met == AllMet(items[..n]))
    requires Step(items[n], n, row, met, after, limit)
    ensures all && row.observed <==> Sound(items[..n + 1], limit)
    ensures all && row.observed ==> after == AllMet(items[..n + 1])
  {
    SoundNext(items, n, limit);
    AllMetNext(items, n);
  }

  lemma MeasuredNext(items: seq<Item>, rows: seq<Row>, row: Row, met: seq<Met>, after: seq<Met>, limit: nat)
    requires Measured(items, rows, met, limit) && |rows| < |items| && Step(items[|rows|], |rows|, row, met, after, limit)
    ensures Measured(items, rows + [row], after, limit)
  {
    var n, all := |rows|, rows + [row];
    assert forall k :: 0 <= k < |all| ==> all[k].measurement == if all[k].observed then Some(MeasureOf(after, k)) else None by {
      RowsKept(rows, row, met, after);
    }
    assert AllObserved(all) <==> AllObserved(rows) && row.observed by { ObservedNextRow(rows, row); }
    assert items[..|all|] == items[..n + 1];
    SoundStep(items, n, AllObserved(rows), row, met, after, limit);
  }

  lemma SumsAreTotals(met: seq<Met>, tree: nat, sums: map<Weight, int>)
    requires Totalled(met, tree, sums)
    ensures sums == TotalsOf(met, tree)
  {
    assert Asked(met);
  }

  /** One tree of `allocation_observation`, after the walk has turned to it. */
  method ObserveTree(walk: Walk, items: seq<Item>, n: nat) returns (row: Row)
    requires walk.Valid() && walk.Counted() && n < |items| && walk.tree == n && items[n].tree.stat.kind == Directory
    modifies walk`sums, walk`kinds, walk`links, walk`order, walk`met
    ensures walk.Valid() && Step(items[n], n, row, old(walk.met), walk.met, walk.linkLimit)
  {
    row := Row(false, None);
    if items[n].observed {
      var o := walk.Visit(items[n].tree, 0);
      if o == Done {
        SumsAreTotals(walk.met, n, walk.sums);
        row := Row(true, Some(Measurement(walk.sums, walk.kinds)));
      }
    }
  }

  /** `allocation_observation`: walks the trees one after another. */
  method Observe(items: seq<Item>, linkLimit: nat) returns (rows: seq<Row>, walk: Walk)
    requires forall k :: 0 <= k < |items| ==> items[k].tree.stat.kind == Directory
    ensures fresh(walk) && walk.Valid() && walk.linkLimit == linkLimit && |rows| == |items|
    ensures Measured(items, rows, walk.met, linkLimit)
  {
    walk := new Walk(linkLimit);
    rows := [];
    for n := 0 to |items|
      invariant fresh(walk) && walk.Valid() && walk.linkLimit == linkLimit && |rows| == n
      invariant Measured(items, rows, walk.met, linkLimit)
      invariant if n == 0 then walk.tree == 0 && walk.met == [] && walk.Counted() else walk.tree == n - 1
    {
      if n > 0 { walk.NextTree(); }
      ghost var before := walk.met;
      var row := ObserveTree(walk, items, n);
      MeasuredNext(items, rows, row, before, walk.met, linkLimit);
      rows := rows + [row];
    }
  }

  // ---- the hardlink report -------------------------------------------------

  const CROSSLINK_BYTES := 1024 * 1024

  datatype Member = Member(tree: nat, observedLinks: nat)

  datatype Crosslink = Crosslink(key: Key, fact: Fact, members: seq<Member>)

  /** The length of a row as it is written out. */
  type Size = Crosslink -> nat

  /** The members of a register row in tree order. */
  function MembersUpTo(members: map<nat, nat>, n: nat): (r: seq<Member>) {
    if n == 0 then []
    else if n - 1 in members then MembersUpTo(members, n - 1) + [Member(n - 1, members[n - 1])]
    else MembersUpTo(members, n - 1)
  }

  /** The trees that met names of object k, each with how many. */
  function NamesUpTo(met: seq<Met>, n: nat, k: Key): (r: seq<Member>) {
    if n == 0 then []
    else if Names(met, n - 1, k) > 0 then NamesUpTo(met, n - 1, k) + [Member(n - 1, Names(met, n - 1, k))]
    else NamesUpTo(met, n - 1, k)
  }

  /** Each tree that met a name is listed once, in order, with its count. */
  lemma {:induction false} NamesListed(met: seq<Met>, n: nat, k: Key)
    ensures forall m :: m in NamesUpTo(met, n, k) <==> m.tree < n && m.observedLinks == Names(met, m.tree, k) > 0
    ensures forall i, j :: 0 <= i < j < |NamesUpTo(met, n, k)| ==> NamesUpTo(met, n, k)[i].tree < NamesUpTo(met, n, k)[j].tree
  {
    if n > 0 {
      NamesListed(met, n - 1, k);
      var before := NamesUpTo(met, n - 1, k);
      assert forall i :: 0 <= i < |before| ==> before[i] in before;
    }
  }

  lemma {:induction false} MembersAreNames(met: seq<Met>, links: map<Key, Link>, k: Key, n: nat)
    requires LinksExact(met, links) && k in links
    ensures MembersUpTo(links[k].members, n) == NamesUpTo(met, n, k)
  {
    if n > 0 { MembersAreNames(met, links, k, n - 1); }
  }

  function ObservedSum(members: seq<Member>): (n: nat) {
    if members == [] then 0 else ObservedSum(members[..|members| - 1]) + members[|members| - 1].observedLinks
  }

  lemma ObservedNext(members: seq<Member>, m: Member)
    ensures ObservedSum(members + [m]) == ObservedSum(members) + m.observedLinks
  {
    assert (members + [m])[..|members|] == members;
  }

  /** The observed links of an object add up to the entries visited under its names. */
  lemma {:induction false} ObservedAddsUp(met: seq<Met>, n: nat, k: Key)
    ensures ObservedSum(NamesUpTo(met, n, k)) == NamesTotal(met, n, k)
  {
    if n > 0 {
      ObservedAddsUp(met, n - 1, k);
      ObservedNext(NamesUpTo(met, n - 1, k), Member(n - 1, Names(met, n - 1, k)));
    }
  }

  /** The facts of an object's first name. */
  function FirstFact(met: seq<Met>, k: Key): (fact: Fact)
    requires MetLink(met, k)
  {
    var init := met[..|met| - 1];
    if MetLink(init, k) then FirstFact(init, k) else FactOf(met[|met| - 1].stat)
  }

  lemma {:induction false} FirstFactMet(met: seq<Met>, k: Key) returns (i: nat)
    requires MetLink(met, k)
    ensures i < |met| && Linked(met[i].stat) && met[i].stat.key == k && FirstFact(met, k) == FactOf(met[i].stat)
    ensures !MetLink(met[..i], k)
  {
    var init := met[..|met| - 1];
    if MetLink(init, k) {
      i := FirstFactMet(init, k);
      assert met[..i] == init[..i];
    } else {
      i := |met| - 1;
      assert forall j :: 0 <= j < i ==> init[j] == met[j];
    }
  }

  function CrosslinkOf(met: seq<Met>, n: nat, k: Key): (c: Crosslink)
    requires MetLink(met, k)
  {
    Crosslink(k, FirstFact(met, k), NamesUpTo(met, n, k))
  }

  /** One row for each linked object, in the order they were met. */
  function CrosslinksOf(met: seq<Met>, n: nat): (r: seq<Crosslink>)
    ensures |r| == |LinkOrder(met)| && forall i :: 0 <= i < |r| ==> r[i].key == LinkOrder(met)[i]
  {
    seq(|LinkOrder(met)|, i requires 0 <= i < |LinkOrder(met)| => CrosslinkOf(met, n, LinkOrder(met)[i]))
  }

  function SizeOf(rows: seq<Crosslink>, size: Size): (n: nat) {
    if rows == [] then 0 else SizeOf(rows[..|rows| - 1], size) + size(rows[|rows| - 1])
  }

  lemma SizeNext(rows: seq<Crosslink>, row: Crosslink, size: Size)
    ensures SizeOf(rows + [row], size) == SizeOf(rows, size) + size(row)
  {
    assert (rows + [row])[..|rows|] == rows;
  }

  lemma SizeTo(all: seq<Crosslink>, i: nat, size: Size)
    requires i < |all|
    ensures all[..i + 1] == all[..i] + [all[i]] && SizeOf(all[..i + 1], size) == SizeOf(all[..i], size) + size(all[i])
  {
    SizeNext(all[..i], all[i], size);
    assert all[..i + 1] == all[..i] + [all[i]];
  }

  lemma RegisterRow(met: seq<Met>, links: map<Key, Link>, k: Key, n: nat)
    requires LinksExact(met, links) && k in links
    ensures MetLink(met, k) && LinkRow(k, links[k], n) == CrosslinkOf(met, n, k)
  {
    MembersAreNames(met, links, k, n);
    var _ := FirstFactMet(met, k);
  }

  function LinkRow(k: Key, link: Link, n: nat): (c: Crosslink) {
    Crosslink(k, link.fact, MembersUpTo(link.members, n))
  }

  /** The register written out, row by row. */
  function RegisterRows(links: map<Key, Link>, order: seq<Key>, n: nat): (r: seq<Crosslink>)
    requires forall k :: k in order ==> k in links
    ensures |r| == |order| && forall i :: 0 <= i < |r| ==> r[i] == LinkRow(order[i], links[order[i]], n)
  {
    seq(|order|, i requires 0 <= i < |order| => LinkRow(order[i], links[order[i]], n))
  }

  lemma RegisterRowsAre(met: seq<Met>, links: map<Key, Link>, order: seq<Key>, n: nat)
    requires InRegister(met, links, order)
    ensures (forall k :: k in order ==> k in links) && RegisterRows(links, order, n) == CrosslinksOf(met, n)
  {
    forall i | 0 <= i < |order| ensures RegisterRows(links, order, n)[i] == CrosslinksOf(met, n)[i] {
      RegisterRow(met, links, order[i], n);
    }
  }

  ghost predicate Among(rows: seq<Crosslink>, all: seq<Crosslink>) {
    forall c :: c in rows ==> c in all
  }

  /** Of the first i rows those that fit are written out, and the others counted. */
  ghost predicate Written(all: seq<Crosslink>, i: nat, rows: seq<Crosslink>, omitted: nat, size: Size)
    requires i <= |all|
  {
    && |rows| + omitted == i && SizeOf(rows, size) <= CROSSLINK_BYTES && Among(rows, all)
    && (omitted == 0 ==> rows == all[..i]) && (omitted > 0 ==> SizeOf(all[..i], size) > CROSSLINK_BYTES)
  }

  lemma WrittenAll(all: seq<Crosslink>, rows: seq<Crosslink>, omitted: nat, size: Size)
    requires Written(all, |all|, rows, omitted, size)
    ensures (omitted == 0 <==> SizeOf(all, size) <= CROSSLINK_BYTES) && (omitted == 0 ==> rows == all)
  {
    assert all[..|all|] == all;
  }

  lemma WriteNext(all: seq<Crosslink>, i: nat, rows: seq<Crosslink>, omitted: nat, size: Size)
    requires i < |all| && Written(all, i, rows, omitted, size)
    ensures SizeOf(rows + [all[i]], size) == SizeOf(rows, size) + size(all[i])
    ensures if SizeOf(rows, size) + size(all[i]) > CROSSLINK_BYTES then Written(all, i + 1, rows, omitted + 1, size)
            else Written(all, i + 1, rows + [all[i]], omitted, size)
  {
    SizeTo(all, i, size);
    SizeNext(rows, all[i], size);
  }

  method WriteRows(all: seq<Crosslink>, size: Size) returns (rows: seq<Crosslink>, omitted: nat)
    ensures Written(all, |all|, rows, omitted, size)
  {
    rows, omitted := [], 0;
    var written := 0;
    for i := 0 to |all|
      invariant Written(all, i, rows, omitted, size) && written == SizeOf(rows, size)
    {
      WriteNext(all, i, rows, omitted, size);
      if written + size(all[i]) > CROSSLINK_BYTES {
        omitted := omitted + 1;
      } else {
        written, rows := written + size(all[i]), rows + [all[i]];
      }
    }
  }

  /** The rows of the register, in the order they were entered. */
  method Crosslinks(links: map<Key, Link>, order: seq<Key>, n: nat, size: Size) returns (rows: seq<Crosslink>, omitted: nat)
    requires forall k :: k in order ==> k in links
    ensures |rows| + omitted == |order| && SizeOf(rows, size) <= CROSSLINK_BYTES
    ensures Among(rows, RegisterRows(links, order, n))
    ensures omitted == 0 <==> SizeOf(RegisterRows(links, order, n), size) <= CROSSLINK_BYTES
    ensures omitted == 0 ==> rows == RegisterRows(links, order, n)
  {
    var all := RegisterRows(links, order, n);
    rows, omitted := WriteRows(all, size);
    WrittenAll(all, rows, omitted, size);
  }

  // ---- the report ----------------------------------------------------------

  function RowTotal(rows: seq<Row>, w: Weight): (n: int) {
    if rows == [] then 0
    else
      var m := rows[|rows| - 1].measurement;
      RowTotal(rows[..|rows| - 1], w) + (if m.Some? && w in m.value.totals then m.value.totals[w] else 0)
  }

  lemma {:induction false} RowsAddUp(rows: seq<Row>, met: seq<Met>, w: Weight)
    requires forall k :: 0 <= k < |rows| ==> rows[k].measurement == Some(MeasureOf(met, k))
    ensures RowTotal(rows, w) == PartitionTotal(met, |rows|, w)
  {
    if rows != [] { RowsAddUp(rows[..|rows| - 1], met, w); }
  }

  /** When the report is complete: a final binding, roots that stayed, sound items, and
      crosslinks that fit. */
  ghost predicate Completes(items: seq<Item>, linkLimit: nat, finalBinding: bool, size: Size) {
    && finalBinding && Sound(items, linkLimit) && (forall k :: 0 <= k < |items| ==> items[k].stillObserved)
    && SizeOf(CrosslinksOf(AllMet(items), |items|), size) <= CROSSLINK_BYTES
  }

  /** An object has a row exactly if some entry under its key is no directory and has
      further links. */
  lemma CrosslinkFor(met: seq<Met>, n: nat, k: Key)
    ensures (exists c :: c in CrosslinksOf(met, n) && c.key == k) <==> LinkPlaces(met, k) != {}
  {
    if c :| c in CrosslinksOf(met, n) && c.key == k {
      var i :| 0 <= i < |CrosslinksOf(met, n)| && CrosslinksOf(met, n)[i] == c;
      assert LinkOrder(met)[i] == k && k in LinkOrder(met);
      var j :| 0 <= j < |met| && met[j].stat.kind != Directory && met[j].stat.nlink > 1 && met[j].stat.key == k;
      assert j in LinkPlaces(met, k);
    }
    if LinkPlaces(met, k) != {} {
      var j :| j in LinkPlaces(met, k);
      assert MetLink(met, k) && k in LinkOrder(met);
      var i :| 0 <= i < |LinkOrder(met)| && LinkOrder(met)[i] == k;
      assert CrosslinksOf(met, n)[i].key == k;
    }
  }

  /** The observed links of a reported object are its visited entries. */
  lemma LinksAreVisits(met: seq<Met>, n: nat, c: Crosslink)
    requires c in CrosslinksOf(met, n) && forall i :: 0 <= i < |met| ==> met[i].tree < n
    ensures ObservedSum(c.members) == |LinkPlaces(met, c.key)|
  {
    ObservedAddsUp(met, n, c.key);
    NamesAddUp(met, n, c.key);
    NameCountIsPlaces(met, c.key);
  }

  /** Everything `allocation_observation` returns. */
  method Survey(items: seq<Item>, linkLimit: nat, size: Size) returns (rows: seq<Row>, crosslinks: seq<Crosslink>, omitted: nat)
    requires forall k :: 0 <= k < |items| ==> items[k].tree.stat.kind == Directory
    ensures |rows| == |items| && (AllObserved(rows) <==> Sound(items, linkLimit))
    ensures AllObserved(rows) ==> forall k :: 0 <= k < |rows| ==> rows[k].measurement == Some(MeasureOf(AllMet(items), k))
    ensures AllObserved(rows) ==> (omitted == 0 <==> SizeOf(CrosslinksOf(AllMet(items), |items|), size) <= CROSSLINK_BYTES)
    ensures AllObserved(rows) && omitted == 0 ==> crosslinks == CrosslinksOf(AllMet(items), |items|)
  {
    var walk;
    rows, walk := Observe(items, linkLimit);
    assert items[..|items|] == items;
    assert Asked(walk.met);
    RegisterRowsAre(walk.met, walk.links, walk.order, |items|);
    crosslinks, omitted := Crosslinks(walk.links, walk.order, |items|, size);
  }

  /** What a complete report adds up to. */
  lemma ReportAddsUp(rows: seq<Row>, met: seq<Met>, crosslinks: seq<Crosslink>)
    requires forall k :: 0 <= k < |rows| ==> rows[k].measurement == Some(MeasureOf(met, k))
    requires crosslinks == CrosslinksOf(met, |rows|) && forall i :: 0 <= i < |met| ==> met[i].tree < |rows|
    ensures OneName(met) ==> forall w :: RowTotal(rows, w) == SumOf(Reached(met), w)
    ensures forall c :: c in crosslinks ==> ObservedSum(c.members) == |LinkPlaces(met, c.key)|
    ensures forall k :: (exists c :: c in crosslinks && c.key == k) <==> LinkPlaces(met, k) != {}
  {
    forall k ensures (exists c :: c in crosslinks && c.key == k) <==> LinkPlaces(met, k) != {} { CrosslinkFor(met, |rows|, k); }
    forall w | OneName(met) ensures RowTotal(rows, w) == SumOf(Reached(met), w) {
      RowsAddUp(rows, met, w);
      TotalsAreOfDistinctObjects(met, |rows|, w);
    }
    forall c | c in crosslinks ensures ObservedSum(c.members) == |LinkPlaces(met, c.key)| { LinksAreVisits(met, |rows|, c); }
  }

  /** The end of `main`: all rows are reported, or every row is withheld. What is
      reported adds up to the weight of the distinct objects reached, and the links
      of every hardlinked object to its visited entries. */
  method Report(items: seq<Item>, linkLimit: nat, finalBinding: bool, size: Size)
    returns (rows: seq<Row>, complete: bool, crosslinks: seq<Crosslink>, omitted: nat)
    requires forall k :: 0 <= k < |items| ==> items[k].tree.stat.kind == Directory
    ensures |rows| == |items| && (complete <==> Completes(items, linkLimit, finalBinding, size))
    ensures !complete ==> forall k :: 0 <= k < |rows| ==> rows[k] == Row(false, None)
    ensures complete ==> forall k :: 0 <= k < |rows| ==> rows[k] == Row(true, Some(MeasureOf(AllMet(items), k)))
    ensures complete && OneName(AllMet(items)) ==> forall w :: RowTotal(rows, w) == SumOf(Reached(AllMet(items)), w)
    ensures complete ==> omitted == 0 && crosslinks == CrosslinksOf(AllMet(items), |items|)
    ensures complete ==> forall k :: (exists c :: c in crosslinks && c.key == k) <==> LinkPlaces(AllMet(items), k) != {}
    ensures complete ==> forall c :: c in crosslinks ==> ObservedSum(c.members) == |LinkPlaces(AllMet(items), c.key)|
  {
    rows, crosslinks, omitted := Survey(items, linkLimit, size);
    complete := finalBinding && omitted == 0 && forall k :: 0 <= k < |rows| ==> rows[k].observed && items[k].stillObserved;
    assert complete <==> finalBinding && omitted == 0 && AllObserved(rows) && forall k :: 0 <= k < |items| ==> items[k].stillObserved;
    if complete {
      ReportAddsUp(rows, AllMet(items), crosslinks);
    } else {
      rows := seq(|rows|, i => Row(false, None));
    }
  }
}
