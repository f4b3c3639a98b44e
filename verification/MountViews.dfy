/** Namespace views: every view books its descriptors and members, and gives all
    of it back whichever step of its life fails. */
module MountViews {
  import opened Text
  import opened Ledger
  import opened MountScan
  import opened MountTables
  import opened MountText

  const VIEW := 1024
  const MEMBER := 512
  const PAIR := 256
  const MAX_VIEWS := 256
  const MAX_PAIRS := 16384
  const VIEW_FDS := 3

  datatype View = View(fds: seq<nat>, members: nat)

  function Fds(v: View): (s: set<nat>) {
    set f | f in v.fds
  }

  function Cost(v: View): (n: nat) {
    VIEW + v.members * MEMBER + |v.fds| * HANDLE
  }

  function TotalCost(views: seq<View>): (n: nat) {
    if views == [] then 0 else TotalCost(views[..|views| - 1]) + Cost(views[|views| - 1])
  }

  function TotalFds(views: seq<View>): (n: nat) {
    if views == [] then 0 else TotalFds(views[..|views| - 1]) + |views[|views| - 1].fds|
  }

  function FdsOf(views: seq<View>): (s: set<nat>) {
    if views == [] then {} else FdsOf(views[..|views| - 1]) + Fds(views[|views| - 1])
  }

  /** Three distinct descriptors each, disjoint from all earlier views'. */
  ghost predicate Separate(views: seq<View>) {
    views == [] ||
    (var v := views[|views| - 1];
     && Separate(views[..|views| - 1]) && Distinct(v.fds) && |v.fds| == VIEW_FDS
     && forall f :: f in v.fds ==> f !in FdsOf(views[..|views| - 1]))
  }

  /** The host fails to close a descriptor of the view; `stuck` holds the
      descriptors it fails on. */
  predicate Sticks(v: View, stuck: set<nat>) {
    exists f :: f in v.fds && f in stuck
  }

  /** The descriptors that are closed once the loop is down to n. */
  function From(fds: seq<nat>, n: nat): (s: set<nat>)
    requires n <= |fds|
  {
    set f | f in fds[n..]
  }

  lemma FromNext(fds: seq<nat>, n: nat)
    requires n < |fds| && Distinct(fds)
    ensures From(fds, n) == From(fds, n + 1) + {fds[n]} && fds[n] !in From(fds, n + 1)
  {
    assert fds[n..] == [fds[n]] + fds[n + 1..];
    assert forall i :: n < i < |fds| ==> fds[i] != fds[n];
  }

  lemma FromAll(v: View, stuck: set<nat>)
    ensures From(v.fds, 0) == Fds(v) && (Sticks(v, stuck) <==> !(Fds(v) !! stuck))
  {
    assert v.fds[0..] == v.fds;
    if Sticks(v, stuck) {
      var f :| f in v.fds && f in stuck;
      assert f in Fds(v);
    }
    if !(Fds(v) !! stuck) {
      var f :| f in Fds(v) && f in stuck;
    }
  }

  /** `MountView.close`: everything the view booked is returned even when a
      descriptor cannot be closed, and then it raises. */
  method CloseView(budget: Budget, v: View, stuck: set<nat>) returns (o: Outcome)
    requires budget.Valid() && Distinct(v.fds) && (forall f :: f in v.fds ==> f in budget.owned)
    requires Cost(v) <= budget.viewHeap && |v.fds| <= budget.groupFds
    modifies budget`viewHeap, budget`owned, budget`groupFds
    ensures budget.Valid() && o == if Sticks(v, stuck) then Refused(HostError) else Done
    ensures budget.viewHeap == old(budget.viewHeap) - Cost(v)
    ensures budget.groupFds == old(budget.groupFds) - |v.fds|
    ensures budget.owned == old(budget.owned) - Fds(v)
  {
    o := Done;
    var n := |v.fds|;
    assert From(v.fds, n) == {};
    while n > 0
      invariant 0 <= n <= |v.fds| && budget.Valid()
      invariant o == if From(v.fds, n) !! stuck then Done else Refused(HostError)
      invariant budget.viewHeap == old(budget.viewHeap) - (|v.fds| - n) * HANDLE
      invariant budget.groupFds == old(budget.groupFds) - (|v.fds| - n)
      invariant budget.owned == old(budget.owned) - From(v.fds, n)
    {
      n := n - 1;
      var fd := v.fds[n];
      FromNext(v.fds, n);
      assert fd in budget.owned;
      var closed := budget.Close(fd, fd in stuck);
      if closed != Done { o := closed; }
      budget.groupFds := budget.groupFds - 1;
    }
    FromAll(v, stuck);
    var released := budget.HeapRelease(VIEW + v.members * MEMBER);
    assert released == Done;
  }

  /** The three retained descriptors of a view being constructed. */
  method OpenHandles(budget: Budget) returns (o: Outcome, fds: seq<nat>)
    requires budget.Valid() && budget.groupFds + VIEW_FDS <= MAX_GROUP_FDS
    modifies budget`bytes, budget`viewHeap, budget`viewHeapPeak, budget`owned, budget`groupFds
    ensures budget.Valid() && |fds| <= VIEW_FDS && (o == Done ==> |fds| == VIEW_FDS)
    ensures Distinct(fds) && forall f :: f in fds ==> f !in old(budget.owned) && f in budget.owned
    ensures budget.owned - (set f | f in fds) == old(budget.owned)
    ensures budget.viewHeap == old(budget.viewHeap) + |fds| * HANDLE
    ensures budget.groupFds == old(budget.groupFds) + |fds|
  {
    o, fds := Done, [];
    while |fds| < VIEW_FDS
      invariant budget.Valid() && |fds| <= VIEW_FDS && o == Done
      invariant Distinct(fds) && forall f :: f in fds ==> f !in old(budget.owned) && f in budget.owned
      invariant budget.owned - (set f | f in fds) == old(budget.owned)
      invariant budget.viewHeap == old(budget.viewHeap) + |fds| * HANDLE
      invariant budget.groupFds == old(budget.groupFds) + |fds|
    {
      var missing: bool := *;
      if missing { return Refused(HostError), fds; }
      var fd := budget.OpenFd();
      var identity: nat := *;
      assert old(budget.owned).Keys <= budget.owned.Keys;
      ghost var before := budget.owned;
      o := budget.Own(fd, identity);
      if o != Done { return; }
      assert budget.owned - (set f | f in fds + [fd]) == before - (set f | f in fds);
      fds := fds + [fd];
      budget.groupFds := budget.groupFds + 1;
    }
  }

  /** `MountView.__init__`: a view, or an untouched ledger. */
  method OpenView(budget: Budget) returns (o: Outcome, v: View)
    requires budget.Valid()
    modifies budget`bytes, budget`viewHeap, budget`viewHeapPeak, budget`owned, budget`groupFds
    ensures budget.Valid()
    ensures o == Done ==>
              && |v.fds| == VIEW_FDS && v.members == 0 && Distinct(v.fds)
              && (forall f :: f in v.fds ==> f !in old(budget.owned) && f in budget.owned)
              && budget.owned - Fds(v) == old(budget.owned)
              && budget.viewHeap == old(budget.viewHeap) + Cost(v)
              && budget.groupFds == old(budget.groupFds) + |v.fds|
    ensures o != Done ==>
              && budget.owned == old(budget.owned) && budget.viewHeap == old(budget.viewHeap)
              && budget.groupFds == old(budget.groupFds)
  {
    v := View([], 0);
    o := budget.HeapReserve(VIEW);
    if o != Done { return; }
    var censused: bool := *;
    if !censused || budget.groupFds + VIEW_FDS > MAX_GROUP_FDS {
      o := Refused(if censused then FdLimit else HostError);
    } else {
      var fds;
      o, fds := OpenHandles(budget);
      v := View(fds, 0);
      var joined: bool := *;
      if o == Done && !joined { o := Refused(ProcessIdentityDrift); }
    }
    if o != Done {
      var stuck: set<nat> := *;
      var _ := CloseView(budget, v, stuck);
    }
  }

  /** Beyond the descriptors of `base`, exactly those of the views are owned. */
  ghost predicate Tracks(views: seq<View>, owned: map<nat, nat>, base: map<nat, nat>) {
    Separate(views) && FdsOf(views) !! base.Keys && FdsOf(views) <= owned.Keys && owned - FdsOf(views) == base
  }

  /** The view of a task seen for the first time. */
  method OpenNew(budget: Budget, views: seq<View>, ghost base: map<nat, nat>) returns (ok: bool, now: seq<View>)
    requires budget.Valid() && |views| <= MAX_VIEWS && Tracks(views, budget.owned, base)
    modifies budget`bytes, budget`viewHeap, budget`viewHeapPeak, budget`owned, budget`groupFds
    ensures budget.Valid() && |now| <= MAX_VIEWS && Tracks(now, budget.owned, base)
    ensures |now| == |views| + (if ok then 1 else 0) && views <= now
    ensures budget.viewHeap - TotalCost(now) == old(budget.viewHeap) - TotalCost(views)
    ensures budget.groupFds - TotalFds(now) == old(budget.groupFds) - TotalFds(views)
  {
    now := views;
    if |views| >= MAX_VIEWS { return false, now; }
    ghost var owned := budget.owned;
    var o, v := OpenView(budget);
    if o != Done { return false, now; }
    AddView(views, v, owned, budget.owned, base);
    ok, now := true, views + [v];
  }

  /** One task of `discover_views`: it joins a known view, opens one, or fails.
      Whether its directory was opened decides what is closed afterwards. */
  method Enlist(budget: Budget, views: seq<View>, ghost base: map<nat, nat>) returns (held: bool, now: seq<View>)
    requires budget.Valid() && |views| <= MAX_VIEWS && Tracks(views, budget.owned, base)
    modifies budget`bytes, budget`viewHeap, budget`viewHeapPeak, budget`owned, budget`groupFds
    ensures budget.Valid() && |now| <= MAX_VIEWS && Tracks(now, budget.owned, base)
    ensures budget.viewHeap - TotalCost(now) == old(budget.viewHeap) - TotalCost(views)
    ensures budget.groupFds - TotalFds(now) == old(budget.groupFds) - TotalFds(views)
  {
    now := views;
    held := *;
    var identified: bool, known: nat := *, *;
    if !held || !identified { return; }
    if known >= |views| {
      var ok: bool;
      ok, now := OpenNew(budget, views, base);
      if !ok { return; }
      known := |views|;
    }
    var polled: bool := *;
    if !polled { return; }
    var o := budget.HeapReserve(MEMBER);
    if o != Done { return; }
    JoinView(now, known);
    now := now[known := now[known].(members := now[known].members + 1)];
  }

  // ---- the raising exit ----------------------------------------------------

  /** How many views the handler of `discover_views` closes: it stops after the
      first one that raises. */
  function Unwound(views: seq<View>, stuck: set<nat>): (n: nat)
    ensures n <= |views|
  {
    if views == [] then 0
    else if Sticks(views[0], stuck) then 1
    else 1 + Unwound(views[1..], stuck)
  }

  /** No view before the last one fails to close. */
  ghost predicate OnlyLastSticks(views: seq<View>, stuck: set<nat>) {
    forall i :: 0 <= i < |views| - 1 ==> !Sticks(views[i], stuck)
  }

  lemma {:induction false} UnwoundAll(views: seq<View>, stuck: set<nat>)
    ensures Unwound(views, stuck) == |views| <==> OnlyLastSticks(views, stuck)
  {
    if |views| > 1 {
      var rest := views[1..];
      UnwoundAll(rest, stuck);
      assert forall i :: 1 <= i < |views| ==> views[i] == rest[i - 1];
      assert OnlyLastSticks(views, stuck) <==> !Sticks(views[0], stuck) && OnlyLastSticks(rest, stuck) by {
        if OnlyLastSticks(views, stuck) {
          assert !Sticks(views[0], stuck);
          assert forall i :: 0 <= i < |rest| - 1 ==> rest[i] == views[i + 1];
        }
      }
    }
  }

  lemma {:induction false} UnwoundNext(views: seq<View>, stuck: set<nat>, n: nat)
    requires n < |views| && forall i :: 0 <= i < n ==> !Sticks(views[i], stuck)
    ensures Sticks(views[n], stuck) || n + 1 == |views| ==> Unwound(views, stuck) == n + 1
  {
    if n > 0 {
      assert forall i :: 0 <= i < n - 1 ==> views[1..][i] == views[i + 1];
      UnwoundNext(views[1..], stuck, n - 1);
    } else {
      assert |views| == 1 ==> views[1..] == [];
    }
  }

  /** The handler: every view before the one that raises is given back, and
      that one too. */
  method Unwind(budget: Budget, views: seq<View>, stuck: set<nat>)
    requires budget.Valid() && Separate(views) && FdsOf(views) <= budget.owned.Keys
    requires TotalCost(views) <= budget.viewHeap && TotalFds(views) <= budget.groupFds
    modifies budget`viewHeap, budget`owned, budget`groupFds
    ensures budget.Valid()
    ensures var closed := views[..Unwound(views, stuck)];
            && budget.viewHeap == old(budget.viewHeap) - TotalCost(closed)
            && budget.groupFds == old(budget.groupFds) - TotalFds(closed)
            && budget.owned == old(budget.owned) - FdsOf(closed)
  {
    var n, o := 0, Done;
    while n < |views| && o == Done
      invariant 0 <= n <= |views| && budget.Valid()
      invariant o == Done ==> forall i :: 0 <= i < n ==> !Sticks(views[i], stuck)
      invariant o != Done || n == |views| ==> n == Unwound(views, stuck)
      invariant budget.viewHeap == old(budget.viewHeap) - TotalCost(views[..n])
      invariant budget.groupFds == old(budget.groupFds) - TotalFds(views[..n])
      invariant budget.owned == old(budget.owned) - FdsOf(views[..n])
      decreases |views| - n
    {
      UnwoundNext(views, stuck, n);
      ViewAt(views, n);
      o := CloseView(budget, views[n], stuck);
      n := n + 1;
    }
  }

  /** What the handler leaves open is nothing exactly if no view before the last
      one fails to close. */
  lemma UnwoundRestores(views: seq<View>, stuck: set<nat>, owned: map<nat, nat>, base: map<nat, nat>)
    requires Tracks(views, owned, base)
    ensures var closed := views[..Unwound(views, stuck)];
            && (TotalCost(closed) == TotalCost(views) <==> OnlyLastSticks(views, stuck))
            && (TotalFds(closed) == TotalFds(views) <==> OnlyLastSticks(views, stuck))
            && (owned - FdsOf(closed) == base <==> OnlyLastSticks(views, stuck))
  {
    var n := Unwound(views, stuck);
    UnwoundAll(views, stuck);
    if n == |views| {
      assert views[..n] == views;
    } else {
      LessViews(views, n);
      var f :| f in FdsOf(views) && f !in FdsOf(views[..n]);
      assert f in owned - FdsOf(views[..n]);
    }
  }

  /** `discover_views` over any number of tasks. A task whose directory cannot be
      closed again ends it, and then the views held so far are unwound. */
  method Discover(budget: Budget, raises: seq<bool>, stuck: set<nat>) returns (o: Outcome, views: seq<View>)
    requires budget.Valid()
    modifies budget`bytes, budget`viewHeap, budget`viewHeapPeak, budget`owned, budget`groupFds
    ensures budget.Valid() && |views| <= MAX_VIEWS && Separate(views)
    ensures o == Done || (o == Refused(HostError) && true in raises)
    ensures o == Done ==>
              && Tracks(views, budget.owned, old(budget.owned))
              && budget.viewHeap == old(budget.viewHeap) + TotalCost(views)
              && budget.groupFds == old(budget.groupFds) + TotalFds(views)
    ensures o != Done ==>
              && (budget.viewHeap == old(budget.viewHeap) <==> OnlyLastSticks(views, stuck))
              && (budget.groupFds == old(budget.groupFds) <==> OnlyLastSticks(views, stuck))
              && (budget.owned == old(budget.owned) <==> OnlyLastSticks(views, stuck))
  {
    o, views := Done, [];
    ghost var base := budget.owned;
    for n := 0 to |raises|
      invariant budget.Valid() && |views| <= MAX_VIEWS && Tracks(views, budget.owned, base)
      invariant budget.viewHeap == old(budget.viewHeap) + TotalCost(views)
      invariant budget.groupFds == old(budget.groupFds) + TotalFds(views)
    {
      var held;
      held, views := Enlist(budget, views, base);
      if held && raises[n] {
        UnwoundRestores(views, stuck, budget.owned, base);
        Unwind(budget, views, stuck);
        return Refused(HostError), views;
      }
    }
  }

  /** Two views, the first of which cannot be closed: the second one's booking
      and descriptors are never given back. */
  lemma FirstSticks(a: View, c: View, stuck: set<nat>)
    requires Sticks(a, stuck)
    ensures Unwound([a, c], stuck) == 1 && [a, c][..1] == [a]
    ensures TotalCost([a, c]) - TotalCost([a]) == Cost(c) && FdsOf([a]) == Fds(a)
  {
    assert [a, c][..1] == [a] && [a][..0] == [];
  }

  lemma TwoViews(a: View, c: View, owned: map<nat, nat>)
    requires Distinct(a.fds) && Distinct(c.fds) && |a.fds| == |c.fds| == VIEW_FDS && Fds(a) !! Fds(c)
    requires owned.Keys == Fds(a) + Fds(c)
    ensures Tracks([a, c], owned, map[])
  {
    var first := owned - Fds(c);
    assert Tracks([], map[], map[]);
    assert first - Fds(a) == map[];
    AddView([], a, map[], first, map[]);
    AddView([a], c, first, owned, map[]);
    assert [] + [a] == [a] && [a] + [c] == [a, c];
  }

  lemma UnwindLeavesView(owned: map<nat, nat>)
    requires owned.Keys == {3, 4, 5, 6, 7, 8}
    ensures var a, c := View([3, 4, 5], 1), View([6, 7, 8], 1);
            && Tracks([a, c], owned, map[]) && Unwound([a, c], {4}) == 1
            && TotalCost([a, c]) - TotalCost([a]) == 3072 && (owned - FdsOf([a])).Keys == Fds(c)
  {
    var a, c := View([3, 4, 5], 1), View([6, 7, 8], 1);
    assert Fds(a) == {3, 4, 5} && Fds(c) == {6, 7, 8};
    TwoViews(a, c, owned);
    assert Sticks(a, {4}) by { assert a.fds[1] == 4; }
    FirstSticks(a, c, {4});
  }

  lemma AddView(views: seq<View>, v: View, before: map<nat, nat>, after: map<nat, nat>, base: map<nat, nat>)
    requires Tracks(views, before, base) && Distinct(v.fds) && |v.fds| == VIEW_FDS
    requires forall f :: f in v.fds ==> f !in before && f in after
    requires after - Fds(v) == before
    ensures Tracks(views + [v], after, base)
    ensures TotalCost(views + [v]) == TotalCost(views) + Cost(v) && TotalFds(views + [v]) == TotalFds(views) + |v.fds|
  {
    assert (views + [v])[..|views|] == views;
    assert FdsOf(views + [v]) == FdsOf(views) + Fds(v);
    assert before.Keys <= after.Keys && base.Keys <= before.Keys;
    assert after - FdsOf(views + [v]) == (after - Fds(v)) - FdsOf(views);
  }

  lemma {:induction false} JoinView(views: seq<View>, k: nat)
    requires k < |views| && Separate(views)
    ensures
      var joined := views[k := views[k].(members := views[k].members + 1)];
      && Separate(joined) && FdsOf(joined) == FdsOf(views)
      && TotalCost(joined) == TotalCost(views) + MEMBER && TotalFds(joined) == TotalFds(views)
  {
    var joined := views[k := views[k].(members := views[k].members + 1)];
    var n := |views| - 1;
    if k == n {
      assert joined[..n] == views[..n];
    } else {
      JoinView(views[..n], k);
      assert joined[..n] == views[..n][k := views[k].(members := views[k].members + 1)];
    }
  }

  lemma {:induction false} PrefixOfViews(views: seq<View>, n: nat)
    requires n <= |views| && Separate(views)
    ensures Separate(views[..n]) && FdsOf(views[..n]) <= FdsOf(views)
    ensures TotalCost(views[..n]) <= TotalCost(views) && TotalFds(views[..n]) <= TotalFds(views)
    decreases |views|
  {
    if n < |views| {
      PrefixOfViews(views[..|views| - 1], n);
      assert views[..|views| - 1][..n] == views[..n];
    } else {
      assert views[..n] == views;
    }
  }

  lemma ViewAt(views: seq<View>, n: nat)
    requires n < |views| && Separate(views)
    ensures Distinct(views[n].fds) && Fds(views[n]) <= FdsOf(views) && Fds(views[n]) !! FdsOf(views[..n])
    ensures FdsOf(views[..n + 1]) == FdsOf(views[..n]) + Fds(views[n])
    ensures TotalCost(views[..n + 1]) == TotalCost(views[..n]) + Cost(views[n]) <= TotalCost(views)
    ensures TotalFds(views[..n + 1]) == TotalFds(views[..n]) + |views[n].fds| <= TotalFds(views)
  {
    PrefixOfViews(views, n + 1);
    assert views[..n + 1][..n] == views[..n];
  }

  lemma LessViews(views: seq<View>, n: nat)
    requires n < |views| && Separate(views)
    ensures TotalCost(views[..n]) < TotalCost(views) && TotalFds(views[..n]) < TotalFds(views)
    ensures exists f :: f in FdsOf(views) && f !in FdsOf(views[..n])
  {
    PrefixOfViews(views, n + 1);
    ViewAt(views, n);
    assert views[..n + 1][..n] == views[..n];
    assert views[n].fds[0] in Fds(views[n]);
  }

  /** The final closing pass, which passes over every failure: it undoes the
      discovery whatever the host answers. */
  method CloseAll(budget: Budget, views: seq<View>, stuck: set<nat>) returns (clean: bool)
    requires budget.Valid() && Separate(views) && FdsOf(views) <= budget.owned.Keys
    requires TotalCost(views) <= budget.viewHeap && TotalFds(views) <= budget.groupFds
    modifies budget`viewHeap, budget`owned, budget`groupFds
    ensures budget.Valid() && budget.viewHeap == old(budget.viewHeap) - TotalCost(views)
    ensures budget.groupFds == old(budget.groupFds) - TotalFds(views)
    ensures budget.owned == old(budget.owned) - FdsOf(views)
    ensures clean <==> forall i :: 0 <= i < |views| ==> !Sticks(views[i], stuck)
  {
    clean := true;
    for n := 0 to |views|
      invariant budget.Valid() && budget.viewHeap == old(budget.viewHeap) - TotalCost(views[..n])
      invariant budget.groupFds == old(budget.groupFds) - TotalFds(views[..n])
      invariant budget.owned == old(budget.owned) - FdsOf(views[..n])
      invariant clean <==> forall i :: 0 <= i < n ==> !Sticks(views[i], stuck)
    {
      ViewAt(views, n);
      var o := CloseView(budget, views[n], stuck);
      clean := clean && o == Done;
    }
    assert views[..|views|] == views;
  }

  /** The life of the views: a discovery that returns is undone by the closing
      pass, and one that raises leaves the ledger and the descriptor table as
      they were exactly if no view before the last one failed to close. */
  method ViewLifetime(budget: Budget, raises: seq<bool>, stuck: set<nat>) returns (o: Outcome, views: seq<View>)
    requires budget.Valid()
    modifies budget`bytes, budget`viewHeap, budget`viewHeapPeak, budget`owned, budget`groupFds
    ensures budget.Valid() && (o == Done || (o == Refused(HostError) && true in raises))
    ensures budget.viewHeap == old(budget.viewHeap) <==> o == Done || OnlyLastSticks(views, stuck)
    ensures budget.groupFds == old(budget.groupFds) <==> o == Done || OnlyLastSticks(views, stuck)
    ensures budget.owned == old(budget.owned) <==> o == Done || OnlyLastSticks(views, stuck)
  {
    o, views := Discover(budget, raises, stuck);
    if o == Done {
      var _ := CloseAll(budget, views, stuck);
    }
  }

  // ---- candidate pairs -----------------------------------------------------

  /** A cohort item: its dependency root if observed, its workspace if known. */
  datatype Item = Item(observed: bool, dev: nat, physical: string,
                       workspaceKnown: bool, workspaceDev: nat, workspacePhysical: string)

  datatype Relation = Unrelated | Dependencies | Workspace | Ancestor

  /** How a mounted subtree meets a cohort item, the closest relation first. */
  function Relate(m: Row, item: Item): (r: Relation) {
    if item.observed && item.dev == m.dev && Beneath(m.root, item.physical) then Dependencies
    else if item.workspaceKnown && item.workspaceDev == m.dev && Beneath(m.root, item.workspacePhysical) then Workspace
    else if item.observed && item.dev == m.dev && Beneath(item.physical, m.root) then Ancestor
    else Unrelated
  }

  datatype Pair = Pair(m: Row, item: Item, relation: Relation)

  /** The pairs of one mount with the first n items. */
  function PairsOf(m: Row, items: seq<Item>): (r: seq<Pair>) {
    if items == [] then []
    else
      var item := items[|items| - 1];
      PairsOf(m, items[..|items| - 1]) + (if Relate(m, item) == Unrelated then [] else [Pair(m, item, Relate(m, item))])
  }

  function AllPairs(mounts: seq<Row>, items: seq<Item>): (r: seq<Pair>) {
    if mounts == [] then []
    else AllPairs(mounts[..|mounts| - 1], items) + PairsOf(mounts[|mounts| - 1], items)
  }

  /** Exactly the related combinations are paired. */
  lemma {:induction false} InPairsOf(m: Row, items: seq<Item>, p: Pair)
    ensures p in PairsOf(m, items) <==> p.m == m && p.item in items && p.relation == Relate(m, p.item) != Unrelated
  {
    if items != [] {
      var n := |items| - 1;
      InPairsOf(m, items[..n], p);
      assert items == items[..n] + [items[n]];
    }
  }

  /** The mount shows part of the item's dependencies or of its workspace, or else all of
      its dependencies: one device, and one root at or below the other. */
  ghost predicate Meets(m: Row, item: Item, relation: Relation) {
    var shows := item.observed && m.dev == item.dev && Beneath(m.root, item.physical);
    var works := item.workspaceKnown && m.dev == item.workspaceDev && Beneath(m.root, item.workspacePhysical);
    var covers := item.observed && m.dev == item.dev && Beneath(item.physical, m.root);
    && (relation == Dependencies <==> shows) && (relation == Workspace <==> !shows && works)
    && (relation == Ancestor <==> !shows && !works && covers) && (shows || works || covers)
  }

  /** A pair is listed exactly if its mount and item are given and meet in that way. */
  lemma {:induction false} InAllPairs(mounts: seq<Row>, items: seq<Item>, p: Pair)
    ensures p in AllPairs(mounts, items) <==> p.m in mounts && p.item in items && Meets(p.m, p.item, p.relation)
  {
    if mounts != [] {
      var n := |mounts| - 1;
      InAllPairs(mounts[..n], items, p);
      InPairsOf(mounts[n], items, p);
      assert mounts == mounts[..n] + [mounts[n]];
    }
  }

  /** The inner loop of `mount_candidates`. */
  method PairMount(budget: Budget, m: Row, items: seq<Item>, before: seq<Pair>) returns (o: Outcome, pairs: seq<Pair>)
    requires budget.Valid()
    modifies budget`viewHeap, budget`viewHeapPeak
    ensures budget.Valid() && |before| <= |pairs|
    ensures budget.viewHeap - |pairs| * PAIR == old(budget.viewHeap) - |before| * PAIR
    ensures o == Done || OutOfBudget(o)
    ensures o == Done ==> pairs == before + PairsOf(m, items)
  {
    pairs := before;
    for k := 0 to |items|
      invariant budget.Valid() && |before| <= |pairs|
      invariant budget.viewHeap - |pairs| * PAIR == old(budget.viewHeap) - |before| * PAIR
      invariant pairs == before + PairsOf(m, items[..k])
    {
      assert items[..k + 1][..k] == items[..k];
      o := budget.Check();
      if o != Done { return; }
      var relation := Relate(m, items[k]);
      if relation != Unrelated {
        if |pairs| >= MAX_PAIRS { return Refused(ByteLimit), pairs; }
        o := budget.HeapReserve(PAIR);
        if o != Done { return; }
        pairs := pairs + [Pair(m, items[k], relation)];
      }
    }
    assert items[..|items|] == items;
    o := Done;
  }

  /** `mount_candidates`: all related pairs booked, or none. */
  method MountCandidates(budget: Budget, mounts: seq<Row>, items: seq<Item>) returns (o: Outcome, pairs: seq<Pair>)
    requires budget.Valid()
    modifies budget`viewHeap, budget`viewHeapPeak
    ensures budget.Valid() && budget.viewHeap == old(budget.viewHeap) + |pairs| * PAIR
    ensures o == Done || OutOfBudget(o)
    ensures o == Done ==> pairs == AllPairs(mounts, items)
    ensures o != Done ==> pairs == []
  {
    pairs := [];
    for n := 0 to |mounts|
      invariant budget.Valid() && budget.viewHeap == old(budget.viewHeap) + |pairs| * PAIR
      invariant pairs == AllPairs(mounts[..n], items)
    {
      assert mounts[..n + 1][..n] == mounts[..n];
      o, pairs := PairMount(budget, mounts[n], items, pairs);
      if o != Done {
        var released := budget.HeapRelease(|pairs| * PAIR);
        assert released == Done;
        pairs := [];
        return;
      }
    }
    assert mounts[..|mounts|] == mounts;
    o := Done;
  }

  /** What one view's pass books: its table and its pairs, returned at the end
      whichever of the steps failed. */
  method ViewPass(budget: Budget, chunks: seq<seq<Byte>>, parse: Parser, items: seq<Item>) returns (o: Outcome)
    requires budget.Valid() && forall i :: 0 <= i < |chunks| ==> chunks[i] != []
    modifies budget`bytes, budget`mountIo, budget`mountIoExhausted, budget`textBytes, budget`viewHeap, budget`viewHeapPeak
    ensures budget.Valid() && budget.viewHeap == old(budget.viewHeap)
  {
    var table;
    o, table := ReadTable(budget, chunks, parse);
    if o != Done { return; }
    var pairs;
    o, pairs := MountCandidates(budget, table.rows, items);
    var released := budget.HeapRelease(|pairs| * PAIR);
    assert released == Done;
    table.Release();
  }
}
