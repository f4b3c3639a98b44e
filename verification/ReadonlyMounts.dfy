/** The read-only mount predicate over a parsed mount table: what it accepts, and
    what that says about every object at or below the path. */
module ReadonlyMounts {
  import opened Text

  const MAX_ROWS := 32768

  /** One table line after its fields are decoded. */
  datatype Fields = Fields(id: string, device: string, point: string, flags: seq<string>)

  datatype Mount = Mount(id: string, device: string, point: string, readonly: bool)

  // ---- rows ----------------------------------------------------------------

  function Unique(s: seq<string>): (u: set<string>) {
    set x | x in s
  }

  predicate IsMode(flag: string) {
    flag == "ro" || flag == "rw"
  }

  /** No flag twice, and one mode flag. */
  predicate FlagsOk(flags: seq<string>) {
    |Unique(flags)| == |flags| && |Where(flags, IsMode)| == 1
  }

  /** The rows of a table whose ids are new and whose flags are in order. */
  function Mounts(rows: seq<Fields>): (r: Option<seq<Mount>>)
  {
    if rows == [] then Some([])
    else
      var init, last := Mounts(rows[..|rows| - 1]), rows[|rows| - 1];
      if init.None? || (exists m :: m in init.value && m.id == last.id) || !("/" <= last.point) || !FlagsOk(last.flags) then
        None
      else
        Some(init.value + [Mount(last.id, last.device, last.point, "ro" in last.flags)])
  }

  lemma {:induction false} UniqueSize(s: seq<string>)
    ensures |Unique(s)| <= |s|
    ensures |Unique(s)| == |s| <==> Distinct(s)
  {
    if s != [] {
      var init, last := s[..|s| - 1], s[|s| - 1];
      UniqueSize(init);
      assert s == init + [last];
      assert Unique(s) == Unique(init) + {last};
      assert last in Unique(init) <==> last in init;
      assert Distinct(s) <==> Distinct(init) && last !in init;
    }
  }

  lemma {:induction false} WhereDistinct(s: seq<string>, keep: string -> bool)
    requires Distinct(s)
    ensures Distinct(Where(s, keep))
  {
    if s != [] {
      assert s[0] !in s[1..];
      WhereDistinct(s[1..], keep);
    }
  }

  /** A row's mode is unambiguous: distinct flags with exactly one of ro and rw. */
  lemma FlagsDecide(flags: seq<string>)
    ensures FlagsOk(flags) <==> Distinct(flags) && (("ro" in flags) != ("rw" in flags))
  {
    UniqueSize(flags);
    if Distinct(flags) {
      var modes := Where(flags, IsMode);
      WhereDistinct(flags, IsMode);
      assert "ro" in modes <==> "ro" in flags;
      assert "rw" in modes <==> "rw" in flags;
      if |modes| >= 2 {
        assert IsMode(modes[0]) && IsMode(modes[1]) && modes[0] != modes[1];
      } else if |modes| == 1 {
        assert modes == [modes[0]] && IsMode(modes[0]);
      }
    }
  }

  ghost predicate OneId(mounts: seq<Mount>) {
    forall i, j :: 0 <= i < j < |mounts| ==> mounts[i].id != mounts[j].id
  }

  /** Accepted tables: every row in order, ids all different, points absolute. */
  lemma {:induction false} MountsOk(rows: seq<Fields>)
    requires Mounts(rows).Some?
    ensures |Mounts(rows).value| == |rows| && OneId(Mounts(rows).value)
    ensures forall i :: 0 <= i < |rows| ==>
      Mounts(rows).value[i] == Mount(rows[i].id, rows[i].device, rows[i].point, "ro" in rows[i].flags)
    ensures forall m :: m in Mounts(rows).value ==> "/" <= m.point
  {
    if rows != [] {
      MountsOk(rows[..|rows| - 1]);
      var init := Mounts(rows[..|rows| - 1]).value;
      assert forall i :: 0 <= i < |init| ==> init[i] in init;
    }
  }

  /** An absolute point, and distinct flags with exactly one of ro and rw. */
  ghost predicate RowFine(row: Fields) {
    "/" <= row.point && Distinct(row.flags) && (("ro" in row.flags) != ("rw" in row.flags))
  }

  ghost predicate TableFine(rows: seq<Fields>) {
    && (forall i, j :: 0 <= i < j < |rows| ==> rows[i].id != rows[j].id)
    && forall i {:trigger RowFine(rows[i])} :: 0 <= i < |rows| ==> RowFine(rows[i])
  }

  lemma FineNext(rows: seq<Fields>, last: Fields)
    ensures TableFine(rows + [last]) <==>
            TableFine(rows) && RowFine(last) && !exists i :: 0 <= i < |rows| && rows[i].id == last.id
  {
    var all := rows + [last];
    assert all[|rows|] == last && forall i :: 0 <= i < |rows| ==> all[i] == rows[i];
    if TableFine(all) {
      assert RowFine(all[|rows|]);
      forall i | 0 <= i < |rows| ensures RowFine(rows[i]) { assert RowFine(all[i]); }
    }
  }

  /** A table is read exactly if its ids differ and each row is fine. */
  lemma {:induction false} MountsExactly(rows: seq<Fields>)
    ensures Mounts(rows).Some? <==> TableFine(rows)
  {
    if rows != [] {
      var n := |rows| - 1;
      var init, last := rows[..n], rows[n];
      MountsExactly(init);
      FlagsDecide(last.flags);
      assert rows == init + [last];
      FineNext(init, last);
      if Mounts(init).Some? {
        MountsOk(init);
        SameIds(init, Mounts(init).value, last.id);
      }
    }
  }

  lemma SameIds(rows: seq<Fields>, mounts: seq<Mount>, id: string)
    requires |mounts| == |rows| && forall i :: 0 <= i < |rows| ==> mounts[i].id == rows[i].id
    ensures (exists m :: m in mounts && m.id == id) <==> exists i :: 0 <= i < |rows| && rows[i].id == id
  {
    if m :| m in mounts && m.id == id {
      var i :| 0 <= i < |mounts| && mounts[i] == m;
      assert rows[i].id == id;
    }
    if i :| 0 <= i < |rows| && rows[i].id == id { assert mounts[i] in mounts; }
  }

  // ---- the check -----------------------------------------------------------

  /** A mount point lies on the way to the path. */
  predicate Covers(point: string, path: string) {
    path == point || (if point == "/" then "/" <= path else point + "/" <= path)
  }

  /** A point covers the paths that have its parts. */
  lemma CoversByParts(point: string, path: string)
    ensures Covers(point, path) <==> if point == "/" then "/" <= path else Split(point, '/') <= Split(path, '/')
  {
    StartsByParts(point, path);
  }

  function LongestPoint(mounts: seq<Mount>): (n: nat)
    requires mounts != []
    ensures exists m :: m in mounts && |m.point| == n
    ensures forall m :: m in mounts ==> |m.point| <= n
  {
    if |mounts| == 1 then
      assert mounts[0] in mounts;
      |mounts[0].point|
    else
      var rest := LongestPoint(mounts[1..]);
      assert mounts == [mounts[0]] + mounts[1..];
      assert mounts[0] in mounts;
      if |mounts[0].point| > rest then |mounts[0].point| else rest
  }

  predicate Accepts(mounts: seq<Mount>, path: string, mountId: string, device: string) {
    |mounts| <= MAX_ROWS &&
    var selected := Where(mounts, (m: Mount) => m.id == mountId);
    |selected| == 1 && selected[0].device == device &&
    Covers(selected[0].point, path) && selected[0].readonly &&
    var covering := Where(mounts, (m: Mount) => Covers(m.point, path));
    covering != [] &&
    var longest := LongestPoint(covering);
    var top := Where(covering, (m: Mount) => |m.point| == longest);
    |top| == 1 && top[0].id == mountId &&
    Where(mounts, (m: Mount) => path + "/" <= m.point && !m.readonly) == []
  }

  // ---- what acceptance means -----------------------------------------------

  /** The mount that holds the object named by the path: the deepest that covers it. */
  ghost predicate Holds(mounts: seq<Mount>, m: Mount, path: string) {
    m in mounts && Covers(m.point, path) && forall n :: n in mounts && Covers(n.point, path) ==> |n.point| <= |m.point|
  }

  /** The selected mount is the only deepest one over the path, it is read-only,
      and nothing writable is mounted strictly below. */
  ghost predicate Shielded(mounts: seq<Mount>, path: string, own: Mount) {
    && Holds(mounts, own, path) && own.readonly
    && (forall m :: m in mounts && Covers(m.point, path) && m != own ==> |m.point| < |own.point|)
    && forall m :: m in mounts && path + "/" <= m.point ==> m.readonly
  }

  lemma {:induction false} WhereOne(mounts: seq<Mount>, keep: Mount -> bool, m: Mount)
    requires OneId(mounts) && m in mounts && keep(m)
    requires forall n :: n in mounts && keep(n) ==> n == m
    ensures Where(mounts, keep) == [m]
  {
    if m == mounts[0] {
      assert forall n :: n in mounts[1..] ==> n.id != m.id;
      WhereNone(mounts[1..], keep);
    } else {
      WhereOne(mounts[1..], keep, m);
    }
  }

  lemma SameMount(mounts: seq<Mount>, a: Mount, b: Mount)
    requires OneId(mounts) && a in mounts && b in mounts && a.id == b.id
    ensures a == b
  {
    var i, j :| 0 <= i < |mounts| && 0 <= j < |mounts| && mounts[i] == a && mounts[j] == b;
    assert i == j;
  }

  lemma AcceptedIsShielded(mounts: seq<Mount>, path: string, mountId: string, device: string) returns (own: Mount)
    requires OneId(mounts) && Accepts(mounts, path, mountId, device)
    ensures own.id == mountId && own.device == device && Shielded(mounts, path, own)
  {
    var selected := Where(mounts, (m: Mount) => m.id == mountId);
    own := selected[0];
    assert own in selected;
    var covering := Where(mounts, (m: Mount) => Covers(m.point, path));
    var top := Where(covering, (m: Mount) => |m.point| == LongestPoint(covering));
    assert top[0] in top;
    SameMount(mounts, own, top[0]);
    forall m | m in mounts && Covers(m.point, path) && m != own ensures |m.point| < |own.point| {
      assert m in covering;
      assert m in top <==> |m.point| == LongestPoint(covering);
      assert top == [top[0]];
    }
    forall m | m in mounts && path + "/" <= m.point ensures m.readonly {
      assert m.readonly || m in Where(mounts, (m: Mount) => path + "/" <= m.point && !m.readonly);
    }
  }

  lemma ShieldedIsAccepted(mounts: seq<Mount>, path: string, own: Mount)
    requires OneId(mounts) && |mounts| <= MAX_ROWS && Shielded(mounts, path, own)
    ensures Accepts(mounts, path, own.id, own.device)
  {
    forall m | m in mounts && m.id == own.id ensures m == own { SameMount(mounts, m, own); }
    WhereOne(mounts, (m: Mount) => m.id == own.id, own);
    var covering := Where(mounts, (m: Mount) => Covers(m.point, path));
    assert own in covering;
    var longest := LongestPoint(covering);
    assert longest == |own.point|;
    OneIdWhere(mounts, (m: Mount) => Covers(m.point, path));
    WhereOne(covering, (m: Mount) => |m.point| == longest, own);
    WhereNone(mounts, (m: Mount) => path + "/" <= m.point && !m.readonly);
  }

  lemma {:induction false} OneIdWhere(mounts: seq<Mount>, keep: Mount -> bool)
    requires OneId(mounts)
    ensures OneId(Where(mounts, keep))
  {
    if mounts != [] {
      OneIdWhere(mounts[1..], keep);
      assert forall m :: m in mounts[1..] ==> m.id != mounts[0].id;
    }
  }

  // ---- everything below the path -------------------------------------------

  predicate Beneath(x: string, path: string) {
    Covers(path, x)
  }

  /** Each object at or below the path is held by a read-only mount. */
  ghost predicate AllReadonly(mounts: seq<Mount>, path: string) {
    forall x, m :: Beneath(x, path) && Holds(mounts, m, x) ==> m.readonly
  }

  /** A mount over an object below the path is over the path too, or strictly below it. */
  lemma CoversSplit(point: string, path: string, x: string)
    requires path != "/" && Beneath(x, path) && Covers(point, x)
    ensures Covers(point, path) || path + "/" <= point
  {
    if |point| > |path| {
      assert point <= x;
      assert x != path;
      assert path + "/" <= point;
    } else if |point| == |path| {
      assert point <= x && path <= x;
      assert point == x[..|path|] == path;
    } else if point == "/" {
      assert path <= x && "/" <= path;
    } else {
      assert point + "/" <= x && path <= x;
      assert point + "/" <= path;
    }
  }

  lemma CoversThrough(point: string, path: string, x: string)
    requires Covers(point, path) && Beneath(x, path)
    ensures Covers(point, x)
  {
    if path != x && path != point {
      assert path <= x;
    }
  }

  /** Acceptance of any path but the root shields the whole subtree; no mount point
      need be canonical for this. */
  lemma ShieldedSubtree(mounts: seq<Mount>, path: string, own: Mount)
    requires path != "/" && Shielded(mounts, path, own)
    ensures AllReadonly(mounts, path)
  {
    forall x, m | Beneath(x, path) && Holds(mounts, m, x) ensures m.readonly {
      CoversSplit(m.point, path, x);
      CoversThrough(own.point, path, x);
    }
  }

  /** For an accepted path the subtree is read-only exactly when the path is not the
      root or nothing at all is mounted writable. */
  lemma AcceptedSubtree(mounts: seq<Mount>, path: string, mountId: string, device: string)
    requires OneId(mounts) && Accepts(mounts, path, mountId, device)
    requires forall m :: m in mounts ==> "/" <= m.point
    ensures AllReadonly(mounts, path) <==> path != "/" || forall m :: m in mounts ==> m.readonly
  {
    var own := AcceptedIsShielded(mounts, path, mountId, device);
    if path != "/" {
      ShieldedSubtree(mounts, path, own);
    } else if AllReadonly(mounts, path) {
      forall m | m in mounts ensures m.readonly {
        assert Beneath(m.point, path) && Holds(mounts, m, m.point);
      }
    }
  }

  function MountOf(row: Fields): Mount {
    Mount(row.id, row.device, row.point, "ro" in row.flags)
  }

  predicate RowFits(row: Fields) {
    "/" <= row.point && FlagsOk(row.flags)
  }

  lemma MountsStep(rows: seq<Fields>, last: Fields)
    requires Mounts(rows).Some? && RowFits(last) && forall m :: m in Mounts(rows).value ==> m.id != last.id
    ensures Mounts(rows + [last]) == Some(Mounts(rows).value + [MountOf(last)])
  {
    assert (rows + [last])[..|rows|] == rows;
  }

  lemma TwoMounts(a: Fields, c: Fields)
    requires RowFits(a) && RowFits(c) && a.id != c.id
    ensures Mounts([a, c]) == Some([MountOf(a), MountOf(c)])
  {
    assert Mounts([a]) == Some([MountOf(a)]) by {
      MountsStep([], a);
      assert [] + [a] == [a] && [] + [MountOf(a)] == [MountOf(a)];
    }
    MountsStep([a], c);
    assert [a] + [c] == [a, c] && [MountOf(a)] + [MountOf(c)] == [MountOf(a), MountOf(c)];
  }

  lemma OneMode(flag: string)
    requires flag == "ro" || flag == "rw"
    ensures FlagsOk([flag]) && ("ro" in [flag] <==> flag == "ro")
  {
    assert "ro" != "rw" by { assert "ro"[1] != "rw"[1]; }
    assert [flag][0] == flag;
    FlagsDecide([flag]);
  }

  function RootRow(): Fields { Fields("1", "8:1", "/", ["ro"]) }

  function ChildRow(): Fields { Fields("2", "8:2", "/a", ["rw"]) }

  function RootTable(): seq<Mount> { [Mount("1", "8:1", "/", true), Mount("2", "8:2", "/a", false)] }

  lemma RootTableParses()
    ensures Mounts([RootRow(), ChildRow()]) == Some(RootTable())
  {
    var a, c := RootRow(), ChildRow();
    OneMode("ro");
    OneMode("rw");
    assert "ro" != "rw" by { assert "ro"[1] != "rw"[1]; }
    assert a.id != c.id by { assert "1"[0] != "2"[0]; }
    TwoMounts(a, c);
  }

  /** The root is accepted although a writable mount lies below it. */
  lemma RootNotShielded()
    ensures Mounts([RootRow(), ChildRow()]) == Some(RootTable())
    ensures Accepts(RootTable(), "/", "1", "8:1") && !AllReadonly(RootTable(), "/")
  {
    RootTableParses();
    var root, child := RootTable()[0], RootTable()[1];
    assert "1"[0] != "2"[0];
    assert "/" + "/" == "//" && "/a"[1] != "//"[1];
    assert Shielded(RootTable(), "/", root);
    ShieldedIsAccepted(RootTable(), "/", root);
    assert Beneath("/a", "/") && Holds(RootTable(), child, "/a");
  }
}
