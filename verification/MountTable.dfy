/** Parsing a mount table into indexed rows, releasing it again, and joining a
    path to its filesystem. */
module MountTables {
  import opened Text
  import opened Ledger
  import opened MountScan
  import opened MountIndex
  import opened MountLookups
  import opened MountText

  /** The field syntax of one line is a parameter: a line has the wrong shape,
      an ambiguous escaped path, or the fields the audit keeps. */
  datatype Parsed = BadShape | BadPath | Fields(dev: nat, root: string, point: string)
  type Parser = seq<Byte> -> Parsed

  const ROW := 128

  /** The row a line becomes when it is appended at position n. */
  function RowOf(f: Parsed, n: nat): (r: Row) {
    if f.Fields? then Row(n, f.dev, f.root, f.point) else Row(n, 0, "", "")
  }

  /** Row objects of a table, in line order; each append makes a new object. */
  function RowsOf(parse: Parser, lines: seq<seq<Byte>>): (r: seq<Row>)
    ensures |r| == |lines|
    ensures forall i :: 0 <= i < |lines| ==> r[i] == RowOf(parse(lines[i]), i)
  {
    if lines == [] then []
    else RowsOf(parse, lines[..|lines| - 1]) + [RowOf(parse(lines[|lines| - 1]), |lines| - 1)]
  }

  /** A released or failed table is `closed`; an open one owns its bookings. */
  class MountTable {
    var rows: seq<Row>
    var rowHeap: nat
    var digest: seq<Byte>
    const index: MountLookup

    ghost predicate Valid()
      reads this, index, index.budget
    {
      && index.InLedger() && rowHeap + index.booked <= index.budget.viewHeap
      && index.Indexes(rows) && Distinct(rows)
    }

    ghost function Booked(): nat
      reads this, index
    {
      rowHeap + index.booked
    }

    constructor (index: MountLookup)
      ensures this.index == index && rows == [] && rowHeap == 0 && digest == []
    {
      this.index, rows, rowHeap, digest := index, [], 0, [];
    }

    /** `release_mounts` */
    method Release()
      requires Valid()
      modifies this`rows, this`rowHeap, index`exact, index`prefix, index`booked, index.budget`viewHeap
      ensures index.budget.Valid() && index.budget.viewHeap == old(index.budget.viewHeap - Booked())
      ensures rows == [] && Booked() == 0
    {
      index.Close();
      rows := [];
      var o := index.budget.HeapRelease(rowHeap);
      assert o == Done;
      rowHeap := 0;
    }

    /** One line of the table; the row bytes stay booked if its path is bad. */
    method Append(line: seq<Byte>, parse: Parser) returns (o: Outcome)
      requires index.budget.Valid()
      modifies this`rows, this`rowHeap, this`digest, index.budget`viewHeap, index.budget`viewHeapPeak
      ensures index.budget.Valid() && rowHeap >= old(rowHeap)
      ensures index.budget.viewHeap - rowHeap == old(index.budget.viewHeap - rowHeap)
      ensures o == Done ==> parse(line).Fields? && digest == old(digest) + line + [NEWLINE]
      ensures o == Done ==> rows == old(rows) + [RowOf(parse(line), |old(rows)|)]
      ensures o != Refused(LineLimit) && o != Refused(TextLimit)
    {
      digest := digest + line + [NEWLINE];
      var fields := parse(line);
      if fields.BadShape? { return Refused(MountShape); }
      var size := ROW + |line|;
      o := index.budget.HeapReserve(size);
      if o != Done { return; }
      rowHeap := rowHeap + size;
      if fields.BadPath? { return Refused(AmbiguousMountPath); }
      rows := rows + [Row(|rows|, fields.dev, fields.root, fields.point)];
    }
  }

  /** Every line parses, and the rows and the digest are those of the lines. */
  ghost predicate Holds(table: MountTable, parse: Parser, lines: seq<seq<Byte>>)
    reads table
  {
    && (forall i :: 0 <= i < |lines| ==> parse(lines[i]).Fields?)
    && table.rows == RowsOf(parse, lines) && table.digest == Hashed(lines)
  }

  /** One more line, kept as a row. */
  method KeepLine(table: MountTable, parse: Parser, line: seq<Byte>, ghost lines: seq<seq<Byte>>) returns (o: Outcome)
    requires table.index.budget.Valid() && Holds(table, parse, lines)
    modifies table`rows, table`rowHeap, table`digest, table.index.budget`viewHeap, table.index.budget`viewHeapPeak
    ensures table.index.budget.Valid() && table.rowHeap >= old(table.rowHeap)
    ensures table.index.budget.viewHeap - table.rowHeap == old(table.index.budget.viewHeap - table.rowHeap)
    ensures o == Done ==> Holds(table, parse, lines + [line])
    ensures o != Refused(LineLimit) && o != Refused(TextLimit)
  {
    o := table.Append(line, parse);
    HashedAppend(lines, line);
    RowsAppend(parse, lines, line);
  }

  /** One turn of the consuming loop: a line kept as a row, or the end of the loop. */
  method ReadRow(reader: MountReader, parse: Parser, table: MountTable) returns (o: Outcome, more: bool)
    requires reader.Valid() && reader.phase != Ended && Holds(table, parse, reader.yielded) && table.index.budget == reader.budget
    modifies reader, table, reader.budget`mountIo, reader.budget`mountIoExhausted, reader.budget`textBytes,
             reader.budget`viewHeap, reader.budget`viewHeapPeak
    ensures reader.Valid()
    ensures reader.budget.viewHeap - reader.Held() - table.rowHeap == old(reader.budget.viewHeap - reader.Held() - table.rowHeap)
    ensures more ==> reader.phase != Ended && Holds(table, parse, reader.yielded) && |reader.yielded| == |old(reader.yielded)| + 1
    ensures !more && o == Done ==> reader.phase == Ended && Fits(reader.text) && Holds(table, parse, Lines(reader.text))
    ensures !more && (o == Refused(LineLimit) || o == Refused(TextLimit)) ==> !Fits(reader.text)
  {
    ghost var lines := reader.yielded;
    var step := reader.Next();
    if !step.Line? { return if step.End? then Done else Refused(step.reason), false; }
    o := KeepLine(table, parse, step.line, lines);
    more := o == Done;
  }

  /** The consuming loop of `mount_table_fd`. */
  method ReadRows(reader: MountReader, parse: Parser, table: MountTable) returns (o: Outcome)
    requires reader.Valid() && reader.phase == Fresh
    requires table.rows == [] && table.rowHeap == 0 && table.digest == [] && table.index.budget == reader.budget
    modifies reader, table, reader.budget`mountIo, reader.budget`mountIoExhausted, reader.budget`textBytes,
             reader.budget`viewHeap, reader.budget`viewHeapPeak
    ensures reader.Valid()
    ensures reader.budget.viewHeap - reader.Held() - table.rowHeap == old(reader.budget.viewHeap)
    ensures o == Done ==> reader.phase == Ended && Fits(reader.text) && Holds(table, parse, Lines(reader.text))
    ensures o == Refused(LineLimit) || o == Refused(TextLimit) ==> !Fits(reader.text)
  {
    o := Done;
    var more := true;
    while more
      invariant reader.Valid()
      invariant reader.budget.viewHeap - reader.Held() - table.rowHeap == old(reader.budget.viewHeap)
      invariant more ==> reader.phase != Ended && Holds(table, parse, reader.yielded)
      invariant !more && o == Done ==> reader.phase == Ended && Fits(reader.text) && Holds(table, parse, Lines(reader.text))
      invariant !more && (o == Refused(LineLimit) || o == Refused(TextLimit)) ==> !Fits(reader.text)
      decreases more, |Lines(reader.text)| - |reader.yielded|
    {
      o, more := ReadRow(reader, parse, table);
    }
  }

  lemma RowsAppend(parse: Parser, lines: seq<seq<Byte>>, line: seq<Byte>)
    ensures RowsOf(parse, lines + [line]) == RowsOf(parse, lines) + [RowOf(parse(line), |lines|)]
  {
    assert (lines + [line])[..|lines|] == lines;
  }

  lemma RowsDistinct(parse: Parser, lines: seq<seq<Byte>>)
    ensures Distinct(RowsOf(parse, lines))
  {
    forall i, j | 0 <= i < j < |lines| ensures RowsOf(parse, lines)[i] != RowsOf(parse, lines)[j] {
      assert RowsOf(parse, lines)[i].ident == i && RowsOf(parse, lines)[j].ident == j;
    }
  }

  /** Reads the whole text into the table; the window is given back on every exit. */
  method ReadText(budget: Budget, chunks: seq<seq<Byte>>, parse: Parser, table: MountTable) returns (o: Outcome)
    requires budget.Valid() && forall i :: 0 <= i < |chunks| ==> chunks[i] != []
    requires table.rows == [] && table.rowHeap == 0 && table.digest == [] && table.index.budget == budget
    modifies table, budget`mountIo, budget`mountIoExhausted, budget`textBytes, budget`viewHeap, budget`viewHeapPeak
    ensures budget.Valid() && table.rowHeap <= budget.viewHeap == old(budget.viewHeap) + table.rowHeap
    ensures o == Done ==> Fits(Flat(chunks)) && Holds(table, parse, Lines(Flat(chunks)))
    ensures o == Refused(LineLimit) || o == Refused(TextLimit) ==> !Fits(Flat(chunks))
  {
    var reader := new MountReader(budget, chunks);
    o := ReadRows(reader, parse, table);
    reader.Close();
  }

  /** `mount_table_fd`: on every exit the ledger has either exactly what the
      returned table owns on top, or nothing. */
  method ReadTable(budget: Budget, chunks: seq<seq<Byte>>, parse: Parser) returns (o: Outcome, table: MountTable)
    requires budget.Valid() && forall i :: 0 <= i < |chunks| ==> chunks[i] != []
    modifies budget`bytes, budget`mountIo, budget`mountIoExhausted, budget`textBytes, budget`viewHeap, budget`viewHeapPeak
    ensures fresh(table) && fresh(table.index) && table.index.budget == budget && budget.Valid()
    ensures budget.viewHeap == old(budget.viewHeap) + table.Booked()
    ensures o == Done ==> Fits(Flat(chunks)) && table.Valid() && Holds(table, parse, Lines(Flat(chunks)))
    ensures o != Done ==> table.Booked() == 0
    ensures o == Refused(LineLimit) || o == Refused(TextLimit) ==> !Fits(Flat(chunks))
  {
    var index := new MountLookup(budget);
    table := new MountTable(index);
    o := ReadText(budget, chunks, parse, table);
    if o == Done {
      RowsDistinct(parse, Lines(Flat(chunks)));
      o := index.Build(table.rows);
    }
    if o != Done {
      table.rows := [];
      var released := budget.HeapRelease(table.rowHeap);
      assert released == Done;
      table.rowHeap := 0;
    }
  }

  /** `mount_digest_fd`: leaves the ledger as it was and hashes what a table
      read of the same text hashes. */
  method ReadDigest(budget: Budget, chunks: seq<seq<Byte>>) returns (o: Outcome, digest: seq<Byte>)
    requires budget.Valid() && forall i :: 0 <= i < |chunks| ==> chunks[i] != []
    modifies budget`mountIo, budget`mountIoExhausted, budget`textBytes, budget`viewHeap, budget`viewHeapPeak
    ensures budget.Valid() && budget.viewHeap == old(budget.viewHeap)
    ensures o == Done ==> Fits(Flat(chunks)) && digest == Hashed(Lines(Flat(chunks)))
    ensures o == Refused(LineLimit) || o == Refused(TextLimit) ==> !Fits(Flat(chunks))
  {
    var reader := new MountReader(budget, chunks);
    digest := [];
    while true
      invariant fresh(reader) && reader.Valid() && reader.phase != Ended
      invariant budget.viewHeap - reader.Held() == old(budget.viewHeap)
      invariant digest == Hashed(reader.yielded)
      decreases |Lines(reader.text)| - |reader.yielded|
    {
      ghost var lines := reader.yielded;
      var step := reader.Next();
      if !step.Line? { return if step.End? then Done else Refused(step.reason), digest; }
      HashedAppend(lines, step.line);
      digest := digest + step.line + [NEWLINE];
    }
  }

  // ---- joining a path ------------------------------------------------------

  /** `s.lstrip('/')` */
  function LeftStripped(s: string): (r: string)
    ensures r != [] ==> r[0] != '/'
  {
    if s != [] && s[0] == '/' then LeftStripped(s[1..]) else s
  }

  predicate PathShape(path: string) {
    path != [] && path[0] == '/' && "." !in Split(path, '/') && ".." !in Split(path, '/')
  }

  /** A path has the right shape if it is absolute and none of the runs between its
      slashes is a dot or two. */
  lemma PathShapeMeans(path: string)
    ensures PathShape(path) <==>
            "/" <= path && forall i, j :: Piece(path, '/', i, j) ==> path[i..j] != "." && path[i..j] != ".."
  {
    InSplit(path, '/', ".");
    InSplit(path, '/', "..");
  }

  /** Where the path lies inside the mounted filesystem. */
  function Physical(m: Row, path: string): (r: string) {
    var suffix := LeftStripped(if |m.point| <= |path| then path[|m.point|..] else []);
    var r := Stripped(m.root) + (if suffix != [] then "/" + suffix else "");
    if r == [] then "/" else r
  }

  /** A joined path never leaves the subtree that is mounted. */
  lemma {:induction false} PhysicalBeneath(m: Row, path: string)
    ensures Beneath(Physical(m, path), if Stripped(m.root) == [] then "/" else Stripped(m.root))
  {
    var suffix := LeftStripped(if |m.point| <= |path| then path[|m.point|..] else []);
    JoinedBeneath(Stripped(m.root), suffix);
  }

  /** A stripped base, alone or followed by a slash and more. */
  lemma JoinedBeneath(base: string, suffix: string)
    requires base != [] ==> base[|base| - 1] != '/'
    ensures var r := base + (if suffix != [] then "/" + suffix else "");
            Beneath(if r == [] then "/" else r, if base == [] then "/" else base)
  {
    StrippedAgain(base);
    if base == [] {
      assert Pattern("/") == "/" by { assert "/"[..0] == []; assert Stripped("/") == Stripped([]); }
    } else if suffix != [] {
      assert base + ("/" + suffix) == (base + "/") + suffix;
    }
  }

  lemma StrippedAgain(s: string)
    requires s != [] ==> s[|s| - 1] != '/'
    ensures Stripped(s) == s
  {
  }

  ghost predicate Slashes(s: string) {
    forall i :: 0 <= i < |s| ==> s[i] == '/'
  }

  /** The path is `base`, then slashes, then `rest`, which starts with none. */
  ghost predicate Parts(path: string, base: string, slashes: string, rest: string) {
    path == base + slashes + rest && Slashes(slashes) && (rest != [] ==> rest[0] != '/')
  }

  /** `rest` placed below a root: after its text without trailing slashes. */
  ghost predicate PlacedAt(physical: string, root: string, rest: string) {
    exists base, slashes :: root == base + slashes && Slashes(slashes) && (base != [] ==> base[|base| - 1] != '/') &&
      physical == if rest != [] then base + "/" + rest else if base != [] then base else "/"
  }

  lemma {:induction false} LeftStrippedRest(slashes: string, rest: string)
    requires Slashes(slashes) && (rest != [] ==> rest[0] != '/')
    ensures LeftStripped(slashes + rest) == rest
  {
    if slashes == [] {
      assert slashes + rest == rest;
    } else {
      assert (slashes + rest)[1..] == slashes[1..] + rest;
      LeftStrippedRest(slashes[1..], rest);
    }
  }

  lemma StrippedSplits(s: string)
    ensures s == Stripped(s) + s[|Stripped(s)|..] && Slashes(s[|Stripped(s)|..])
  {
    forall k | |Stripped(s)| <= k < |s| ensures s[k] == '/' { StrippedTail(s, k); }
  }

  lemma PhysicalPlaced(m: Row, path: string, rest: string)
    requires rest == LeftStripped(if |m.point| <= |path| then path[|m.point|..] else [])
    ensures PlacedAt(Physical(m, path), m.root, rest)
  {
    StrippedSplits(m.root);
    var base, slashes := Stripped(m.root), m.root[|Stripped(m.root)|..];
    assert base + ("/" + rest) == base + "/" + rest;
    assert m.root == base + slashes;
  }

  /** The joined path keeps exactly what follows the mount point and its slashes. */
  lemma PhysicalKeepsRest(m: Row, path: string, slashes: string, rest: string)
    requires Parts(path, m.point, slashes, rest)
    ensures PlacedAt(Physical(m, path), m.root, rest)
  {
    assert path[|m.point|..] == slashes + rest;
    LeftStrippedRest(slashes, rest);
    PhysicalPlaced(m, path, rest);
  }

  /** Whatever was placed below a root can be read off again. */
  lemma {:induction false} PlacedApart(physical: string, root: string, a: string, b: string)
    requires PlacedAt(physical, root, a) && PlacedAt(physical, root, b)
    requires (a != [] ==> a[0] != '/') && (b != [] ==> b[0] != '/')
    ensures a == b
  {
    var base, slashes :| root == base + slashes && Slashes(slashes) && (base != [] ==> base[|base| - 1] != '/') &&
      physical == if a != [] then base + "/" + a else if base != [] then base else "/";
    var other, more :| root == other + more && Slashes(more) && (other != [] ==> other[|other| - 1] != '/') &&
      physical == if b != [] then other + "/" + b else if other != [] then other else "/";
    BaseUnique(root, base, slashes, other, more);
    assert a != [] ==> physical[|base| + 1..] == a;
    assert b != [] ==> physical[|base| + 1..] == b;
  }

  lemma BaseUnique(root: string, a: string, x: string, b: string, y: string)
    requires root == a + x == b + y && Slashes(x) && Slashes(y)
    requires (a != [] ==> a[|a| - 1] != '/') && (b != [] ==> b[|b| - 1] != '/')
    ensures a == b
  {
    assert forall k :: |a| <= k < |root| ==> root[k] == x[k - |a|];
    assert forall k :: |b| <= k < |root| ==> root[k] == y[k - |b|];
    assert b != [] ==> root[|b| - 1] == b[|b| - 1];
    assert a == root[..|a|] && b == root[..|b|];
  }

  /** Two paths of one mount with different rests have different physical paths. */
  lemma PhysicalInjective(m: Row, p: string, x: string, a: string, q: string, y: string, b: string)
    requires Parts(p, m.point, x, a) && Parts(q, m.point, y, b) && a != b
    ensures Physical(m, p) != Physical(m, q)
  {
    PhysicalKeepsRest(m, p, x, a);
    PhysicalKeepsRest(m, q, y, b);
    if Physical(m, p) == Physical(m, q) { PlacedApart(Physical(m, p), m.root, a, b); }
  }

  /** A point with fewer trailing slashes than the path starts it. */
  lemma PointStarts(point: string, path: string, base: string, tail: string, slashes: string, rest: string)
    requires point == base + tail && Slashes(tail) && Parts(path, base, slashes, rest) && |tail| <= |slashes|
    ensures point <= path && Parts(path, point, slashes[|tail|..], rest)
  {
    assert slashes[..|tail|] == tail;
    assert path == base + (slashes[..|tail|] + slashes[|tail|..]) + rest;
    assert path == point + slashes[|tail|..] + rest;
  }

  /** A point with more trailing slashes cuts off the beginning of the rest. */
  lemma PointCuts(point: string, path: string, base: string, tail: string, slashes: string, rest: string)
    requires point == base + tail && Slashes(tail) && Parts(path, base, slashes, rest) && |tail| > |slashes|
    ensures rest != [] ==> !(point <= path) && |if |point| <= |path| then path[|point|..] else []| < |rest|
    ensures rest == [] ==> |path| <= |point|
  {
    assert point[|base| + |slashes|] == '/';
    assert rest != [] ==> path[|base| + |slashes|] == rest[0];
  }

  /** For every path beneath the point, spelled with any trailing slashes, the rest is
      kept exactly if it is empty or the point itself starts the path. */
  lemma PhysicalExactly(m: Row, path: string, base: string, tail: string, slashes: string, rest: string)
    requires m.point == base + tail && Slashes(tail) && (base != [] ==> base[|base| - 1] != '/')
    requires Parts(path, base, slashes, rest)
    ensures PlacedAt(Physical(m, path), m.root, rest) <==> rest == [] || m.point <= path
  {
    if |tail| <= |slashes| {
      PointStarts(m.point, path, base, tail, slashes, rest);
      PhysicalKeepsRest(m, path, slashes[|tail|..], rest);
    } else {
      PointCuts(m.point, path, base, tail, slashes, rest);
      PhysicalCut(m, path, rest);
    }
  }

  lemma PhysicalCut(m: Row, path: string, rest: string)
    requires rest != [] ==> rest[0] != '/' && |if |m.point| <= |path| then path[|m.point|..] else []| < |rest|
    requires rest == [] ==> |path| <= |m.point|
    ensures PlacedAt(Physical(m, path), m.root, rest) <==> rest == []
  {
    var cut := if |m.point| <= |path| then path[|m.point|..] else [];
    PhysicalPlaced(m, path, LeftStripped(cut));
    LeftStrippedShorter(cut);
    if PlacedAt(Physical(m, path), m.root, rest) { PlacedApart(Physical(m, path), m.root, rest, LeftStripped(cut)); }
  }

  /** Such a point: "x" lies beneath it and is lost. */
  lemma PhysicalLosesRest()
    ensures Beneath("/a/x", "/a//") && Physical(Row(0, 0, "/", "/a//"), "/a/x") == "/"
  {
    assert Stripped("/a//") == "/a" by { assert "/a//"[..3] == "/a/" && "/a/"[..2] == "/a"; }
    assert "/a/" <= "/a/x";
    assert Stripped("/") == "" by { assert "/"[..0] == ""; }
  }

  lemma {:induction false} LeftStrippedShorter(s: string)
    ensures |LeftStripped(s)| <= |s|
  {
    if s != [] && s[0] == '/' { LeftStrippedShorter(s[1..]); }
  }

  /** `filesystem_path` through the index: the linear join of the same rows. */
  method FilesystemPath(path: string, table: MountTable) returns (o: Outcome, m: Option<Row>, physical: string)
    requires table.Valid()
    modifies table.index.budget`bytes, table.index.budget`viewHeap, table.index.budget`viewHeapPeak
    ensures table.Valid() && table.index.budget.viewHeap == old(table.index.budget.viewHeap)
    ensures o == Done ==> PathShape(path) && m == Scan(path, table.rows) && m.Some? && Beneath(path, m.value.point)
    ensures o == Done ==> physical == Physical(m.value, path)
    ensures o == Done ==> forall slashes, rest :: Parts(path, m.value.point, slashes, rest) ==> PlacedAt(physical, m.value.root, rest)
    ensures o == Refused(MountJoinUnknown) ==> PathShape(path) && Scan(path, table.rows) == None
    ensures o == Refused(BadPathShape) <==> !PathShape(path)
    ensures o == Done || OutOfBudget(o) || o == Refused(MountJoinUnknown) || o == Refused(BadPathShape)
  {
    m, physical := None, "";
    if !PathShape(path) { return Refused(BadPathShape), None, ""; }
    o, m := table.index.Lookup(path, table.rows);
    IndexAgreesOnDistinct(path, table.rows, m);
    if o == Done {
      physical := Physical(m.value, path);
      forall slashes, rest | Parts(path, m.value.point, slashes, rest) ensures PlacedAt(physical, m.value.root, rest) {
        PhysicalKeepsRest(m.value, path, slashes, rest);
      }
    }
  }

  /** The answer an index over these rows gives. */
  ghost predicate IndexAnswer(path: string, rows: seq<Row>, answer: Option<Row>) {
    forall r :: answer == Some(r) <==> Closest(path, rows, r)
  }

  /** On distinct row objects the index and the linear scan agree. */
  lemma IndexAgreesOnDistinct(path: string, rows: seq<Row>, answer: Option<Row>)
    requires Distinct(rows)
    ensures answer.Some? && Closest(path, rows, answer.value) ==> Scan(path, rows) == answer
    ensures (forall r :: !Closest(path, rows, r)) ==> Scan(path, rows) == None
  {
    if answer.Some? && Closest(path, rows, answer.value) {
      DistinctCount(rows, answer.value);
      ScanIsClosest(path, rows, answer.value);
    }
    if Scan(path, rows).Some? { ScanIsClosest(path, rows, Scan(path, rows).value); }
  }

  /** In general they agree exactly when the closest row object, if there is
      one, stands in the list once: the scan counts entries, the index objects. */
  lemma IndexAgreesExactly(path: string, rows: seq<Row>, answer: Option<Row>)
    requires IndexAnswer(path, rows, answer)
    ensures Scan(path, rows) == answer <==> forall r :: Closest(path, rows, r) ==> multiset(rows)[r] == 1
  {
    if answer.Some? { ScanIsClosest(path, rows, answer.value); }
    if Scan(path, rows).Some? { ScanIsClosest(path, rows, Scan(path, rows).value); }
  }

  /** One row object listed twice: the scan refuses, the index answers. */
  lemma RepeatedRowDiffers(r: Row)
    requires Beneath("/a", r.point)
    ensures Scan("/a", [r, r]) == None && IndexAnswer("/a", [r, r], Some(r))
  {
    assert multiset([r, r])[r] == 2;
    if Scan("/a", [r, r]).Some? { ScanIsClosest("/a", [r, r], Scan("/a", [r, r]).value); }
  }
}
