/** An ELF64 little-endian image: bounded reads, the program table, and the map from
    virtual addresses to file offsets (System V gABI, chapter 5). */
module ElfImage {
  import opened Text

  type Image = seq<Byte>

  const MAX64 := 0xffff_ffff_ffff_ffff
  const NAME_BYTES := 255
  const LOAD := 1
  const DYNAMIC := 2
  const INTERP := 3
  const KINDS := {0, 1, 2, 3, 4, 6, 7, 0x6474e550, 0x6474e551, 0x6474e552, 0x6474e553}
  const INTERPRETER := "/lib64/ld-linux-x86-64.so.2"

  datatype Role = OriginalHostNspawn | Loader | Program | SharedObject | Extension | Libc

  // ---- reads ---------------------------------------------------------------

  function U16(b: Image, at: nat): (n: nat)
    requires at + 2 <= |b|
    ensures n < 0x1_0000
  {
    (b[at] as int) + 0x100 * (b[at + 1] as int)
  }

  function U32(b: Image, at: nat): (n: nat)
    requires at + 4 <= |b|
    ensures n < 0x1_0000_0000
  {
    U16(b, at) + 0x1_0000 * U16(b, at + 2)
  }

  function U64(b: Image, at: nat): (n: nat)
    requires at + 8 <= |b|
    ensures n <= MAX64
  {
    U32(b, at) + 0x1_0000_0000 * U32(b, at + 4)
  }

  function S64(b: Image, at: nat): (n: int)
    requires at + 8 <= |b|
    ensures n == 0 <==> U64(b, at) == 0
  {
    var n := U64(b, at);
    if n < 0x8000_0000_0000_0000 then n else n - 0x1_0000_0000_0000_0000
  }

  predicate InFile(b: Image, offset: nat, size: nat) {
    offset <= |b| && size <= |b| - offset
  }

  // ---- strings -------------------------------------------------------------

  predicate Printable(raw: seq<Byte>) {
    forall i :: 0 <= i < |raw| ==> 32 <= raw[i] <= 126
  }

  function Ascii(raw: seq<Byte>): (s: string)
    ensures |s| == |raw|
  {
    seq(|raw|, i requires 0 <= i < |raw| => raw[i] as char)
  }

  /** The text at an offset: cut at the first NUL, which must come soon enough. */
  function RawText(b: Image, offset: nat, size: nat): (raw: Option<seq<Byte>>) {
    if !InFile(b, offset, size) || size == 0 then None
    else
      var window := b[offset..offset + if size <= NAME_BYTES then size else NAME_BYTES + 1];
      var end := FirstOf(window, 0);
      if end == |window| || !Printable(window[..end]) then None else Some(window[..end])
  }

  /** A printable string that ends with a NUL inside its range. */
  predicate IsText(b: Image, offset: nat, size: nat, raw: seq<Byte>) {
    && InFile(b, offset, size) && |raw| < size && |raw| <= NAME_BYTES
    && b[offset..offset + |raw|] == raw && b[offset + |raw|] == 0 && Printable(raw)
  }

  /** What is read is the one NUL-terminated string at that place. */
  lemma RawTextIsText(b: Image, offset: nat, size: nat, raw: seq<Byte>)
    ensures RawText(b, offset, size) == Some(raw) <==> IsText(b, offset, size, raw)
  {
    if InFile(b, offset, size) && size > 0 {
      var window := b[offset..offset + if size <= NAME_BYTES then size else NAME_BYTES + 1];
      if IsText(b, offset, size, raw) {
        forall i | 0 <= i < |raw| ensures window[i] != 0 { assert window[i] == raw[i]; }
        assert window[|raw|] == b[offset + |raw|];
        FirstOfUnique(window, 0, |raw|);
        assert window[..|raw|] == raw;
      }
      if RawText(b, offset, size) == Some(raw) {
        var end := FirstOf(window, 0);
        assert window[..end] == b[offset..offset + end];
      }
    }
  }

  // ---- the program table ---------------------------------------------------

  datatype Segment = Segment(kind: nat, flags: nat, offset: nat, va: nat, fileSize: nat, memorySize: nat, align: nat)

  function SegmentAt(b: Image, p: nat): Segment
    requires p + 56 <= |b|
  {
    Segment(U32(b, p), U32(b, p + 4), U64(b, p + 8), U64(b, p + 16), U64(b, p + 32), U64(b, p + 40), U64(b, p + 48))
  }

  predicate PowerOfTwo(n: nat) {
    n == 1 || (n > 1 && n % 2 == 0 && PowerOfTwo(n / 2))
  }

  function Doubled(k: nat): (n: nat) {
    if k == 0 then 1 else 2 * Doubled(k - 1)
  }

  lemma {:induction false} PowerOfTwoMeans(n: nat)
    ensures PowerOfTwo(n) <==> exists k: nat :: n == Doubled(k)
  {
    if PowerOfTwo(n) {
      var k := LogOf(n);
    }
    if k: nat :| n == Doubled(k) { DoubledIsPower(k); }
  }

  lemma {:induction false} LogOf(n: nat) returns (k: nat)
    requires PowerOfTwo(n)
    ensures n == Doubled(k)
  {
    if n == 1 {
      k := 0;
    } else {
      var j := LogOf(n / 2);
      k := j + 1;
    }
  }

  lemma {:induction false} DoubledIsPower(k: nat)
    ensures PowerOfTwo(Doubled(k)) && Doubled(k) > 0
  {
    if k > 0 { DoubledIsPower(k - 1); }
  }

  predicate SegmentOk(b: Image, s: Segment) {
    && s.kind in KINDS && s.flags <= 7 && InFile(b, s.offset, s.fileSize)
    && s.va + s.memorySize <= MAX64 && s.fileSize <= s.memorySize
    && (s.align <= 1 || (PowerOfTwo(s.align) && s.va % s.align == s.offset % s.align))
  }

  predicate MayInterpret(role: Role) {
    role == Program || role == OriginalHostNspawn || role == Libc
  }

  /** The one interpreter, with nothing behind its terminator. */
  predicate NamesInterpreter(b: Image, s: Segment) {
    var raw := RawText(b, s.offset, s.fileSize);
    raw.Some? && Ascii(raw.value) == INTERPRETER && |raw.value| + 1 == s.fileSize
  }

  function Table(b: Image, ph: nat, count: nat): (segments: seq<Segment>)
    requires ph + 56 * count <= |b|
    ensures |segments| == count
  {
    if count == 0 then [] else Table(b, ph, count - 1) + [SegmentAt(b, ph + 56 * (count - 1))]
  }

  lemma {:induction false} TableAt(b: Image, ph: nat, count: nat, i: nat)
    requires ph + 56 * count <= |b| && i < count
    ensures Table(b, ph, count)[i] == SegmentAt(b, ph + 56 * i)
  {
    if i < count - 1 { TableAt(b, ph, count - 1, i); }
  }

  predicate RowOk(b: Image, s: Segment, role: Role) {
    SegmentOk(b, s) && (s.kind == INTERP ==> MayInterpret(role) && NamesInterpreter(b, s))
  }

  /** Every row in order, and at most one that names an interpreter. */
  predicate TableOk(b: Image, segments: seq<Segment>, role: Role) {
    && (forall i :: 0 <= i < |segments| ==> RowOk(b, segments[i], role))
    && (forall i, j :: 0 <= i < j < |segments| && segments[i].kind == INTERP ==> segments[j].kind != INTERP)
  }

  predicate Interprets(segments: seq<Segment>) {
    exists i :: 0 <= i < |segments| && segments[i].kind == INTERP
  }

  method ReadSegments(b: Image, ph: nat, count: nat, role: Role) returns (ok: bool, segments: seq<Segment>, interpreter: Option<string>)
    requires ph + 56 * count <= |b|
    ensures ok <==> TableOk(b, Table(b, ph, count), role)
    ensures ok ==> segments == Table(b, ph, count)
    ensures ok ==> interpreter == if Interprets(segments) then Some(INTERPRETER) else None
  {
    ok, segments, interpreter := true, [], None;
    ghost var all := Table(b, ph, count);
    for i := 0 to count
      invariant Scanned(b, all, role, i, segments, interpreter) && Table(b, ph, i) == all[..i]
    {
      var s := SegmentAt(b, ph + 56 * i);
      TableNext(b, ph, count, i);
      ScanNext(b, all, role, i, segments, interpreter);
      if !RowOk(b, s, role) || (s.kind == INTERP && interpreter.Some?) { return false, segments, interpreter; }
      if s.kind == INTERP { interpreter := Some(INTERPRETER); }
      segments := segments + [s];
    }
    assert all[..count] == all;
  }

  /** The first i rows were read, are in order, and gave this interpreter. */
  ghost predicate Scanned(b: Image, all: seq<Segment>, role: Role, i: nat, segments: seq<Segment>, interpreter: Option<string>)
    requires i <= |all|
  {
    && segments == all[..i] && TableOk(b, segments, role)
    && interpreter == if Interprets(segments) then Some(INTERPRETER) else None
  }

  lemma ScanNext(b: Image, all: seq<Segment>, role: Role, i: nat, segments: seq<Segment>, interpreter: Option<string>)
    requires i < |all| && Scanned(b, all, role, i, segments, interpreter)
    ensures
      if !RowOk(b, all[i], role) || (all[i].kind == INTERP && interpreter.Some?) then !TableOk(b, all, role)
      else Scanned(b, all, role, i + 1, segments + [all[i]], if all[i].kind == INTERP then Some(INTERPRETER) else interpreter)
  {
    RowDecides(b, all, role, segments, i);
    assert all[..i + 1] == all[..i] + [all[i]];
  }

  lemma TableNext(b: Image, ph: nat, count: nat, i: nat)
    requires ph + 56 * count <= |b| && i < count && Table(b, ph, i) == Table(b, ph, count)[..i]
    ensures Table(b, ph, count)[i] == SegmentAt(b, ph + 56 * i)
    ensures Table(b, ph, i + 1) == Table(b, ph, i) + [SegmentAt(b, ph + 56 * i)] == Table(b, ph, count)[..i + 1]
  {
    TableAt(b, ph, count, i);
  }

  /** One more row: the table so far stays in order, or the whole table is refused. */
  lemma RowDecides(b: Image, all: seq<Segment>, role: Role, seen: seq<Segment>, i: nat)
    requires i < |all| && seen == all[..i] && TableOk(b, seen, role)
    ensures !RowOk(b, all[i], role) || (all[i].kind == INTERP && Interprets(seen)) ==> !TableOk(b, all, role)
    ensures RowOk(b, all[i], role) && !(all[i].kind == INTERP && Interprets(seen)) ==>
              TableOk(b, seen + [all[i]], role) && (Interprets(seen + [all[i]]) <==> Interprets(seen) || all[i].kind == INTERP)
  {
    if RowOk(b, all[i], role) && !(all[i].kind == INTERP && Interprets(seen)) {
      TableGrows(b, seen, role, all[i]);
    } else {
      TableRefused(b, all, role, seen, i);
    }
  }

  lemma TableRefused(b: Image, all: seq<Segment>, role: Role, seen: seq<Segment>, i: nat)
    requires i < |all| && seen == all[..i]
    requires !RowOk(b, all[i], role) || (all[i].kind == INTERP && Interprets(seen))
    ensures !TableOk(b, all, role)
  {
    if all[i].kind == INTERP && Interprets(seen) {
      var j :| 0 <= j < |seen| && seen[j].kind == INTERP;
      assert all[j].kind == INTERP;
    }
  }

  lemma TableGrows(b: Image, seen: seq<Segment>, role: Role, s: Segment)
    requires TableOk(b, seen, role) && RowOk(b, s, role) && (s.kind == INTERP ==> !Interprets(seen))
    ensures TableOk(b, seen + [s], role)
    ensures Interprets(seen + [s]) <==> Interprets(seen) || s.kind == INTERP
  {
    var more := seen + [s];
    assert more[|seen|] == s && forall i :: 0 <= i < |seen| ==> more[i] == seen[i];
  }

  // ---- loads and addresses -------------------------------------------------

  predicate Apart(a: Segment, b: Segment) {
    a.memorySize == 0 || b.memorySize == 0 || a.va + a.memorySize <= b.va || b.va + b.memorySize <= a.va
  }

  predicate Disjoint(loads: seq<Segment>) {
    forall i, j :: 0 <= j < i < |loads| ==> Apart(loads[i], loads[j])
  }

  method CheckDisjoint(loads: seq<Segment>) returns (ok: bool)
    ensures ok <==> Disjoint(loads)
  {
    for i := 0 to |loads|
      invariant forall k, j :: 0 <= j < k < i ==> Apart(loads[k], loads[j])
    {
      for j := 0 to i
        invariant forall m :: 0 <= m < j ==> Apart(loads[i], loads[m])
      {
        if !Apart(loads[i], loads[j]) { return false; }
      }
    }
    ok := true;
  }

  /** The address lies in the part of the segment that the file backs. */
  predicate Backs(s: Segment, address: nat) {
    s.va <= address < s.va + s.fileSize
  }

  predicate Sized(loads: seq<Segment>) {
    forall i :: 0 <= i < |loads| ==> loads[i].fileSize <= loads[i].memorySize
  }

  function FileOffset(s: Segment, address: nat): nat
    requires Backs(s, address)
  {
    s.offset + (address - s.va)
  }

  /** Disjoint loads give every address at most one place in the file. */
  lemma OnePlace(loads: seq<Segment>, i: nat, j: nat, address: nat)
    requires Disjoint(loads) && Sized(loads) && i < |loads| && j < |loads| && i != j && Backs(loads[i], address)
    ensures !Backs(loads[j], address)
  {
    assert i < j ==> Apart(loads[j], loads[i]);
    assert j < i ==> Apart(loads[i], loads[j]);
  }

  lemma Tail(loads: seq<Segment>)
    requires loads != [] && Disjoint(loads) && Sized(loads)
    ensures Disjoint(loads[1..]) && Sized(loads[1..])
  {
    assert forall i :: 0 <= i < |loads| - 1 ==> loads[1..][i] == loads[i + 1];
  }

  /** Where the selection pins one backed address, being selected once is being selected. */
  lemma {:induction false} SelectedOnce(loads: seq<Segment>, keep: Segment -> bool, address: nat)
    requires Disjoint(loads) && Sized(loads)
    requires forall s :: s in loads && keep(s) ==> Backs(s, address)
    ensures |Where(loads, keep)| <= 1
    ensures |Where(loads, keep)| == 1 <==> exists s :: s in loads && keep(s)
  {
    if loads != [] {
      Tail(loads);
      SelectedOnce(loads[1..], keep, address);
      if keep(loads[0]) {
        forall s | s in loads[1..] ensures !keep(s) {
          var j :| 0 <= j < |loads[1..]| && loads[1..][j] == s;
          OnePlace(loads, 0, j + 1, address);
        }
        WhereNone(loads[1..], keep);
        assert loads[0] in loads;
      } else {
        assert loads == [loads[0]] + loads[1..];
      }
    }
  }
}
