/** The whole validation of an ELF image in a role, and what its acceptance means. */
module ElfValidate {
  import opened Text
  import opened ElfImage
  import opened ElfRole

  const MAX_IMAGE := 128 * 1024 * 1024
  const MAX_SEGMENTS := 4096
  const LIBC := "libc.so.6"
  const LIBC_PATH := "/usr/lib/x86_64-linux-gnu/libc.so.6"

  datatype Facts = Facts(elfType: nat, entry: nat, soname: Option<string>, needed: seq<string>, interpreter: Option<string>)

  // ---- header --------------------------------------------------------------

  predicate Expected(role: Role, soname: Option<string>, path: Option<string>) {
    if role == Libc then soname == Some(LIBC) && path == Some(LIBC_PATH)
    else path.None? && if role == SharedObject then soname.Some? && SafeName(soname.value) else soname.None?
  }

  predicate HeaderOk(b: Image, role: Role) {
    && 64 <= |b| <= MAX_IMAGE
    && b[0..4] == [127, 69, 76, 70] && b[4] == 2 && b[5] == 1 && b[6] == 1
    && U16(b, 18) == 62 && U32(b, 20) == 1 && U16(b, 52) == 64
    && (U16(b, 16) == 2 || U16(b, 16) == 3)
    && (role == SharedObject || role == Extension || role == Libc ==> U16(b, 16) == 3)
  }

  /** The program table lies in the file. */
  predicate TableFits(b: Image)
    requires |b| >= 64
  {
    && U64(b, 32) >= 64 && U16(b, 54) == 56 && 0 < U16(b, 56) <= MAX_SEGMENTS
    && InFile(b, U64(b, 32), U16(b, 56) * 56)
  }

  function Segments(b: Image): seq<Segment>
    requires |b| >= 64 && TableFits(b)
  {
    Table(b, U64(b, 32), U16(b, 56))
  }

  function OfKind(segments: seq<Segment>, kind: nat): (r: seq<Segment>)
    ensures forall s :: s in r <==> s in segments && s.kind == kind
  {
    Where(segments, (s: Segment) => s.kind == kind)
  }

  predicate NeedsEntry(role: Role) {
    role == Loader || role == Program || role == OriginalHostNspawn || role == Libc
  }

  predicate Enters(s: Segment, entry: nat) {
    s.flags % 2 == 1 && Backs(s, entry)
  }

  function Entrances(loads: seq<Segment>, entry: nat): seq<Segment> {
    Where(loads, (s: Segment) => Enters(s, entry))
  }

  predicate EntryOk(role: Role, entry: nat, loads: seq<Segment>) {
    NeedsEntry(role) ==> entry != 0 && |Entrances(loads, entry)| == 1
  }

  // ---- dynamic section -----------------------------------------------------

  predicate MapsDynamic(d: Segment, s: Segment) {
    s.va <= d.va && d.va + d.fileSize <= s.va + s.fileSize && d.offset - s.offset == d.va - s.va
  }

  predicate HoldsRange(s: Segment, va: nat, size: nat) {
    s.va <= va && va + size <= s.va + s.fileSize
  }

  predicate SizeOk(d: Segment) {
    d.fileSize > 0 && d.fileSize % 16 == 0 && d.fileSize <= TABLE_BYTES
  }

  function Mappings(loads: seq<Segment>, d: Segment): seq<Segment> {
    Where(loads, (s: Segment) => MapsDynamic(d, s))
  }

  function Holders(loads: seq<Segment>, va: nat, size: nat): (r: seq<Segment>)
    ensures forall s :: s in r <==> s in loads && HoldsRange(s, va, size)
  {
    Where(loads, (s: Segment) => HoldsRange(s, va, size))
  }

  predicate RangeOk(va: Option<nat>, size: Option<nat>) {
    va.Some? && size.Some? && 0 < size.value <= TABLE_BYTES && va.value + size.value <= MAX64
  }

  /** The string table at an address, found in the one load that holds it. */
  function StringsAt(loads: seq<Segment>, va: Option<nat>, size: Option<nat>): (t: Option<Strings>)
  {
    if !RangeOk(va, size) || |Holders(loads, va.value, size.value)| != 1 then None
    else
      var holder := Holders(loads, va.value, size.value)[0];
      assert holder in Holders(loads, va.value, size.value);
      Some(Strings(holder.offset + (va.value - holder.va), size.value))
  }

  predicate AllOk(b: Image, segments: seq<Segment>) {
    forall s :: s in segments ==> SegmentOk(b, s)
  }

  /** What the names of one dynamic table ask for. */
  function NamesOf(b: Image, loads: seq<Segment>, d: Segment, nspawn: bool): (r: Option<Found>)
    requires SizeOk(d) && InFile(b, d.offset, d.fileSize)
  {
    var live := Live(b, d.offset, d.fileSize / 16);
    var t := StringsAt(loads, ValueOf(live, STRTAB), ValueOf(live, STRSZ));
    if !EntriesOk(live, nspawn) || !Ended(b, d.offset, d.fileSize / 16) || t.None? then None
    else
      var rows := Decode(b, t.value, NamesIn(live));
      if rows.None? then None else Gather(rows.value)
  }

  /** What the dynamic section asks for; an image without one asks for nothing. */
  function DynamicOf(b: Image, segments: seq<Segment>, nspawn: bool): (r: Option<Found>)
    requires AllOk(b, segments)
  {
    var loads, dynamics := OfKind(segments, LOAD), OfKind(segments, DYNAMIC);
    if dynamics == [] then Some(NONE_FOUND)
    else if |dynamics| > 1 || !SizeOk(dynamics[0]) || |Mappings(loads, dynamics[0])| != 1 then None
    else
      assert dynamics[0] in dynamics;
      NamesOf(b, loads, dynamics[0], nspawn)
  }

  /** The string table lies in the file. */
  lemma StringsInFile(b: Image, loads: seq<Segment>, va: Option<nat>, size: Option<nat>)
    requires AllOk(b, loads) && StringsAt(loads, va, size).Some?
    ensures var t := StringsAt(loads, va, size).value; t.size > 0 && InFile(b, t.base, t.size)
  {
    assert Holders(loads, va.value, size.value)[0] in Holders(loads, va.value, size.value);
  }

  /** The table's bytes are those the load holds at its address. */
  lemma StringsMapped(loads: seq<Segment>, va: nat, size: nat, t: Strings)
    requires StringsAt(loads, Some(va), Some(size)) == Some(t)
    ensures t.size == size > 0
    ensures exists s :: s in loads && s.va <= va && va + size <= s.va + s.fileSize && t.base - s.offset == va - s.va
  {
    var holder := Holders(loads, va, size)[0];
    assert holder in Holders(loads, va, size);
  }

  method ReadNames(b: Image, loads: seq<Segment>, d: Segment, nspawn: bool) returns (r: Option<Found>)
    requires SizeOk(d) && InFile(b, d.offset, d.fileSize)
    ensures r == NamesOf(b, loads, d, nspawn)
  {
    var ok, ended, t := ScanEntries(b, d.offset, d.fileSize / 16, nspawn);
    if !ok || !ended { return None; }
    var strings := StringsAt(loads, t.strVa, t.strSize);
    if strings.None? { return None; }
    var rows := DecodeNames(b, strings.value, t.names);
    if rows.None? { return None; }
    r := GatherNames(rows.value);
  }

  method ReadDynamic(b: Image, segments: seq<Segment>, nspawn: bool) returns (r: Option<Found>)
    requires AllOk(b, segments)
    ensures r == DynamicOf(b, segments, nspawn)
  {
    var loads, dynamics := OfKind(segments, LOAD), OfKind(segments, DYNAMIC);
    if |dynamics| > 1 { return None; }
    if |dynamics| == 0 { return Some(NONE_FOUND); }
    assert dynamics[0] in dynamics;
    if !SizeOk(dynamics[0]) || |Mappings(loads, dynamics[0])| != 1 { return None; }
    r := ReadNames(b, loads, dynamics[0], nspawn);
  }

  // ---- validation ----------------------------------------------------------

  predicate RoleOk(role: Role, soname: Option<string>, interpreter: Option<string>, found: Found) {
    && (role == OriginalHostNspawn ==> interpreter == Some(INTERPRETER) && found.runpath == Some(NSPAWN_RUNPATH))
    && (role == Loader ==> found.needed == [])
    && (role == SharedObject || role == Libc ==> found.soname == soname)
    && (role == Libc ==> interpreter == Some(INTERPRETER))
  }

  function InterpreterOf(segments: seq<Segment>): Option<string> {
    if Interprets(segments) then Some(INTERPRETER) else None
  }

  /** The loads, the entry, the dynamic section and the role's own rules. */
  predicate BodyOk(b: Image, segments: seq<Segment>, role: Role, soname: Option<string>)
    requires AllOk(b, segments) && |b| >= 64
  {
    var loads, found := OfKind(segments, LOAD), DynamicOf(b, segments, role == OriginalHostNspawn);
    && loads != [] && Disjoint(loads) && EntryOk(role, U64(b, 24), loads)
    && found.Some? && RoleOk(role, soname, InterpreterOf(segments), found.value)
  }

  /** The image is accepted in its role. `pinned` answers whether the bytes have the
      fixed digest that the host nspawn role asks for. */
  predicate Accepts(b: Image, role: Role, soname: Option<string>, path: Option<string>, pinned: bool) {
    && Expected(role, soname, path) && HeaderOk(b, role) && (role == OriginalHostNspawn ==> pinned)
    && TableFits(b) && TableOk(b, Segments(b), role) && AllOk(b, Segments(b)) && BodyOk(b, Segments(b), role, soname)
  }

  lemma TableAllOk(b: Image, segments: seq<Segment>, role: Role)
    requires TableOk(b, segments, role)
    ensures AllOk(b, segments)
  {
    forall s | s in segments ensures SegmentOk(b, s) {
      var i :| 0 <= i < |segments| && segments[i] == s;
      assert RowOk(b, segments[i], role);
    }
  }

  method CheckBody(b: Image, segments: seq<Segment>, interpreter: Option<string>, role: Role, soname: Option<string>)
    returns (r: Option<Found>)
    requires AllOk(b, segments) && |b| >= 64 && interpreter == InterpreterOf(segments)
    ensures r.Some? <==> BodyOk(b, segments, role, soname)
    ensures r.Some? ==> r == DynamicOf(b, segments, role == OriginalHostNspawn)
  {
    var loads := OfKind(segments, LOAD);
    if loads == [] { return None; }
    var apart := CheckDisjoint(loads);
    if !apart { return None; }
    if role != SharedObject && role != Extension && (U64(b, 24) == 0 || |Entrances(loads, U64(b, 24))| != 1) { return None; }
    r := ReadDynamic(b, segments, role == OriginalHostNspawn);
    if r.None? { return; }
    var found := r.value;
    if role == OriginalHostNspawn && (interpreter != Some(INTERPRETER) || found.runpath != Some(NSPAWN_RUNPATH)) { return None; }
    if role == Loader && |found.needed| != 0 { return None; }
    if (role == SharedObject || role == Libc) && found.soname != soname { return None; }
    if role == Libc && interpreter != Some(INTERPRETER) { return None; }
  }

  method CheckExpected(role: Role, soname: Option<string>, path: Option<string>) returns (ok: bool)
    ensures ok <==> Expected(role, soname, path)
  {
    if role == Libc { return soname == Some(LIBC) && path == Some(LIBC_PATH); }
    if path.Some? { return false; }
    if role == SharedObject { return soname.Some? && SafeName(soname.value); }
    ok := soname.None?;
  }

  method Validate(b: Image, role: Role, soname: Option<string>, path: Option<string>, pinned: bool) returns (r: Option<Facts>)
    ensures r.Some? <==> Accepts(b, role, soname, path, pinned)
    ensures r.Some? ==>
      var found := DynamicOf(b, Segments(b), role == OriginalHostNspawn).value;
      r.value == Facts(U16(b, 16), U64(b, 24), found.soname, found.needed, InterpreterOf(Segments(b)))
  {
    var expected := CheckExpected(role, soname, path);
    if !expected { return None; }
    if !HeaderOk(b, role) || (role == OriginalHostNspawn && !pinned) || !TableFits(b) { return None; }
    var ok, segments, interpreter := ReadSegments(b, U64(b, 32), U16(b, 56), role);
    if !ok { return None; }
    TableAllOk(b, segments, role);
    var found := CheckBody(b, segments, interpreter, role, soname);
    if found.None? { return None; }
    r := Some(Facts(U16(b, 16), U64(b, 24), found.value.soname, found.value.needed, interpreter));
  }

  // ---- what acceptance means -----------------------------------------------

  lemma {:induction false} WhereApart(segments: seq<Segment>, b: Image)
    requires AllOk(b, segments)
    ensures Sized(OfKind(segments, LOAD))
  {
    var loads := OfKind(segments, LOAD);
    forall i | 0 <= i < |loads| ensures loads[i].fileSize <= loads[i].memorySize { assert loads[i] in loads; }
  }

  /** Over disjoint loads, counting exactly one match is the same as there being one:
      for the entry, for the dynamic table and for the string table. */
  lemma CountsAreExistence(loads: seq<Segment>, entry: nat, d: Segment, va: nat, size: nat)
    requires Disjoint(loads) && Sized(loads) && d.fileSize > 0 && size > 0
    ensures |Entrances(loads, entry)| == 1 <==>
            exists s :: s in loads && s.flags % 2 == 1 && s.va <= entry < s.va + s.fileSize
    ensures |Mappings(loads, d)| == 1 <==>
            exists s :: s in loads && s.va <= d.va && d.va + d.fileSize <= s.va + s.fileSize && d.va - s.va == d.offset - s.offset
    ensures |Holders(loads, va, size)| == 1 <==>
            exists s :: s in loads && s.va <= va && va + size <= s.va + s.fileSize
  {
    SelectedOnce(loads, (s: Segment) => Enters(s, entry), entry);
    SelectedOnce(loads, (s: Segment) => MapsDynamic(d, s), d.va);
    SelectedOnce(loads, (s: Segment) => HoldsRange(s, va, size), va);
  }

  /** In an accepted image every address has at most one place in the file, and that
      place lies in the buffer. */
  lemma AddressesMapOnce(b: Image, role: Role, soname: Option<string>, path: Option<string>, pinned: bool, i: nat, j: nat, address: nat)
    requires Accepts(b, role, soname, path, pinned)
    requires i < |OfKind(Segments(b), LOAD)| && Backs(OfKind(Segments(b), LOAD)[i], address)
    requires j < |OfKind(Segments(b), LOAD)| && Backs(OfKind(Segments(b), LOAD)[j], address)
    ensures i == j && FileOffset(OfKind(Segments(b), LOAD)[i], address) < |b|
  {
    var loads := OfKind(Segments(b), LOAD);
    WhereApart(Segments(b), b);
    assert loads[i] in loads;
    if i != j { OnePlace(loads, i, j, address); }
  }

  /** A name that is a NUL-terminated string inside the string table. */
  ghost predicate InTable(b: Image, t: Strings, name: string) {
    exists v: nat, raw: seq<Byte> :: TextAt(b, t, v, raw) && Ascii(raw) == name
  }

  predicate TextAt(b: Image, t: Strings, v: nat, raw: seq<Byte>) {
    v < t.size && IsText(b, t.base + v, t.size - v, raw)
  }

  lemma SpelledInTable(b: Image, t: Strings, e: Entry, name: string)
    requires Spells(b, t, e, name)
    ensures InTable(b, t, name)
  {
    var raw := TextOf(b, t, e).value;
    assert TextAt(b, t, e.value, raw) by { RawTextIsText(b, t.base + e.value, t.size - e.value, raw); }
  }

  /** The needed names: the texts of the needed entries in order, each a NUL-terminated
      string of the string table, safe, distinct, and within the bounds. */
  ghost predicate NamesBounded(b: Image, t: Strings, live: seq<Entry>, found: Found) {
    && InFile(b, t.base, t.size) && Distinct(found.needed) && |found.needed| <= DEPENDENCIES
    && NameBytes(found.needed) <= AGGREGATE_BYTES
    && Spelled(b, t, NeededEntries(live), found.needed)
    && (forall n :: n in found.needed ==> SafeName(n) && InTable(b, t, n))
    && (found.soname.Some? ==> SafeName(found.soname.value) && InTable(b, t, found.soname.value))
  }

  lemma NeededInTable(b: Image, t: Strings, entries: seq<Entry>, needed: seq<string>)
    requires Spelled(b, t, entries, needed)
    ensures forall n :: n in needed ==> InTable(b, t, n)
  {
    forall n | n in needed ensures InTable(b, t, n) {
      var i :| 0 <= i < |needed| && needed[i] == n;
      SpelledInTable(b, t, entries[i], n);
    }
  }

  lemma SonameInTable(b: Image, t: Strings, names: seq<Entry>, n: string)
    requires Decode(b, t, names).Some? && NamedBy(Decode(b, t, names).value, n, SONAME)
    ensures InTable(b, t, n)
  {
    var rows := Decode(b, t, names).value;
    var i :| 0 <= i < |rows| && rows[i].tag == SONAME && Ascii(rows[i].raw) == n;
    assert Spells(b, t, names[i], n);
    SpelledInTable(b, t, names[i], n);
  }

  lemma GatheredBounded(b: Image, t: Strings, live: seq<Entry>)
    requires InFile(b, t.base, t.size) && CountsOk(live)
    requires Decode(b, t, NamesIn(live)).Some? && Gather(Decode(b, t, NamesIn(live)).value).Some?
    ensures NamesBounded(b, t, live, Gather(Decode(b, t, NamesIn(live)).value).value)
  {
    var names := NamesIn(live);
    var rows := Decode(b, t, names).value;
    NeededAmongNames(live);
    assert AllNames(rows) by { assert forall i :: 0 <= i < |rows| ==> rows[i].tag == names[i].tag && IsName(names[i]); }
    GatheredNeeded(rows);
    GatheredSafe(rows);
    GatheredOthers(rows);
    NeededBytes(rows);
    NeededSpelled(b, t, names);
    NeededInTable(b, t, NeededEntries(live), NeededOf(rows));
    var found := Gather(rows).value;
    if found.soname.Some? { SonameInTable(b, t, names, found.soname.value); }
  }

  /** The live entries of an image's one dynamic table. */
  function LiveOf(b: Image): (live: seq<Entry>)
    requires |b| >= 64 && TableFits(b) && AllOk(b, Segments(b)) && OfKind(Segments(b), DYNAMIC) != []
  {
    var d := OfKind(Segments(b), DYNAMIC)[0];
    assert d in OfKind(Segments(b), DYNAMIC);
    Live(b, d.offset, d.fileSize / 16)
  }

  /** Every accepted image with a dynamic section asks only for bounded names of its
      own string table. */
  lemma AcceptedNames(b: Image, role: Role, soname: Option<string>, path: Option<string>, pinned: bool) returns (t: Strings)
    requires Accepts(b, role, soname, path, pinned) && OfKind(Segments(b), DYNAMIC) != []
    ensures NamesBounded(b, t, LiveOf(b), DynamicOf(b, Segments(b), role == OriginalHostNspawn).value)
  {
    var loads, dynamics := OfKind(Segments(b), LOAD), OfKind(Segments(b), DYNAMIC);
    assert dynamics[0] in dynamics;
    var live := LiveOf(b);
    t := StringsAt(loads, ValueOf(live, STRTAB), ValueOf(live, STRSZ)).value;
    StringsInFile(b, loads, ValueOf(live, STRTAB), ValueOf(live, STRSZ));
    GatheredBounded(b, t, live);
  }

  // ---- a small image -------------------------------------------------------

  /** A shared-object header, one load of the whole file, and a dynamic table that needs
      the library "a". */
  function TinyByte(i: nat): Byte {
    if i < 64 then TinyHeaderByte(i) else if i < 176 then TinyTableByte(i) else TinyDynamicByte(i)
  }

  function TinyHeaderByte(i: nat): Byte {
    if i == 0 then 127 else if i == 1 then 69 else if i == 2 then 76 else if i == 3 then 70
    else if i == 4 then 2 else if i == 5 || i == 6 || i == 20 then 1
    else if i == 16 then 3 else if i == 18 then 62 else if i == 32 || i == 52 then 64
    else if i == 54 then 56 else if i == 56 then 2
    else 0
  }

  function TinyTableByte(i: nat): Byte {
    if i == 64 then 1 else if i == 96 || i == 104 then 242
    else if i == 120 then 2 else if i == 128 || i == 136 then 176 else if i == 152 || i == 160 then 64
    else 0
  }

  function TinyDynamicByte(i: nat): Byte {
    if i == 176 then 1 else if i == 192 then 5 else if i == 200 then 240
    else if i == 208 then 10 else if i == 216 then 2 else if i == 240 then 97
    else 0
  }

  ghost predicate IsTiny(b: Image) {
    |b| == 242 && forall i :: 0 <= i < 242 ==> b[i] == TinyByte(i)
  }

  /** A number below 256 in eight bytes. */
  lemma SmallRead(b: Image, at: nat)
    requires at + 8 <= |b| && forall i :: at < i < at + 8 ==> b[i] == 0
    ensures U64(b, at) == b[at]
  {
    assert U16(b, at) == b[at] && U16(b, at + 2) == 0 && U16(b, at + 4) == 0 && U16(b, at + 6) == 0;
  }

  lemma TinyReads(b: Image)
    requires IsTiny(b)
    ensures U16(b, 16) == 3 && U16(b, 18) == 62 && U32(b, 20) == 1 && U16(b, 52) == 64
    ensures U16(b, 54) == 56 && U16(b, 56) == 2 && U64(b, 32) == 64
  {
    SmallRead(b, 32);
  }

  lemma TinyHeader(b: Image)
    requires IsTiny(b)
    ensures HeaderOk(b, Extension)
  {
    TinyReads(b);
    var magic: seq<Byte> := [127, 69, 76, 70];
    assert b[0..4] == magic;
  }

  const WHOLE := Segment(LOAD, 0, 0, 0, 242, 242, 0)
  const TABLE := Segment(DYNAMIC, 0, 176, 176, 64, 64, 0)

  /** The bytes after `at` up to `end` that a row leaves at zero. */
  lemma SegmentReads(b: Image, p: nat, kind: Byte, place: Byte, size: Byte)
    requires p + 56 <= |b| && b[p] == kind && b[p + 8] == place && b[p + 16] == place && b[p + 32] == size && b[p + 40] == size
    requires forall i :: p < i < p + 56 && i != p + 8 && i != p + 16 && i != p + 32 && i != p + 40 ==> b[i] == 0
    ensures SegmentAt(b, p) == Segment(kind, 0, place, place, size, size, 0)
  {
    assert U16(b, p) == kind && U16(b, p + 2) == 0 && U16(b, p + 4) == 0 && U16(b, p + 6) == 0;
    SmallRead(b, p + 8);
    SmallRead(b, p + 16);
    SmallRead(b, p + 32);
    SmallRead(b, p + 40);
    SmallRead(b, p + 48);
  }

  lemma TinySegments(b: Image)
    requires IsTiny(b)
    ensures TableFits(b) && Segments(b) == [WHOLE, TABLE]
  {
    TinyReads(b);
    SegmentReads(b, 64, 1, 0, 242);
    SegmentReads(b, 120, 2, 176, 64);
    TwoRows(b);
  }

  lemma TwoRows(b: Image)
    requires |b| >= 176 && U64(b, 32) == 64 && U16(b, 54) == 56 && U16(b, 56) == 2
    ensures TableFits(b) && Segments(b) == [SegmentAt(b, 64), SegmentAt(b, 120)]
  {
    assert Table(b, 64, 2) == Table(b, 64, 1) + [SegmentAt(b, 120)];
    assert Table(b, 64, 1) == Table(b, 64, 0) + [SegmentAt(b, 64)];
  }

  lemma EntryReads(b: Image, at: nat, tag: Byte, value: Byte)
    requires at + 16 <= |b| && b[at] == tag && b[at + 8] == value
    requires forall i :: at < i < at + 16 && i != at + 8 ==> b[i] == 0
    ensures EntryAt(b, at) == Entry(tag, value)
  {
    SmallRead(b, at);
    SmallRead(b, at + 8);
  }

  function TinyEntries(): seq<Entry> { [Entry(NEEDED, 0), Entry(STRTAB, 240), Entry(STRSZ, 2)] }

  lemma TinyLive(b: Image)
    requires IsTiny(b)
    ensures Live(b, 176, 4) == TinyEntries() && Ended(b, 176, 4)
  {
    EntryReads(b, 176, 1, 0);
    EntryReads(b, 192, 5, 240);
    EntryReads(b, 208, 10, 2);
    EntryReads(b, 224, 0, 0);
    FourEntries(b);
  }

  lemma FourEntries(b: Image)
    requires |b| >= 240 && EntryAt(b, 176) == Entry(NEEDED, 0) && EntryAt(b, 192) == Entry(STRTAB, 240)
    requires EntryAt(b, 208) == Entry(STRSZ, 2) && EntryAt(b, 224).tag == NULL_TAG
    ensures Live(b, 176, 4) == TinyEntries() && Ended(b, 176, 4)
  {
    assert Live(b, 224, 1) == [] && Ended(b, 224, 1);
    assert Live(b, 208, 2) == [Entry(STRSZ, 2)] && Ended(b, 208, 2);
    assert Live(b, 192, 3) == [Entry(STRTAB, 240), Entry(STRSZ, 2)] && Ended(b, 192, 3);
  }

  lemma FirstEntry(a: Entry)
    requires a.tag == NEEDED
    ensures EntriesOk([a], false) && NamesIn([a]) == [a] && Count([a], STRTAB) == 0 && Count([a], STRSZ) == 0
  {
    assert EntriesOk([], false);
    EntriesStep([], a, false);
    CountStep([], a, STRTAB);
    CountStep([], a, STRSZ);
    assert [] + [a] == [a];
  }

  lemma ThenStrings(seen: seq<Entry>, c: Entry, names: seq<Entry>)
    requires EntriesOk(seen, false) && NamesIn(seen) == names && Count(seen, STRTAB) == 0 && Count(seen, STRSZ) == 0 && c.tag == STRTAB
    ensures EntriesOk(seen + [c], false) && NamesIn(seen + [c]) == names && Count(seen + [c], STRSZ) == 0
    ensures ValueOf(seen + [c], STRTAB) == Some(c.value)
  {
    EntriesStep(seen, c, false);
    CountStep(seen, c, STRSZ);
  }

  lemma ThenSize(seen: seq<Entry>, d: Entry, names: seq<Entry>)
    requires EntriesOk(seen, false) && NamesIn(seen) == names && Count(seen, STRSZ) == 0 && d.tag == STRSZ
    ensures EntriesOk(seen + [d], false) && NamesIn(seen + [d]) == names
    ensures ValueOf(seen + [d], STRTAB) == ValueOf(seen, STRTAB) && ValueOf(seen + [d], STRSZ) == Some(d.value)
  {
    EntriesStep(seen, d, false);
  }

  /** What the three entries of the table come to. */
  ghost predicate NamesOne(live: seq<Entry>, a: Entry, va: nat, size: nat) {
    EntriesOk(live, false) && NamesIn(live) == [a] && ValueOf(live, STRTAB) == Some(va) && ValueOf(live, STRSZ) == Some(size)
  }

  lemma ThreeEntries(a: Entry, c: Entry, d: Entry, one: seq<Entry>, two: seq<Entry>, live: seq<Entry>)
    requires a.tag == NEEDED && c.tag == STRTAB && d.tag == STRSZ
    requires EntriesOk(one, false) && NamesIn(one) == [a] && Count(one, STRTAB) == 0 && Count(one, STRSZ) == 0
    requires two == one + [c] && live == two + [d]
    ensures NamesOne(live, a, c.value, d.value)
  {
    ThenStrings(one, c, [a]);
    ThenSize(two, d, [a]);
  }

  /** The string "a" of the table. */
  lemma TinyText(b: Image)
    requires IsTiny(b)
    ensures RawText(b, 240, 2) == Some([97])
  {
    var raw: seq<Byte> := [97];
    assert b[240..241] == raw && b[241] == 0;
    RawTextIsText(b, 240, 2, raw);
  }

  lemma DecodeOne(b: Image, t: Strings, e: Entry, raw: seq<Byte>)
    requires TextOf(b, t, e) == Some(raw) && |raw| <= AGGREGATE_BYTES
    ensures Decode(b, t, [e]) == Some([Name(e.tag, raw)])
  {
    assert [e][..0] == [] && [] + [Name(e.tag, raw)] == [Name(e.tag, raw)];
  }

  lemma GatherOne(raw: seq<Byte>)
    requires SafeName(Ascii(raw))
    ensures Gather([Name(NEEDED, raw)]) == Some(Found(None, [Ascii(raw)], None))
  {
    assert [Name(NEEDED, raw)][..0] == [] && [] + [Ascii(raw)] == [Ascii(raw)];
  }

  lemma TinyNamesOne(b: Image, live: seq<Entry>)
    requires IsTiny(b) && live == Live(b, 176, 4)
    ensures NamesOne(live, Entry(NEEDED, 0), 240, 2) && Ended(b, 176, 4)
  {
    TinyLive(b);
    var a, c, d := Entry(NEEDED, 0), Entry(STRTAB, 240), Entry(STRSZ, 2);
    FirstEntry(a);
    ThreeEntries(a, c, d, [a], [a] + [c], live);
  }

  /** The one load holds the whole file, so also the table and its strings. */
  lemma TinyMaps(loads: seq<Segment>)
    requires loads == [WHOLE]
    ensures |Mappings(loads, TABLE)| == 1 && StringsAt(loads, Some(240), Some(2)) == Some(Strings(240, 2))
  {
    assert Mappings(loads, TABLE) == [WHOLE];
    assert Holders(loads, 240, 2) == [WHOLE];
  }

  lemma TinyNames(b: Image, loads: seq<Segment>)
    requires IsTiny(b) && loads == [WHOLE]
    ensures SizeOk(TABLE) && NamesOf(b, loads, TABLE, false) == Some(Found(None, ["a"], None))
  {
    var live := Live(b, 176, 4);
    TinyNamesOne(b, live);
    TinyMaps(loads);
    TinyText(b);
    var raw: seq<Byte> := [97];
    DecodeOne(b, Strings(240, 2), Entry(NEEDED, 0), raw);
    assert Ascii(raw) == "a";
    GatherOne(raw);
  }

  lemma TinyKinds(segments: seq<Segment>)
    requires segments == [WHOLE, TABLE]
    ensures OfKind(segments, LOAD) == [WHOLE] && OfKind(segments, DYNAMIC) == [TABLE]
  {
    assert segments[1..] == [TABLE] && [TABLE][1..] == [];
    OfKindCons(segments, LOAD);
    OfKindCons([TABLE], LOAD);
    OfKindCons(segments, DYNAMIC);
    OfKindCons([TABLE], DYNAMIC);
  }

  lemma OfKindCons(segments: seq<Segment>, kind: nat)
    requires segments != []
    ensures OfKind([], kind) == []
    ensures OfKind(segments, kind) == (if segments[0].kind == kind then [segments[0]] else []) + OfKind(segments[1..], kind)
  {
  }

  lemma TinyRows(b: Image, segments: seq<Segment>)
    requires |b| == 242 && segments == [WHOLE, TABLE]
    ensures TableOk(b, segments, Extension) && AllOk(b, segments)
  {
    assert RowOk(b, WHOLE, Extension) && RowOk(b, TABLE, Extension);
    TableAllOk(b, segments, Extension);
  }

  lemma TinyBody(b: Image, segments: seq<Segment>)
    requires IsTiny(b) && segments == [WHOLE, TABLE] && AllOk(b, segments)
    ensures DynamicOf(b, segments, false) == Some(Found(None, ["a"], None)) && BodyOk(b, segments, Extension, None)
  {
    TinyKinds(segments);
    TinyNames(b, [WHOLE]);
    TinyMaps([WHOLE]);
    assert Disjoint([WHOLE]);
  }

  /** The rules can be met: there is such an image, it is accepted, and it needs "a". */
  lemma TinyAccepted() returns (b: Image)
    ensures IsTiny(b) && Accepts(b, Extension, None, None, false)
    ensures DynamicOf(b, Segments(b), false) == Some(Found(None, ["a"], None))
  {
    b := seq(242, i requires 0 <= i < 242 => TinyByte(i));
    AcceptsTiny(b);
  }

  lemma AcceptsTiny(b: Image)
    requires IsTiny(b)
    ensures Accepts(b, Extension, None, None, false)
    ensures DynamicOf(b, Segments(b), false) == Some(Found(None, ["a"], None))
  {
    TinyHeader(b);
    TinySegments(b);
    var segments := Segments(b);
    TinyRows(b, segments);
    TinyBody(b, segments);
  }
}
