/** The ELF64 structures written out field by field in little-endian order (System V gABI,
    chapters 4 and 5), and read back. */
module ElfLayout {
  import opened Text
  import opened ElfImage
  import opened ElfRole
  import opened ElfValidate

  // ---- little-endian numbers -----------------------------------------------

  function Wide(k: nat): (n: nat)
    ensures n > 0
  {
    if k == 0 then 1 else 256 * Wide(k - 1)
  }

  function Little(n: nat, k: nat): (r: seq<Byte>)
    ensures |r| == k
  {
    if k == 0 then [] else [n % 256] + Little(n / 256, k - 1)
  }

  /** A number splits into its low and its high bytes. */
  lemma {:induction false} LittleSplits(low: nat, high: nat, j: nat, k: nat)
    requires low < Wide(j)
    ensures Little(low + Wide(j) * high, j + k) == Little(low, j) + Little(high, k)
    decreases j
  {
    if j == 0 {
      assert Little(low, 0) + Little(high, k) == Little(high, k);
    } else {
      var m := Wide(j - 1) * high;
      assert Wide(j) * high == 256 * m;
      assert (low + 256 * m) % 256 == low % 256 && (low + 256 * m) / 256 == low / 256 + m;
      LittleSplits(low / 256, high, j - 1, k);
      assert [low % 256] + (Little(low / 256, j - 1) + Little(high, k)) == Little(low, j) + Little(high, k);
    }
  }

  lemma Widths()
    ensures Wide(2) == 0x1_0000 && Wide(4) == 0x1_0000_0000
  {
    assert Wide(1) == 256 * Wide(0);
    assert Wide(2) == 256 * Wide(1);
    assert Wide(3) == 256 * Wide(2);
  }

  lemma Read16(b: Image, at: nat, n: nat)
    requires at + 2 <= |b| && b[at..at + 2] == Little(n, 2) && n < 0x1_0000
    ensures U16(b, at) == n
  {
    assert b[at] == b[at..at + 2][0] && b[at + 1] == b[at..at + 2][1];
    assert Little(n, 2) == [n % 256] + Little(n / 256, 1);
    assert Little(n / 256, 1) == [n / 256 % 256] + Little(n / 256 / 256, 0);
  }

  lemma SliceHalves(b: Image, at: nat, a: seq<Byte>, c: seq<Byte>)
    requires at + |a| + |c| <= |b| && b[at..at + (|a| + |c|)] == a + c
    ensures b[at..at + |a|] == a && b[at + |a|..at + |a| + |c|] == c
  {
    var s := b[at..at + (|a| + |c|)];
    assert b[at..at + |a|] == s[..|a|] && b[at + |a|..at + |a| + |c|] == s[|a|..];
  }

  lemma Read32(b: Image, at: nat, n: nat)
    requires at + 4 <= |b| && b[at..at + 4] == Little(n, 4) && n < 0x1_0000_0000
    ensures U32(b, at) == n
  {
    var low, high := n % 0x1_0000, n / 0x1_0000;
    Widths();
    LittleSplits(low, high, 2, 2);
    SliceHalves(b, at, Little(low, 2), Little(high, 2));
    Read16(b, at, low);
    Read16(b, at + 2, high);
  }

  lemma Read64(b: Image, at: nat, n: nat)
    requires at + 8 <= |b| && b[at..at + 8] == Little(n, 8) && n <= MAX64
    ensures U64(b, at) == n
  {
    var low, high := n % 0x1_0000_0000, n / 0x1_0000_0000;
    Widths();
    LittleSplits(low, high, 4, 4);
    SliceHalves(b, at, Little(low, 4), Little(high, 4));
    Read32(b, at, low);
    Read32(b, at + 4, high);
  }

  // ---- structures ----------------------------------------------------------

  datatype Field = Field(value: nat, width: nat)

  /** The value fits its two, four or eight bytes. */
  ghost predicate FieldFits(f: Field) {
    || (f.width == 2 && f.value < 0x1_0000)
    || (f.width == 4 && f.value < 0x1_0000_0000)
    || (f.width == 8 && f.value <= MAX64)
  }

  ghost predicate Fits(fields: seq<Field>) {
    forall i {:trigger FieldFits(fields[i])} :: 0 <= i < |fields| ==> FieldFits(fields[i])
  }

  /** The fields one after the other. */
  function Encoded(fields: seq<Field>): (r: seq<Byte>) {
    if fields == [] then []
    else Encoded(fields[..|fields| - 1]) + Little(fields[|fields| - 1].value, fields[|fields| - 1].width)
  }

  lemma {:induction false} EncodedSize(fields: seq<Field>)
    ensures |Encoded(fields)| == Offset(fields, |fields|)
  {
    if fields != [] {
      EncodedSize(fields[..|fields| - 1]);
      OffsetPrefix(fields, |fields| - 1);
    }
  }

  /** Where field i starts. */
  function Offset(fields: seq<Field>, i: nat): (n: nat)
    requires i <= |fields|
  {
    if i == 0 then 0 else Offset(fields, i - 1) + fields[i - 1].width
  }

  lemma {:induction false} OffsetPrefix(fields: seq<Field>, n: nat)
    requires n <= |fields|
    ensures Offset(fields[..n], n) == Offset(fields, n)
    decreases n
  {
    if n > 0 {
      OffsetPrefix(fields, n - 1);
      SamePrefix(fields, n, n - 1);
      OffsetPrefix(fields[..n], n - 1);
    }
  }

  lemma SamePrefix(fields: seq<Field>, n: nat, m: nat)
    requires m <= n <= |fields|
    ensures fields[..n][..m] == fields[..m]
  {
  }

  lemma {:induction false} OffsetsGrow(fields: seq<Field>, i: nat, j: nat)
    requires i <= j <= |fields|
    ensures Offset(fields, i) <= Offset(fields, j)
  {
    if i < j { OffsetsGrow(fields, i, j - 1); }
  }

  /** A field stands at its offset. */
  lemma {:induction false} FieldAt(fields: seq<Field>, i: nat, s: seq<Byte>)
    requires i < |fields| && s == Encoded(fields)
    ensures var at := Offset(fields, i);
            at + fields[i].width <= |s| && s[at..at + fields[i].width] == Little(fields[i].value, fields[i].width)
    decreases |fields|
  {
    var n := |fields| - 1;
    var init := fields[..n];
    EncodedSize(init);
    OffsetPrefix(fields, n);
    if i == n {
      assert s[|Encoded(init)|..] == Little(fields[n].value, fields[n].width);
    } else {
      FieldAt(init, i, Encoded(init));
      OffsetPrefix(fields, i);
      OffsetPrefix(init, i);
      SamePrefix(fields, n, i);
      OffsetsGrow(fields, i + 1, n);
    }
  }

  ghost predicate Written(b: Image, p: nat, s: seq<Byte>) {
    p + |s| <= |b| && b[p..p + |s|] == s
  }

  /** The image holds the structure at p. */
  ghost predicate Holds(b: Image, p: nat, fields: seq<Field>) {
    Written(b, p, Encoded(fields)) && Fits(fields)
  }

  lemma Within(b: Image, p: nat, s: seq<Byte>, at: nat, part: seq<Byte>)
    requires Written(b, p, s) && at + |part| <= |s| && s[at..at + |part|] == part
    ensures Written(b, p + at, part)
  {
    var x := b[p + at..p + at + |part|];
    forall k | 0 <= k < |part| ensures x[k] == part[k] { assert b[p..p + |s|][at + k] == s[at..at + |part|][k]; }
  }

  lemma FieldIn(b: Image, p: nat, fields: seq<Field>, i: nat, at: nat)
    requires Holds(b, p, fields) && i < |fields| && at == Offset(fields, i)
    ensures p + at + fields[i].width <= |b| && Reads(b, p + at, fields[i])
  {
    FieldWritten(b, p, fields, i, at, fields[i]);
    ReadField(b, p + at, fields[i]);
  }

  lemma FieldWritten(b: Image, p: nat, fields: seq<Field>, i: nat, at: nat, f: Field)
    requires Holds(b, p, fields) && i < |fields| && at == Offset(fields, i) && f == fields[i]
    ensures Written(b, p + at, Little(f.value, f.width)) && FieldFits(f)
  {
    FieldAt(fields, i, Encoded(fields));
    Within(b, p, Encoded(fields), at, Little(f.value, f.width));
    assert FieldFits(fields[i]);
  }

  /** A read of the width of the field gives its value. */
  ghost predicate Reads(b: Image, at: nat, f: Field)
    requires at + f.width <= |b|
  {
    && (f.width == 2 ==> U16(b, at) == f.value)
    && (f.width == 4 ==> U32(b, at) == f.value)
    && (f.width == 8 ==> U64(b, at) == f.value)
  }

  lemma ReadField(b: Image, at: nat, f: Field)
    requires Written(b, at, Little(f.value, f.width)) && FieldFits(f)
    ensures at + f.width <= |b| && Reads(b, at, f)
  {
    if f.width == 2 { Read16(b, at, f.value); }
    if f.width == 4 { Read32(b, at, f.value); }
    if f.width == 8 { Read64(b, at, f.value); }
  }

  // ---- program headers and dynamic entries ---------------------------------

  /** A program header; `pa`, the physical address, is not read. */
  function ProgramHeader(s: Segment, pa: nat): (r: seq<Field>) {
    [Field(s.kind, 4), Field(s.flags, 4), Field(s.offset, 8), Field(s.va, 8), Field(pa, 8),
     Field(s.fileSize, 8), Field(s.memorySize, 8), Field(s.align, 8)]
  }

  lemma ProgramOffsets(s: Segment, pa: nat)
    ensures var f := ProgramHeader(s, pa);
            && Offset(f, 0) == 0 && Offset(f, 1) == 4 && Offset(f, 2) == 8 && Offset(f, 3) == 16
            && Offset(f, 5) == 32 && Offset(f, 6) == 40 && Offset(f, 7) == 48 && Offset(f, 8) == 56
  {
    var f := ProgramHeader(s, pa);
    assert Offset(f, 1) == 4 && Offset(f, 2) == 8 && Offset(f, 3) == 16;
    assert Offset(f, 4) == 24 && Offset(f, 5) == 32 && Offset(f, 6) == 40;
  }

  /** Reading a program header gives back the seven fields that were written. */
  lemma SegmentRoundTrip(b: Image, p: nat, s: Segment, pa: nat)
    requires Holds(b, p, ProgramHeader(s, pa))
    ensures p + 56 <= |b| && SegmentAt(b, p) == s
  {
    var f := ProgramHeader(s, pa);
    ProgramOffsets(s, pa);
    FieldIn(b, p, f, 0, 0);
    FieldIn(b, p, f, 1, 4);
    FieldIn(b, p, f, 2, 8);
    FieldIn(b, p, f, 3, 16);
    FieldIn(b, p, f, 5, 32);
    FieldIn(b, p, f, 6, 40);
    FieldIn(b, p, f, 7, 48);
  }

  /** A dynamic entry: a signed tag in two's complement, and a value. */
  function DynamicEntry(e: Entry): (r: seq<Field>)
    requires -0x8000_0000_0000_0000 <= e.tag
  {
    [Field(if e.tag < 0 then e.tag + 0x1_0000_0000_0000_0000 else e.tag, 8), Field(e.value, 8)]
  }

  lemma EntryRoundTrip(b: Image, at: nat, e: Entry)
    requires -0x8000_0000_0000_0000 <= e.tag < 0x8000_0000_0000_0000 && Holds(b, at, DynamicEntry(e))
    ensures at + 16 <= |b| && EntryAt(b, at) == e
  {
    var f := DynamicEntry(e);
    assert Offset(f, 1) == 8;
    FieldIn(b, at, f, 0, 0);
    FieldIn(b, at, f, 1, 8);
  }

  // ---- the file header -----------------------------------------------------

  datatype Header = Header(elfType: nat, machine: nat, version: nat, entry: nat, tableAt: nat, sectionsAt: nat, flags: nat,
                           size: nat, rowSize: nat, rows: nat, sectionSize: nat, sections: nat, names: nat)

  function FileHeader(h: Header): (r: seq<Field>) {
    [Field(h.elfType, 2), Field(h.machine, 2), Field(h.version, 4), Field(h.entry, 8), Field(h.tableAt, 8),
     Field(h.sectionsAt, 8), Field(h.flags, 4), Field(h.size, 2), Field(h.rowSize, 2), Field(h.rows, 2),
     Field(h.sectionSize, 2), Field(h.sections, 2), Field(h.names, 2)]
  }

  lemma HeaderOffsets(h: Header)
    ensures var f := FileHeader(h);
            && Offset(f, 0) == 0 && Offset(f, 1) == 2 && Offset(f, 2) == 4 && Offset(f, 3) == 8 && Offset(f, 4) == 16
            && Offset(f, 7) == 36 && Offset(f, 8) == 38 && Offset(f, 9) == 40 && Offset(f, 13) == 48
  {
    var f := FileHeader(h);
    assert Offset(f, 1) == 2 && Offset(f, 2) == 4 && Offset(f, 3) == 8 && Offset(f, 4) == 16;
    assert Offset(f, 5) == 24 && Offset(f, 6) == 32 && Offset(f, 7) == 36 && Offset(f, 8) == 38;
    assert Offset(f, 9) == 40 && Offset(f, 10) == 42 && Offset(f, 11) == 44 && Offset(f, 12) == 46;
  }

  /** What the header checks ask of the fields written behind the sixteen identity bytes. */
  lemma HeaderRoundTrip(b: Image, h: Header, role: Role)
    requires Holds(b, 16, FileHeader(h))
    ensures |b| >= 64 && U16(b, 16) == h.elfType && U64(b, 24) == h.entry
    ensures HeaderOk(b, role) <==>
            && |b| <= MAX_IMAGE && b[0..7] == [127, 69, 76, 70, 2, 1, 1]
            && h.machine == 62 && h.version == 1 && h.size == 64 && (h.elfType == 2 || h.elfType == 3)
            && (role == SharedObject || role == Extension || role == Libc ==> h.elfType == 3)
    ensures TableFits(b) <==>
            h.tableAt >= 64 && h.rowSize == 56 && 0 < h.rows <= MAX_SEGMENTS && h.tableAt + h.rows * 56 <= |b|
  {
    HeaderReads(b, h);
    assert b[0..7][..4] == b[0..4] && b[0..7][4] == b[4] && b[0..7][5] == b[5] && b[0..7][6] == b[6];
    var magic: seq<Byte> := [127, 69, 76, 70, 2, 1, 1];
    assert magic[..4] == [127, 69, 76, 70];
    assert b[0..7] == b[0..4] + [b[4], b[5], b[6]] && magic == magic[..4] + [2, 1, 1];
  }

  lemma HeaderReads(b: Image, h: Header)
    requires Holds(b, 16, FileHeader(h))
    ensures |b| >= 64 && U16(b, 16) == h.elfType && U16(b, 18) == h.machine && U32(b, 20) == h.version && U64(b, 24) == h.entry
    ensures U64(b, 32) == h.tableAt && U16(b, 52) == h.size && U16(b, 54) == h.rowSize && U16(b, 56) == h.rows
  {
    var f := FileHeader(h);
    HeaderOffsets(h);
    FieldIn(b, 16, f, 0, 0);
    FieldIn(b, 16, f, 1, 2);
    FieldIn(b, 16, f, 2, 4);
    FieldIn(b, 16, f, 3, 8);
    FieldIn(b, 16, f, 4, 16);
    FieldIn(b, 16, f, 7, 36);
    FieldIn(b, 16, f, 8, 38);
    FieldIn(b, 16, f, 9, 40);
    EncodedSize(f);
  }
}
