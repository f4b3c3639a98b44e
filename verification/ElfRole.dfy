/** What an ELF image may ask of the loader in each role: its dynamic table, its names
    and the role's own rules. */
module ElfRole {
  import opened Text
  import opened ElfImage

  const DEPENDENCIES := 256
  const AGGREGATE_BYTES := 32768
  const TABLE_BYTES := 1024 * 1024

  const NULL_TAG := 0
  const NEEDED := 1
  const STRTAB := 5
  const STRSZ := 10
  const SONAME := 14
  const RUNPATH := 29
  const FORBIDDEN := {15, 0x6ffffefa, 0x6ffffefb, 0x6ffffefc, 0x7ffffffd, 0x7fffffff}
  const NSPAWN_RUNPATH := "/usr/lib/x86_64-linux-gnu/systemd"

  // ---- the dynamic table ---------------------------------------------------

  datatype Entry = Entry(tag: int, value: nat)

  function EntryAt(b: Image, at: nat): Entry
    requires at + 16 <= |b|
  {
    Entry(S64(b, at), U64(b, at + 8))
  }

  /** The entries before the terminator, or all of them if there is none. */
  function Live(b: Image, at: nat, n: nat): (live: seq<Entry>)
    requires at + 16 * n <= |b|
    decreases n
  {
    if n == 0 || S64(b, at) == NULL_TAG then [] else [EntryAt(b, at)] + Live(b, at + 16, n - 1)
  }

  predicate Ended(b: Image, at: nat, n: nat)
    requires at + 16 * n <= |b|
    decreases n
  {
    n > 0 && (S64(b, at) == NULL_TAG || Ended(b, at + 16, n - 1))
  }

  function Count(entries: seq<Entry>, tag: int): (k: nat)
    ensures k <= |entries|
  {
    if entries == [] then 0
    else Count(entries[..|entries| - 1], tag) + if entries[|entries| - 1].tag == tag then 1 else 0
  }

  /** The value under a tag; the last one if the tag is repeated. */
  function ValueOf(entries: seq<Entry>, tag: int): (v: Option<nat>)
    ensures v.Some? <==> Count(entries, tag) > 0
  {
    if entries == [] then None
    else if entries[|entries| - 1].tag == tag then Some(entries[|entries| - 1].value)
    else ValueOf(entries[..|entries| - 1], tag)
  }

  predicate IsName(e: Entry) {
    e.tag == NEEDED || e.tag == SONAME || e.tag == RUNPATH
  }

  function NamesIn(entries: seq<Entry>): (names: seq<Entry>) {
    if entries == [] then []
    else
      var init, last := NamesIn(entries[..|entries| - 1]), entries[|entries| - 1];
      if IsName(last) then init + [last] else init
  }

  predicate TagOk(e: Entry, nspawn: bool) {
    e.tag !in FORBIDDEN && (e.tag == RUNPATH ==> nspawn)
  }

  /** How often each tag may occur. */
  predicate CountsOk(entries: seq<Entry>) {
    && Count(entries, STRTAB) <= 1 && Count(entries, STRSZ) <= 1
    && Count(entries, NEEDED) <= DEPENDENCIES && Count(entries, SONAME) <= 1 && Count(entries, RUNPATH) <= 1
  }

  predicate EntriesOk(entries: seq<Entry>, nspawn: bool) {
    CountsOk(entries) && forall i :: 0 <= i < |entries| ==> TagOk(entries[i], nspawn)
  }

  lemma CountStep(seen: seq<Entry>, e: Entry, tag: int)
    ensures Count(seen + [e], tag) == Count(seen, tag) + if e.tag == tag then 1 else 0
  {
    assert (seen + [e])[..|seen|] == seen;
  }

  lemma {:induction false} CountMonotone(seen: seq<Entry>, more: seq<Entry>, tag: int)
    ensures Count(seen, tag) <= Count(seen + more, tag)
  {
    if more == [] {
      assert seen + more == seen;
    } else {
      CountMonotone(seen, more[..|more| - 1], tag);
      assert seen + more == (seen + more[..|more| - 1]) + [more[|more| - 1]];
      CountStep(seen + more[..|more| - 1], more[|more| - 1], tag);
    }
  }

  /** Nothing read later repairs a refused table. */
  lemma RefusedStays(seen: seq<Entry>, more: seq<Entry>, nspawn: bool)
    requires !EntriesOk(seen, nspawn)
    ensures !EntriesOk(seen + more, nspawn)
  {
    CountMonotone(seen, more, STRTAB);
    CountMonotone(seen, more, STRSZ);
    CountMonotone(seen, more, NEEDED);
    CountMonotone(seen, more, SONAME);
    CountMonotone(seen, more, RUNPATH);
    if !(forall i :: 0 <= i < |seen| ==> TagOk(seen[i], nspawn)) {
      var i :| 0 <= i < |seen| && !TagOk(seen[i], nspawn);
      assert (seen + more)[i] == seen[i];
    }
  }

  /** When one more entry is admitted. */
  predicate Admits(seen: seq<Entry>, e: Entry, nspawn: bool) {
    && TagOk(e, nspawn) && (e.tag == STRTAB ==> Count(seen, STRTAB) == 0) && (e.tag == STRSZ ==> Count(seen, STRSZ) == 0)
    && (e.tag == NEEDED ==> Count(seen, NEEDED) < DEPENDENCIES) && (e.tag == SONAME ==> Count(seen, SONAME) == 0)
    && (e.tag == RUNPATH ==> Count(seen, RUNPATH) == 0)
  }

  lemma EntriesStep(seen: seq<Entry>, e: Entry, nspawn: bool)
    requires EntriesOk(seen, nspawn)
    ensures EntriesOk(seen + [e], nspawn) <==> Admits(seen, e, nspawn)
    ensures Count(seen + [e], NEEDED) == Count(seen, NEEDED) + if e.tag == NEEDED then 1 else 0
    ensures Count(seen + [e], SONAME) == Count(seen, SONAME) + if e.tag == SONAME then 1 else 0
    ensures Count(seen + [e], RUNPATH) == Count(seen, RUNPATH) + if e.tag == RUNPATH then 1 else 0
    ensures NamesIn(seen + [e]) == if IsName(e) then NamesIn(seen) + [e] else NamesIn(seen)
    ensures ValueOf(seen + [e], STRTAB) == if e.tag == STRTAB then Some(e.value) else ValueOf(seen, STRTAB)
    ensures ValueOf(seen + [e], STRSZ) == if e.tag == STRSZ then Some(e.value) else ValueOf(seen, STRSZ)
  {
    CountStep(seen, e, STRTAB);
    CountStep(seen, e, STRSZ);
    CountStep(seen, e, NEEDED);
    CountStep(seen, e, SONAME);
    CountStep(seen, e, RUNPATH);
    assert (seen + [e])[..|seen|] == seen && (seen + [e])[|seen|] == e;
    assert forall i :: 0 <= i < |seen| ==> (seen + [e])[i] == seen[i];
  }

  lemma LiveStep(b: Image, at: nat, n: nat, seen: seq<Entry>)
    requires n > 0 && at + 16 * n <= |b| && S64(b, at) != NULL_TAG
    ensures seen + Live(b, at, n) == (seen + [EntryAt(b, at)]) + Live(b, at + 16, n - 1)
    ensures Ended(b, at, n) == Ended(b, at + 16, n - 1)
  {
  }

  /** The running variables of the scan. */
  datatype Tally = Tally(strVa: Option<nat>, strSize: Option<nat>, needed: nat, sonames: nat, runpaths: nat, names: seq<Entry>)

  predicate Tallies(t: Tally, seen: seq<Entry>) {
    && t.strVa == ValueOf(seen, STRTAB) && t.strSize == ValueOf(seen, STRSZ) && t.names == NamesIn(seen)
    && t.needed == Count(seen, NEEDED) && t.sonames == Count(seen, SONAME) && t.runpaths == Count(seen, RUNPATH)
  }

  /** One entry: refused, or counted and remembered. */
  method PushEntry(t: Tally, e: Entry, nspawn: bool, ghost seen: seq<Entry>) returns (ok: bool, r: Tally)
    requires Tallies(t, seen) && EntriesOk(seen, nspawn)
    ensures ok <==> EntriesOk(seen + [e], nspawn)
    ensures ok ==> Tallies(r, seen + [e])
  {
    EntriesStep(seen, e, nspawn);
    r := t;
    if !TagOk(e, nspawn) { return false, r; }
    if e.tag == STRTAB {
      if t.strVa.Some? { return false, r; }
      r := r.(strVa := Some(e.value));
    }
    if e.tag == STRSZ {
      if t.strSize.Some? { return false, r; }
      r := r.(strSize := Some(e.value));
    }
    if e.tag == NEEDED {
      if t.needed == DEPENDENCIES { return false, r; }
      r := r.(needed := t.needed + 1, names := t.names + [e]);
    }
    if e.tag == SONAME {
      if t.sonames == 1 { return false, r; }
      r := r.(sonames := t.sonames + 1, names := t.names + [e]);
    }
    if e.tag == RUNPATH {
      if t.runpaths == 1 { return false, r; }
      r := r.(runpaths := t.runpaths + 1, names := t.names + [e]);
    }
    ok := true;
  }

  /** The table is read entry by entry up to its terminator. */
  method ScanEntries(b: Image, offset: nat, n: nat, nspawn: bool) returns (ok: bool, ended: bool, t: Tally)
    requires offset + 16 * n <= |b|
    ensures ok <==> EntriesOk(Live(b, offset, n), nspawn)
    ensures ok ==> ended == Ended(b, offset, n) && Tallies(t, Live(b, offset, n))
  {
    ok, ended, t := true, false, Tally(None, None, 0, 0, 0, []);
    var at, left := offset, n;
    ghost var all, seen := Live(b, offset, n), [];
    while left > 0
      invariant at + 16 * left == offset + 16 * n
      invariant seen + Live(b, at, left) == all && Ended(b, offset, n) == Ended(b, at, left)
      invariant EntriesOk(seen, nspawn) && Tallies(t, seen)
    {
      var e := EntryAt(b, at);
      if e.tag == NULL_TAG {
        assert seen == all;
        return true, true, t;
      }
      LiveStep(b, at, left, seen);
      ok, t := PushEntry(t, e, nspawn, seen);
      if !ok {
        RefusedStays(seen + [e], Live(b, at + 16, left - 1), nspawn);
        return;
      }
      seen, at, left := seen + [e], at + 16, left - 1;
    }
    assert seen == all;
  }

  // ---- names ---------------------------------------------------------------

  datatype Name = Name(tag: int, raw: seq<Byte>)

  function Total(rows: seq<Name>): nat {
    if rows == [] then 0 else Total(rows[..|rows| - 1]) + |rows[|rows| - 1].raw|
  }

  /** The string table: a range of the file. */
  datatype Strings = Strings(base: nat, size: nat)

  /** The text an entry points to, inside the string table. */
  function TextOf(b: Image, t: Strings, e: Entry): (raw: Option<seq<Byte>>) {
    if e.value < t.size then RawText(b, t.base + e.value, t.size - e.value) else None
  }

  /** Every entry's text, all of them within the aggregate bound. */
  function Decode(b: Image, t: Strings, names: seq<Entry>): (rows: Option<seq<Name>>)
    ensures rows.Some? ==> |rows.value| == |names| && Total(rows.value) <= AGGREGATE_BYTES
    ensures rows.Some? ==> forall i :: 0 <= i < |names| ==>
      rows.value[i].tag == names[i].tag && TextOf(b, t, names[i]) == Some(rows.value[i].raw)
  {
    if names == [] then Some([])
    else
      var init, last := Decode(b, t, names[..|names| - 1]), names[|names| - 1];
      var raw := TextOf(b, t, last);
      if init.None? || raw.None? || Total(init.value) + |raw.value| > AGGREGATE_BYTES then None
      else
        var rows := init.value + [Name(last.tag, raw.value)];
        assert rows[..|rows| - 1] == init.value;
        Some(rows)
  }

  lemma {:induction false} DecodePrefix(b: Image, t: Strings, names: seq<Entry>, k: nat)
    requires k <= |names| && Decode(b, t, names[..k]).None?
    ensures Decode(b, t, names).None?
  {
    if k < |names| {
      assert names[..|names| - 1][..k] == names[..k];
      DecodePrefix(b, t, names[..|names| - 1], k);
    } else {
      assert names[..k] == names;
    }
  }

  /** The names decode exactly if each has a text and the texts stay within the bound. */
  lemma {:induction false} DecodeExactly(b: Image, t: Strings, names: seq<Entry>)
    ensures Decode(b, t, names).Some? <==>
            (forall i :: 0 <= i < |names| ==> TextOf(b, t, names[i]).Some?) && TextBytes(b, t, names) <= AGGREGATE_BYTES
    ensures Decode(b, t, names).Some? ==> Total(Decode(b, t, names).value) == TextBytes(b, t, names)
  {
    if names != [] {
      var n := |names| - 1;
      DecodeExactly(b, t, names[..n]);
      assert forall i :: 0 <= i < n ==> names[..n][i] == names[i];
      if Decode(b, t, names).Some? {
        var rows := Decode(b, t, names).value;
        assert rows[..n] == Decode(b, t, names[..n]).value;
      }
    }
  }

  ghost function TextBytes(b: Image, t: Strings, names: seq<Entry>): (n: nat) {
    if names == [] then 0
    else
      var raw := TextOf(b, t, names[|names| - 1]);
      TextBytes(b, t, names[..|names| - 1]) + if raw.Some? then |raw.value| else 0
  }

  method DecodeNames(b: Image, t: Strings, names: seq<Entry>) returns (rows: Option<seq<Name>>)
    ensures rows == Decode(b, t, names)
  {
    var decoded, total := [], 0;
    for i := 0 to |names|
      invariant Decode(b, t, names[..i]) == Some(decoded) && total == Total(decoded)
    {
      var raw := TextOf(b, t, names[i]);
      assert names[..i + 1][..i] == names[..i];
      if raw.None? || total + |raw.value| > AGGREGATE_BYTES {
        DecodePrefix(b, t, names, i + 1);
        return None;
      }
      total := total + |raw.value|;
      assert (decoded + [Name(names[i].tag, raw.value)])[..|decoded|] == decoded;
      decoded := decoded + [Name(names[i].tag, raw.value)];
    }
    assert names[..|names|] == names;
    rows := Some(decoded);
  }

  predicate NameChar(c: char) {
    'A' <= c <= 'Z' || 'a' <= c <= 'z' || '0' <= c <= '9' || c == '_' || c == '+' || c == '.' || c == '-'
  }

  predicate SafeName(name: string) {
    0 < |name| <= NAME_BYTES && (forall i :: 0 <= i < |name| ==> NameChar(name[i])) && name != "." && name != ".."
  }

  /** What the names ask for. */
  datatype Found = Found(soname: Option<string>, needed: seq<string>, runpath: Option<string>)

  const NONE_FOUND := Found(None, [], None)

  function Take(found: Found, row: Name): (r: Option<Found>) {
    var value := Ascii(row.raw);
    if row.tag == RUNPATH then if value == NSPAWN_RUNPATH then Some(found.(runpath := Some(value))) else None
    else if !SafeName(value) then None
    else if row.tag == SONAME then Some(found.(soname := Some(value)))
    else if value in found.needed then None
    else Some(found.(needed := found.needed + [value]))
  }

  function Gather(rows: seq<Name>): (r: Option<Found>) {
    if rows == [] then Some(NONE_FOUND)
    else
      var init := Gather(rows[..|rows| - 1]);
      if init.None? then None else Take(init.value, rows[|rows| - 1])
  }

  lemma {:induction false} GatherPrefix(rows: seq<Name>, k: nat)
    requires k <= |rows| && Gather(rows[..k]).None?
    ensures Gather(rows).None?
  {
    if k < |rows| {
      assert rows[..|rows| - 1][..k] == rows[..k];
      GatherPrefix(rows[..|rows| - 1], k);
    } else {
      assert rows[..k] == rows;
    }
  }

  /** Names can be gathered exactly if search paths are the fixed one, all others are safe
      and no needed name repeats. */
  lemma {:induction false} GatherExactly(rows: seq<Name>)
    requires AllNames(rows)
    ensures Gather(rows).Some? <==>
            && (forall i :: 0 <= i < |rows| ==>
                  if rows[i].tag == RUNPATH then Ascii(rows[i].raw) == NSPAWN_RUNPATH else SafeName(Ascii(rows[i].raw)))
            && Distinct(NeededOf(rows))
  {
    if rows != [] {
      var n := |rows| - 1;
      var init := rows[..n];
      GatherExactly(init);
      assert forall i :: 0 <= i < n ==> init[i] == rows[i];
      if Gather(init).Some? { GatheredNeeded(init); }
      DistinctNext(NeededOf(init), Ascii(rows[n].raw));
    }
  }

  lemma DistinctNext(s: seq<string>, x: string)
    ensures Distinct(s + [x]) <==> Distinct(s) && x !in s
  {
    var all := s + [x];
    assert all[|s|] == x && forall i :: 0 <= i < |s| ==> all[i] == s[i];
  }

  method GatherNames(rows: seq<Name>) returns (r: Option<Found>)
    ensures r == Gather(rows)
  {
    var found, seen := NONE_FOUND, {};
    for i := 0 to |rows|
      invariant Gather(rows[..i]) == Some(found) && forall n :: n in seen <==> n in found.needed
    {
      assert rows[..i + 1][..i] == rows[..i];
      var row, value := rows[i], Ascii(rows[i].raw);
      if (if row.tag == RUNPATH then value != NSPAWN_RUNPATH else !SafeName(value) || (row.tag != SONAME && value in seen)) {
        GatherPrefix(rows, i + 1);
        return None;
      }
      if row.tag == RUNPATH {
        found := found.(runpath := Some(value));
      } else if row.tag == SONAME {
        found := found.(soname := Some(value));
      } else {
        seen := seen + {value};
        found := found.(needed := found.needed + [value]);
      }
    }
    assert rows[..|rows|] == rows;
    r := Some(found);
  }

  /** The texts of the needed rows, in order. */
  function NeededOf(rows: seq<Name>): (r: seq<string>) {
    if rows == [] then []
    else
      var init, last := NeededOf(rows[..|rows| - 1]), rows[|rows| - 1];
      if last.tag == NEEDED then init + [Ascii(last.raw)] else init
  }

  predicate AllNames(rows: seq<Name>) {
    forall i :: 0 <= i < |rows| ==> rows[i].tag == NEEDED || rows[i].tag == SONAME || rows[i].tag == RUNPATH
  }

  /** The needed names are exactly the texts of the needed rows, in order, none twice. */
  lemma {:induction false} GatheredNeeded(rows: seq<Name>)
    requires AllNames(rows) && Gather(rows).Some?
    ensures Gather(rows).value.needed == NeededOf(rows) && Distinct(NeededOf(rows))
  {
    if rows != [] {
      GatheredNeeded(rows[..|rows| - 1]);
      assert AllNames(rows) ==> rows[|rows| - 1].tag in {NEEDED, SONAME, RUNPATH};
    }
  }

  lemma {:induction false} GatheredSafe(rows: seq<Name>)
    requires Gather(rows).Some?
    ensures forall n :: n in Gather(rows).value.needed ==> SafeName(n)
    ensures Gather(rows).value.soname.Some? ==> SafeName(Gather(rows).value.soname.value)
  {
    if rows != [] { GatheredSafe(rows[..|rows| - 1]); }
  }

  /** The soname and the run path are texts of their own rows. */
  lemma {:induction false} GatheredOthers(rows: seq<Name>)
    requires AllNames(rows) && Gather(rows).Some?
    ensures Gather(rows).value.soname.Some? ==> NamedBy(rows, Gather(rows).value.soname.value, SONAME)
    ensures Gather(rows).value.runpath.Some? ==> Gather(rows).value.runpath.value == NSPAWN_RUNPATH
  {
    if rows != [] {
      var init, last := rows[..|rows| - 1], rows[|rows| - 1];
      GatheredOthers(init);
      assert rows == init + [last];
      if last.tag == SONAME {
        assert rows[|rows| - 1].tag == SONAME && Ascii(rows[|rows| - 1].raw) == Ascii(last.raw);
      } else if Gather(init).value.soname.Some? {
        NamedGrows(init, last, Gather(init).value.soname.value, SONAME);
      }
    }
  }

  predicate NamedBy(rows: seq<Name>, n: string, tag: int) {
    exists i :: 0 <= i < |rows| && rows[i].tag == tag && Ascii(rows[i].raw) == n
  }

  lemma NamedGrows(init: seq<Name>, last: Name, n: string, tag: int)
    requires NamedBy(init, n, tag)
    ensures NamedBy(init + [last], n, tag)
  {
    var i :| 0 <= i < |init| && init[i].tag == tag && Ascii(init[i].raw) == n;
    assert (init + [last])[i] == init[i];
  }

  function NameBytes(names: seq<string>): nat {
    if names == [] then 0 else NameBytes(names[..|names| - 1]) + |names[|names| - 1]|
  }

  /** The needed names fit the bytes that were counted. */
  lemma {:induction false} NeededBytes(rows: seq<Name>)
    ensures NameBytes(NeededOf(rows)) <= Total(rows)
  {
    if rows != [] {
      NeededBytes(rows[..|rows| - 1]);
      var before := NeededOf(rows[..|rows| - 1]);
      assert (before + [Ascii(rows[|rows| - 1].raw)])[..|before|] == before;
    }
  }

  /** The needed entries, in order. */
  function NeededEntries(entries: seq<Entry>): (r: seq<Entry>)
    ensures |r| == Count(entries, NEEDED)
  {
    if entries == [] then []
    else
      var init, last := NeededEntries(entries[..|entries| - 1]), entries[|entries| - 1];
      if last.tag == NEEDED then init + [last] else init
  }

  /** A needed name is the text its own entry points to. */
  predicate Spells(b: Image, t: Strings, e: Entry, name: string) {
    var raw := TextOf(b, t, e);
    raw.Some? && Ascii(raw.value) == name
  }

  predicate Spelled(b: Image, t: Strings, entries: seq<Entry>, needed: seq<string>) {
    |needed| == |entries| && forall i :: 0 <= i < |needed| ==> Spells(b, t, entries[i], needed[i])
  }

  lemma SpelledNext(b: Image, t: Strings, entries: seq<Entry>, needed: seq<string>, e: Entry, name: string)
    requires Spelled(b, t, entries, needed) && Spells(b, t, e, name)
    ensures Spelled(b, t, entries + [e], needed + [name])
  {
  }

  lemma DecodeNext(b: Image, t: Strings, names: seq<Entry>)
    requires names != [] && Decode(b, t, names).Some?
    ensures var init, last := Decode(b, t, names[..|names| - 1]), names[|names| - 1];
            init.Some? && TextOf(b, t, last).Some? && Decode(b, t, names).value == init.value + [Name(last.tag, TextOf(b, t, last).value)]
  {
  }

  lemma {:induction false} NeededSpelled(b: Image, t: Strings, names: seq<Entry>)
    requires Decode(b, t, names).Some?
    ensures Spelled(b, t, NeededEntries(names), NeededOf(Decode(b, t, names).value))
  {
    if names != [] {
      DecodeNext(b, t, names);
      var init, last := names[..|names| - 1], names[|names| - 1];
      var before, raw := Decode(b, t, init).value, TextOf(b, t, last).value;
      NeededSpelled(b, t, init);
      assert (before + [Name(last.tag, raw)])[..|before|] == before;
      if last.tag == NEEDED { SpelledNext(b, t, NeededEntries(init), NeededOf(before), last, Ascii(raw)); }
    }
  }

  lemma {:induction false} NeededAmongNames(entries: seq<Entry>)
    ensures NeededEntries(NamesIn(entries)) == NeededEntries(entries)
    ensures forall i :: 0 <= i < |NamesIn(entries)| ==> IsName(NamesIn(entries)[i])
  {
    if entries != [] {
      var init, last := entries[..|entries| - 1], entries[|entries| - 1];
      NeededAmongNames(init);
      assert (NamesIn(init) + [last])[..|NamesIn(init)|] == NamesIn(init);
    }
  }
}
