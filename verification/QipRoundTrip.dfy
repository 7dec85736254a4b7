/** Loading inverts saving. */
module QipRoundTrip {
  import opened QDataStream
  import opened QipConfig

  ghost predicate SettingsFit(s: Settings) {
    Fits(s.tpcfg) && Fits(s.env) && Fits(s.testdate)
  }

  ghost predicate EntriesFit(lib: Library, es: seq<Entry>) {
    forall e :: e in es ==> Fits(e.name) && |lib.compress(e.content)| < NULL_MARK
  }

  lemma SerializeRoundTrip(s: Settings, version: nat)
    requires SettingsFit(s) && version >= 2
    ensures Deserialize(version, Serialize(version, s)) == (s, true)
  {
    hide GetText, PutText;
    var a, b, c := PutText(s.tpcfg), PutText(s.env), PutText(s.testdate);
    assert a + (b + c) == Serialize(version, s);
    assert c + [] == c;
    TextRoundTrip(s.tpcfg, b + c, true);
    TextRoundTrip(s.env, c, true);
    TextRoundTrip(s.testdate, [], true);
  }

  lemma EntryRoundTrip(lib: Library, e: Entry, more: Bytes)
    requires lib.Inverse() && EntriesFit(lib, [e])
    ensures GetEntries(lib, Reader(PutEntry(lib, e) + more, true)) == [e] + GetEntries(lib, Reader(more, true))
  {
    assert e in [e];
    var data := lib.compress(e.content);
    assert PutEntry(lib, e) + more == PutText(e.name) + (PutBytes(data) + more);
    TextRoundTrip(e.name, PutBytes(data) + more, true);
    BytesRoundTrip(data, more, true);
    assert lib.uncompress(data) == e.content;
    hide GetText, GetBytes, PutText, PutBytes;
  }

  lemma FitParts(lib: Library, es: seq<Entry>)
    requires es != [] && EntriesFit(lib, es)
    ensures EntriesFit(lib, es[..|es| - 1]) && EntriesFit(lib, [es[|es| - 1]])
  {
  }

  lemma Regroup(a: Bytes, b: Bytes, c: Bytes)
    ensures (a + b) + c == a + (b + c)
  {
  }

  /** The reading loop inverts the writing loop, for any number of entries. */
  lemma {:induction false} EntriesRoundTrip(lib: Library, es: seq<Entry>, more: Bytes)
    requires lib.Inverse() && EntriesFit(lib, es)
    ensures GetEntries(lib, Reader(PutEntries(lib, es) + more, true)) == es + GetEntries(lib, Reader(more, true))
    decreases |es|
  {
    hide GetEntries, PutEntry, EntriesFit, Library.Inverse;
    if es == [] {
      assert [] + more == more;
      assert [] + GetEntries(lib, Reader(more, true)) == GetEntries(lib, Reader(more, true));
    } else {
      var init, e := es[..|es| - 1], es[|es| - 1];
      FitParts(lib, es);
      Regroup(PutEntries(lib, init), PutEntry(lib, e), more);
      EntriesRoundTrip(lib, init, PutEntry(lib, e) + more);
      EntryRoundTrip(lib, e, more);
      NextEntry(init, e, GetEntries(lib, Reader(more, true)));
      assert es == init + [e];
    }
  }

  lemma EntriesReadBack(lib: Library, es: seq<Entry>)
    requires lib.Inverse() && EntriesFit(lib, es)
    ensures GetEntries(lib, Reader(PutEntries(lib, es), true)) == es
  {
    EntriesRoundTrip(lib, es, []);
    assert PutEntries(lib, es) + [] == PutEntries(lib, es);
    assert es + [] == es;
  }

  ghost predicate ContainerFits(lib: Library, version: nat, s: Settings, es: seq<Entry>) {
    && SettingsFit(s) && EntriesFit(lib, es)
    && |lib.compress(Serialize(version, s))| < NULL_MARK && |PutEntries(lib, es)| < NULL_MARK
  }

  /** The front of every container: magic, version and compressed settings. */
  lemma FrontRoundTrip(magic: Bytes, version: nat, compressed: Bytes, more: Bytes)
    requires |magic| < NULL_MARK && version < UINT32 && |compressed| < NULL_MARK
    ensures var (r1, m) := GetBytes(Reader(PutBytes(magic) + PutU32(version) + PutBytes(compressed) + more, true));
      var (r2, v) := GetU32(r1);
      m == magic && v == version && GetBytes(r2) == (Reader(more, true), compressed)
  {
    hide GetBytes, GetU32, PutBytes, PutU32;
    var a, b, c := PutBytes(magic), PutU32(version), PutBytes(compressed);
    assert a + b + c + more == a + (b + (c + more));
    BytesRoundTrip(magic, b + (c + more), true);
    U32RoundTrip(version, c + more, true);
    BytesRoundTrip(compressed, more, true);
  }

  lemma SerializedNotEmpty(version: nat, s: Settings)
    ensures Serialize(version, s) != []
  {
  }

  /** A saved container decodes to what was saved; the record files are read only with a test date. */
  lemma ContainerRoundTrip(lib: Library, version: nat, s: Settings, es: seq<Entry>)
    requires lib.Inverse() && version >= 2 && ContainerFits(lib, version, s, es)
    ensures Decode(lib, Container(lib, version, s, es)) ==
      if s.testdate.IsEmpty() then Decoded(MAGIC, VERSION, s, [], Fine)
      else Decoded(MAGIC, VERSION, s, es, WithFiles)
  {
    var compressed, stored := lib.compress(Serialize(version, s)), PutEntries(lib, es);
    FrontRoundTrip(MAGIC, VERSION, compressed, PutBytes(stored));
    assert PutBytes(stored) + [] == PutBytes(stored);
    BytesRoundTrip(stored, [], true);
    SerializedNotEmpty(version, s);
    SerializeRoundTrip(s, version);
    assert Serialize(version, s) == Serialize(VERSION, s);
    EntriesReadBack(lib, es);
    hide GetBytes, GetU32, PutBytes, PutU32, GetEntries, PutEntries, Serialize, Deserialize;
  }

  /** A version 1 file holds only the main settings, and loads with those. */
  lemma VersionOneLoads(lib: Library, tpcfg: Text, more: Bytes)
    requires lib.Inverse() && Fits(tpcfg) && |lib.compress(PutText(tpcfg))| < NULL_MARK
    ensures Decode(lib, PutBytes(MAGIC) + PutU32(1) + PutBytes(lib.compress(PutText(tpcfg))) + more) ==
      Decoded(MAGIC, 1, Settings(tpcfg, Null, Null), [], Fine)
  {
    FrontRoundTrip(MAGIC, 1, lib.compress(PutText(tpcfg)), more);
    assert PutText(tpcfg) + [] == PutText(tpcfg);
    TextRoundTrip(tpcfg, [], true);
    hide GetBytes, GetU32, PutBytes, PutU32, GetText;
  }

  lemma ShortReadIsNoticed(tpcfg: Text)
    requires Fits(tpcfg)
    ensures !Deserialize(VERSION, PutText(tpcfg)).1
  {
    assert PutText(tpcfg) + [] == PutText(tpcfg);
    TextRoundTrip(tpcfg, [], true);
    hide PutText;
  }

  /**
   The header always claims the current version, so a save loads again exactly when the object
   that wrote it was of version 2 or later; init makes every object so.
   */
  lemma SaveLoadsIffCurrent(lib: Library, version: nat, s: Settings, es: seq<Entry>)
    requires lib.Inverse() && ContainerFits(lib, version, s, es)
    ensures !Decode(lib, Container(lib, version, s, es)).result.Refused? <==> version >= 2
  {
    if version >= 2 {
      ContainerRoundTrip(lib, version, s, es);
    } else {
      var compressed := lib.compress(Serialize(version, s));
      FrontRoundTrip(MAGIC, VERSION, compressed, []);
      assert PutText(s.tpcfg) + [] == PutText(s.tpcfg);
      TextRoundTrip(s.tpcfg, [], true);
      assert !Deserialize(VERSION, PutText(s.tpcfg)).1 by { ShortReadIsNoticed(s.tpcfg); }
      hide GetBytes, GetU32, PutBytes, PutU32, Deserialize, PutText;
    }
  }

  // ----- which files load

  /** The data begins with these settings as that version writes them; an old version has only the first. */
  ghost predicate BeginsWith(version: nat, data: Bytes, s: Settings) {
    && SettingsFit(s)
    && (version < 2 ==> s.env == Null && s.testdate == Null)
    && Serialize(version, s) <= data
  }

  lemma BeginningReads(version: nat, data: Bytes, s: Settings)
    requires BeginsWith(version, data, s)
    ensures Deserialize(version, data) == (s, true)
  {
    hide GetText, PutText;
    var a, b, c := PutText(s.tpcfg), PutText(s.env), PutText(s.testdate);
    if version >= 2 {
      var more := data[|a + b + c|..];
      assert Serialize(version, s) == a + (b + c) == a + b + c;
      assert data == a + (b + (c + more));
      TextRoundTrip(s.tpcfg, b + (c + more), true);
      TextRoundTrip(s.env, c + more, true);
      TextRoundTrip(s.testdate, more, true);
    } else {
      assert Serialize(version, s) == a + [] == a;
      assert data == a + data[|a|..];
      TextRoundTrip(s.tpcfg, data[|a|..], true);
    }
  }

  lemma OnlyBeginningsRead(version: nat, data: Bytes)
    requires Deserialize(version, data).1
    ensures BeginsWith(version, data, Deserialize(version, data).0)
  {
    hide GetText, PutText;
    var (r1, tpcfg) := GetText(Reader(data, true));
    if version >= 2 {
      var (r2, env) := GetText(r1);
      var (r3, testdate) := GetText(r2);
      TextWhole(r2);
      TextWhole(r1);
      TextWhole(Reader(data, true));
      var a, b, c := PutText(tpcfg), PutText(env), PutText(testdate);
      assert data == a + (b + (c + r3.rest)) == (a + (b + c)) + r3.rest;
    } else {
      TextWhole(Reader(data, true));
      assert PutText(tpcfg) + [] == PutText(tpcfg);
    }
  }

  /**
   Which files load, whoever wrote them: those whose magic begins with ".QIP" and whose
   uncompressed data begins with settings as their version writes them; and those settings are
   what is loaded.  Record files are looked for only with version 2 or later and a test date.
   */
  lemma LoadsIff(lib: Library, magic: Bytes, version: nat, compressed: Bytes, more: Bytes)
    requires |magic| < NULL_MARK && version < UINT32 && |compressed| < NULL_MARK
    ensures var d := Decode(lib, PutBytes(magic) + PutU32(version) + PutBytes(compressed) + more);
      var data := lib.uncompress(compressed);
      && (!d.result.Refused? <==> [46, 81, 73, 80] <= magic && exists s :: BeginsWith(version, data, s))
      && forall s :: BeginsWith(version, data, s) && [46, 81, 73, 80] <= magic ==>
           d.settings == s && (d.result.WithFiles? <==> version >= 2 && !s.testdate.IsEmpty())
  {
    var data := lib.uncompress(compressed);
    FrontRoundTrip(magic, version, compressed, more);
    hide GetBytes, GetU32, PutBytes, PutU32, Serialize, Deserialize, GetEntries;
    forall s | BeginsWith(version, data, s) ensures Deserialize(version, data) == (s, true) && data != [] {
      BeginningReads(version, data, s);
      SerializedNotEmpty(version, s);
    }
    if Deserialize(version, data).1 {
      OnlyBeginningsRead(version, data);
    }
  }

  /** The bytes of a container: magic, the number 2, the settings, and the record files if there are any to write. */
  lemma ContainerLayout(lib: Library, version: nat, s: Settings, es: seq<Entry>)
    ensures var settings := lib.compress(
        PutText(s.tpcfg) + if version >= 2 then PutText(s.env) + PutText(s.testdate) else []);
      var front := [0, 0, 0, 4, 46, 81, 73, 80, 0, 0, 0, 2] + PutU32(|settings|) + settings;
      Container(lib, version, s, es) == front + if version >= 2 then PutBytes(PutEntries(lib, es)) else []
  {
    assert PutU32(4) == [0, 0, 0, 4] && PutU32(2) == [0, 0, 0, 2];
    var c := lib.compress(Serialize(version, s));
    assert PutBytes(MAGIC) == [0, 0, 0, 4, 46, 81, 73, 80];
    var magic := [0, 0, 0, 4, 46, 81, 73, 80];
    assert magic + [0, 0, 0, 2] == [0, 0, 0, 4, 46, 81, 73, 80, 0, 0, 0, 2];
    assert magic + [0, 0, 0, 2] + (PutU32(|c|) + c) == magic + [0, 0, 0, 2] + PutU32(|c|) + c;
  }

  lemma EntryLayout(lib: Library, es: seq<Entry>, e: Entry)
    ensures PutEntries(lib, es + [e]) ==
      PutEntries(lib, es) + (PutText(e.name) + (PutU32(|lib.compress(e.content)|) + lib.compress(e.content)))
    ensures PutEntries(lib, []) == []
  {
    assert (es + [e])[..|es|] == es;
  }

  // ----- the record files

  /** In one folder different base names are different files. */
  lemma JoinInjective(folder: Path, a: Text, b: Text)
    requires SEPARATOR !in Units(a) && SEPARATOR !in Units(b)
    ensures Join(folder, a) == Join(folder, b) <==> Units(a) == Units(b)
  {
    var front := if folder == [] || folder[|folder| - 1] == SEPARATOR then folder else folder + [SEPARATOR];
    assert Units(a) != [] ==> Join(folder, a) == front + Units(a) && Join(folder, a)[|front|..] == Units(a);
    assert Units(b) != [] ==> Join(folder, b) == front + Units(b) && Join(folder, b)[|front|..] == Units(b);
  }

  /** The last entry that goes to path p, or -1. */
  function LastFor(folder: Path, es: seq<Entry>, p: Path): (i: int)
    ensures -1 <= i < |es|
    ensures i >= 0 ==> Join(folder, es[i].name) == p
    ensures forall j :: i < j < |es| ==> Join(folder, es[j].name) != p
  {
    if es == [] then -1
    else if Join(folder, es[|es| - 1].name) == p then |es| - 1
    else LastFor(folder, es[..|es| - 1], p)
  }

  /** The last entry of a name decides the file of that name; other files are untouched. */
  lemma {:induction false} UnpackedLookup(lib: Library, files: Files, folder: Path, es: seq<Entry>, p: Path)
    requires lib.writable(p)
    ensures var after := Unpacked(lib, files, folder, es); var i := LastFor(folder, es, p);
      if i >= 0 then p in after && after[p] == es[i].content
      else (p in after <==> p in files) && (p in files ==> after[p] == files[p])
  {
    hide Join;
    if es == [] {
    } else {
      UnpackedLookup(lib, files, folder, es[..|es| - 1], p);
    }
  }

  ghost predicate Restored(lib: Library, files: Files, folder: Path, es: seq<Entry>, i: nat)
    requires i < |es|
  {
    var p := Join(folder, es[i].name);
    var after := Unpacked(lib, files, folder, es);
    p in after && after[p] == es[i].content
  }

  /** Every stored file comes back exactly when entries that share a name agree in content. */
  lemma AllRestoredIff(lib: Library, files: Files, folder: Path, es: seq<Entry>)
    requires forall e :: e in es ==> lib.writable(Join(folder, e.name)) && SEPARATOR !in Units(e.name)
    ensures (forall i :: 0 <= i < |es| ==> Restored(lib, files, folder, es, i))
      <==> forall i, j :: 0 <= i < |es| && 0 <= j < |es| && Units(es[i].name) == Units(es[j].name) ==>
             es[i].content == es[j].content
  {
    forall i | 0 <= i < |es|
      ensures Restored(lib, files, folder, es, i)
        <==> es[LastFor(folder, es, Join(folder, es[i].name))].content == es[i].content
    {
      assert es[i] in es;
      UnpackedLookup(lib, files, folder, es, Join(folder, es[i].name));
    }
    forall i, j | 0 <= i < |es| && 0 <= j < |es|
      ensures Join(folder, es[i].name) == Join(folder, es[j].name) <==> Units(es[i].name) == Units(es[j].name)
    {
      assert es[i] in es && es[j] in es;
      JoinInjective(folder, es[i].name, es[j].name);
    }
    hide Join, Restored;
  }

  lemma {:induction false} CollectedSources(files: Files, paths: seq<Path>)
    ensures forall e :: e in Collected(files, paths) ==>
      exists p :: p in paths && p in files && e == Entry(Chars(BaseName(p)), files[p])
    ensures forall p :: p in paths && p in files ==> Entry(Chars(BaseName(p)), files[p]) in Collected(files, paths)
  {
    hide BaseName;
    if paths == [] {
    } else {
      var init, last := paths[..|paths| - 1], paths[|paths| - 1];
      CollectedSources(files, init);
      assert forall p :: p in paths <==> p in init || p == last;
    }
  }

  /**
   Record files with distinct base names reappear after a load, under their base names, with the
   contents they had when the container was saved.
   */
  lemma RecordFilesReappear(lib: Library, saved: Files, files: Files, folder: Path, paths: seq<Path>, p: Path)
    requires forall q :: q in paths ==> lib.writable(Join(folder, Chars(BaseName(q))))
    requires forall q, r :: q in paths && r in paths && BaseName(q) == BaseName(r) ==> q == r
    requires p in paths && p in saved
    ensures var after := Unpacked(lib, files, folder, Collected(saved, paths));
      var target := Join(folder, Chars(BaseName(p)));
      target in after && after[target] == saved[p]
  {
    var es := Collected(saved, paths);
    CollectedSources(saved, paths);
    var e := Entry(Chars(BaseName(p)), saved[p]);
    var i :| 0 <= i < |es| && es[i] == e;
    var target := Join(folder, e.name);
    UnpackedLookup(lib, files, folder, es, target);
    var k := LastFor(folder, es, target);
    assert es[k] in es;
    JoinInjective(folder, es[k].name, e.name);
  }

  /** Below the temporary path, in a folder named after the test date. */
  ghost function Place(tmppath: Path, date: Path, name: Path): Path
    requires date != []
  {
    tmppath + ['/' as int] + date + (if date[|date| - 1] == '/' as int then [] else ['/' as int]) + name
  }

  /** Where a loaded record file lies. */
  lemma RecordFilePlace(tmppath: Path, s: Settings, name: Path)
    requires !s.testdate.IsEmpty() && name != [] && SEPARATOR !in name
    ensures Join(DataFolder(tmppath, s), Chars(name)) == Place(tmppath, s.testdate.units, name)
  {
    var folder := DataFolder(tmppath, s);
    assert folder[|folder| - 1] == s.testdate.units[|s.testdate.units| - 1];
  }

  /** So after a load each record file can be read under that path with the content it was saved with. */
  lemma RecordFilesLie(lib: Library, saved: Files, files: Files, tmppath: Path, s: Settings, paths: seq<Path>, p: Path)
    requires !s.testdate.IsEmpty() && BaseName(p) != []
    requires forall q :: q in paths ==> lib.writable(Join(DataFolder(tmppath, s), Chars(BaseName(q))))
    requires forall q, r :: q in paths && r in paths && BaseName(q) == BaseName(r) ==> q == r
    requires p in paths && p in saved
    ensures var after := Unpacked(lib, files, DataFolder(tmppath, s), Collected(saved, paths));
      var place := Place(tmppath, s.testdate.units, BaseName(p));
      place in after && after[place] == saved[p]
  {
    hide Join, DataFolder, Unpacked, Collected, Place;
    RecordFilePlace(tmppath, s, BaseName(p));
    RecordFilesReappear(lib, saved, files, DataFolder(tmppath, s), paths, p);
  }

  /**
   A save keeps the record files as they are exactly when it does not go onto one of them, or onto
   one that already reads like the flushed part of the container's head.
   */
  lemma StoredIntactIff(lib: Library, version: nat, s: Settings, files: Files, path: Path, n: nat, paths: seq<Path>)
    ensures Stored(lib, version, s, files, path, n, paths) == Collected(files, paths)
      <==> (path in paths ==> path in files && files[path] == Flushed(Head(lib, version, s), n))
  {
    CollectedIntactIff(files, path, Flushed(Head(lib, version, s), n), paths);
  }

  /** A container saved by one object and loaded by another. */
  method SaveThenLoad(disk: Disk, saver: Config, loader: Config, path: Path, n: nat) returns (ok: bool)
    requires saver != loader && saver.lib == loader.lib && saver.version >= 2
    requires saver.lib.Inverse() && saver.lib.writable(path)
    requires var es := Stored(saver.lib, saver.version, saver.settings, disk.files, path, n, saver.datafilenames);
      ContainerFits(saver.lib, saver.version, saver.settings, es)
    modifies disk, loader
    ensures loader.settings == saver.settings
    ensures saver.settings.testdate.IsEmpty() ==> ok && loader.datafilenames == []
    ensures !saver.settings.testdate.IsEmpty() ==>
      var es := Stored(saver.lib, saver.version, saver.settings, old(disk.files), path, n, saver.datafilenames);
      var folder := DataFolder(loader.tmppath, saver.settings);
      && ok == saver.lib.parsesLogs(saver.settings.tpcfg)
      && loader.datafilenames == UnpackedPaths(saver.lib, folder, es)
      && disk.files == Unpacked(saver.lib,
           old(disk.files)[path := Container(saver.lib, saver.version, saver.settings, es)], folder, es)
  {
    ghost var es := Stored(saver.lib, saver.version, saver.settings, disk.files, path, n, saver.datafilenames);
    var saved := saver.SaveToFile(disk, path, n);
    ContainerRoundTrip(saver.lib, saver.version, saver.settings, es);
    hide Container, Decode, Unpacked, UnpackedPaths, Stored, ContainerFits, DataFolder;
    label stored:
    ok := loader.LoadFromFile(disk, path);
    assert loader.Loaded(Decode(saver.lib, old@stored(disk.files)[path]), old@stored(disk.files), disk.files, ok);
  }
}
