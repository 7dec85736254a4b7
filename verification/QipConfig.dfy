/** The .qip container: a versioned file of compressed settings and compressed record files. */
module QipConfig {
  import opened QDataStream

  type Bytes = seq<Byte>
  type Path = seq<Unit>

  const MAGIC: Bytes := ['.' as int, 'Q' as int, 'I' as int, 'P' as int]
  const VERSION := 2
  const SEPARATOR: Unit := '/' as int

  /** zlib and the JSON log parser are library and application code outside the container. */
  datatype Library = Library(
    compress: Bytes -> Bytes,
    uncompress: Bytes -> Bytes,
    parsesLogs: Text -> bool,
    writable: Path -> bool)
  {
    ghost predicate Inverse() {
      forall b :: uncompress(compress(b)) == b
    }
  }

  datatype Settings = Settings(tpcfg: Text, env: Text, testdate: Text)

  /** One stored record file: its base name and its content. */
  datatype Entry = Entry(name: Text, content: Bytes)

  // ----- the format

  /** What follows the last separator. */
  function BaseName(p: Path): (r: Path)
    ensures SEPARATOR !in r && |r| <= |p| && r == p[|p| - |r|..]
    ensures |r| < |p| ==> p[|p| - |r| - 1] == SEPARATOR
  {
    if SEPARATOR !in p then p else BaseName(p[1..])
  }

  function Units(t: Text): Path {
    match t
    case Null => []
    case Chars(units) => units
  }

  /** QDir::filePath: an absolute name stands for itself, and separators are not doubled. */
  function Join(folder: Path, name: Text): Path {
    var n := Units(name);
    if n == [] then folder
    else if n[0] == SEPARATOR then n
    else if folder == [] || folder[|folder| - 1] == SEPARATOR then folder + n
    else folder + [SEPARATOR] + n
  }

  function Serialize(version: nat, s: Settings): Bytes {
    PutText(s.tpcfg) + if version >= 2 then PutText(s.env) + PutText(s.testdate) else []
  }

  /** The settings and whether the stream was intact; an old version has no env and testdate. */
  function Deserialize(version: nat, data: Bytes): (res: (Settings, bool)) {
    var (r1, tpcfg) := GetText(Reader(data, true));
    if version >= 2 then
      var (r2, env) := GetText(r1);
      var (r3, testdate) := GetText(r2);
      (Settings(tpcfg, env, testdate), r3.ok)
    else (Settings(tpcfg, Null, Null), r1.ok)
  }

  function PutEntry(lib: Library, e: Entry): Bytes {
    PutText(e.name) + PutBytes(lib.compress(e.content))
  }

  function PutEntries(lib: Library, es: seq<Entry>): Bytes {
    if es == [] then [] else PutEntries(lib, es[..|es| - 1]) + PutEntry(lib, es[|es| - 1])
  }

  /** The reading loop: name and content until the stream is at its end, whatever its status. */
  function GetEntries(lib: Library, r: Reader): (es: seq<Entry>)
    decreases |r.rest|
  {
    if AtEnd(r) then [] else
      var (q, name) := GetText(r);
      var (q', data) := GetBytes(q);
      [Entry(name, lib.uncompress(data))] + GetEntries(lib, q')
  }

  function Head(lib: Library, version: nat, s: Settings): Bytes {
    PutBytes(MAGIC) + PutU32(VERSION) + PutBytes(lib.compress(Serialize(version, s)))
  }

  function Container(lib: Library, version: nat, s: Settings, es: seq<Entry>): Bytes {
    Head(lib, version, s) + if version >= 2 then PutBytes(PutEntries(lib, es)) else []
  }

  /** Refused; fine without record files; or fine once the record files are unpacked and parsed. */
  datatype Result = Refused | Fine | WithFiles

  /** Everything loading learns from the bytes of a file. */
  datatype Decoded = Decoded(magic: Bytes, version: nat, settings: Settings, stored: seq<Entry>, result: Result)

  const NO_SETTINGS := Settings(Null, Null, Null)

  function Decode(lib: Library, file: Bytes): Decoded {
    var (r1, magic) := GetBytes(Reader(file, true));
    var (r2, version) := GetU32(r1);
    if !(MAGIC <= magic) then Decoded(magic, version, NO_SETTINGS, [], Refused) else
      var (r3, compressed) := GetBytes(r2);
      var data := lib.uncompress(compressed);
      if data == [] then Decoded(magic, version, NO_SETTINGS, [], Refused) else
        var (settings, intact) := Deserialize(version, data);
        if !intact then Decoded(magic, version, settings, [], Refused)
        else if version < 2 || settings.testdate.IsEmpty() then Decoded(magic, version, settings, [], Fine)
        else Decoded(magic, version, settings, GetEntries(lib, Reader(GetBytes(r3).1, true)), WithFiles)
  }

  // ----- the files on disk

  type Files = map<Path, Bytes>

  /** The entries a save collects: files that cannot be opened are skipped. */
  function Collected(files: Files, paths: seq<Path>): seq<Entry> {
    if paths == [] then [] else
      var p := paths[|paths| - 1];
      var before := Collected(files, paths[..|paths| - 1]);
      if p in files then before + [Entry(Chars(BaseName(p)), files[p])] else before
  }

  /** What has reached the disk when the first n bytes written to a file are flushed. */
  function Flushed(written: Bytes, n: nat): Bytes {
    if n < |written| then written[..n] else written
  }

  /** The entries of a save: the file itself is already truncated and its head partly written. */
  function Stored(lib: Library, version: nat, s: Settings, files: Files, path: Path, n: nat, paths: seq<Path>)
    : seq<Entry>
  {
    Collected(files[path := Flushed(Head(lib, version, s), n)], paths)
  }

  /** The files after unpacking entries one by one; a later entry of the same name overwrites. */
  function Unpacked(lib: Library, files: Files, folder: Path, es: seq<Entry>): Files {
    if es == [] then files else
      var e := es[|es| - 1];
      var before := Unpacked(lib, files, folder, es[..|es| - 1]);
      var p := Join(folder, e.name);
      if lib.writable(p) then before[p := e.content] else before
  }

  function UnpackedPaths(lib: Library, folder: Path, es: seq<Entry>): seq<Path> {
    if es == [] then [] else
      var p := Join(folder, es[|es| - 1].name);
      UnpackedPaths(lib, folder, es[..|es| - 1]) + if lib.writable(p) then [p] else []
  }

  class Disk {
    var files: Files

    constructor (files: Files)
      ensures this.files == files
    {
      this.files := files;
    }
  }

  /** Record files are unpacked into a folder named after the test. */
  function DataFolder(tmppath: Path, s: Settings): Path {
    tmppath + [SEPARATOR] + Units(s.testdate)
  }

  lemma NextEntry(done: seq<Entry>, e: Entry, rest: seq<Entry>)
    ensures done + ([e] + rest) == (done + [e]) + rest
  {
  }

  lemma CollectedStep(files: Files, paths: seq<Path>, i: nat)
    requires i < |paths|
    ensures var before := Collected(files, paths[..i]);
      Collected(files, paths[..i + 1]) ==
      if paths[i] in files then before + [Entry(Chars(BaseName(paths[i])), files[paths[i]])] else before
  {
    assert paths[..i + 1][..i] == paths[..i];
  }

  lemma PutEntriesStep(lib: Library, es: seq<Entry>, e: Entry)
    ensures PutEntries(lib, es + [e]) == PutEntries(lib, es) + PutEntry(lib, e)
  {
  }

  lemma UnpackStep(lib: Library, files: Files, folder: Path, es: seq<Entry>, e: Entry)
    ensures var p := Join(folder, e.name);
      && Unpacked(lib, files, folder, es + [e]) ==
         (if lib.writable(p) then Unpacked(lib, files, folder, es)[p := e.content]
          else Unpacked(lib, files, folder, es))
      && UnpackedPaths(lib, folder, es + [e]) ==
         UnpackedPaths(lib, folder, es) + (if lib.writable(p) then [p] else [])
  {
  }

  class Config {
    var magic: Bytes
    var version: nat
    var loadVersion: nat
    var settings: Settings
    var datafilenames: seq<Path>
    const tmppath: Path
    const lib: Library

    constructor (lib: Library, tmppath: Path)
      ensures version == 2 && settings == NO_SETTINGS && datafilenames == []
      ensures this.lib == lib && this.tmppath == tmppath
    {
      this.lib, this.tmppath := lib, tmppath;
      magic, version, loadVersion, settings, datafilenames := [], 2, 0, NO_SETTINGS, [];
    }

    method Init()
      modifies this
      ensures magic == [] && version == 2 && loadVersion == 0
      ensures settings == NO_SETTINGS && datafilenames == []
    {
      magic, version, loadVersion, settings, datafilenames := [], 2, 0, NO_SETTINGS, [];
    }

    method FilesToStore(disk: Disk, inputFiles: seq<Path>) returns (output: Bytes)
      ensures output == PutEntries(lib, Collected(disk.files, inputFiles))
    {
      output := [];
      for i := 0 to |inputFiles|
        invariant output == PutEntries(lib, Collected(disk.files, inputFiles[..i]))
      {
        var fileName := inputFiles[i];
        CollectedStep(disk.files, inputFiles, i);
        if fileName in disk.files {
          var e := Entry(Chars(BaseName(fileName)), disk.files[fileName]);
          PutEntriesStep(lib, Collected(disk.files, inputFiles[..i]), e);
          output := output + PutEntry(lib, e);
        }
      }
      assert inputFiles[..|inputFiles|] == inputFiles;
    }

    /** n: how much of the head the system has written out when the record files are read. */
    method SaveToFile(disk: Disk, filePath: Path, n: nat) returns (ok: bool)
      modifies disk
      ensures ok == lib.writable(filePath)
      ensures !ok ==> disk.files == old(disk.files)
      ensures ok ==> disk.files == old(disk.files)[filePath :=
        Container(lib, version, settings,
                  Stored(lib, version, settings, old(disk.files), filePath, n, datafilenames))]
    {
      var compressed := lib.compress(Serialize(version, settings));
      if !lib.writable(filePath) {
        return false;
      }
      var out := PutBytes(MAGIC) + PutU32(VERSION) + PutBytes(compressed);
      assert out + [] == out;
      disk.files := disk.files[filePath := Flushed(out, n)];
      ghost var during := disk.files;
      if version >= 2 {
        var compressedFiles := FilesToStore(disk, datafilenames);
        out := out + PutBytes(compressedFiles);
      }
      disk.files := disk.files[filePath := out];
      assert during[filePath := out] == old(disk.files)[filePath := out];
      return true;
    }

    /** Writing one unpacked file and remembering its path; a file that does not open is skipped. */
    method WriteEntry(disk: Disk, outputFolder: Path, e: Entry)
      modifies this`datafilenames, disk
      ensures var p := Join(outputFolder, e.name);
        && disk.files == (if lib.writable(p) then old(disk.files)[p := e.content] else old(disk.files))
        && datafilenames == old(datafilenames) + (if lib.writable(p) then [p] else [])
    {
      var path := Join(outputFolder, e.name);
      if lib.writable(path) {
        disk.files := disk.files[path := e.content];
        datafilenames := datafilenames + [path];
      }
    }

    method FilesFromStore(disk: Disk, inputData: Bytes, outputFolder: Path)
      modifies this`datafilenames, disk
      ensures var es := GetEntries(lib, Reader(inputData, true));
        && disk.files == Unpacked(lib, old(disk.files), outputFolder, es)
        && datafilenames == old(datafilenames) + UnpackedPaths(lib, outputFolder, es)
    {
      hide GetText, GetBytes, Join;
      var input := Reader(inputData, true);
      ghost var es := GetEntries(lib, input);
      ghost var done: seq<Entry> := [];
      while !AtEnd(input)
        invariant done + GetEntries(lib, input) == es
        invariant disk.files == Unpacked(lib, old(disk.files), outputFolder, done)
        invariant datafilenames == old(datafilenames) + UnpackedPaths(lib, outputFolder, done)
        decreases |input.rest|
      {
        var (q, name) := GetText(input);
        var (q', data) := GetBytes(q);
        var e := Entry(name, lib.uncompress(data));
        UnpackStep(lib, old(disk.files), outputFolder, done, e);
        NextEntry(done, e, GetEntries(lib, q'));
        WriteEntry(disk, outputFolder, e);
        done := done + [e];
        input := q';
      }
      assert done + [] == done;
    }

    /** The configuration and the disk after a load that read the given contents. */
    ghost predicate Loaded(d: Decoded, before: Files, after: Files, ok: bool)
      reads this
    {
      && magic == d.magic && loadVersion == d.version && settings == d.settings
      && match d.result
         case Refused => !ok && after == before && datafilenames == []
         case Fine => ok && after == before && datafilenames == []
         case WithFiles =>
           var folder := DataFolder(tmppath, d.settings);
           && ok == lib.parsesLogs(d.settings.tpcfg)
           && after == Unpacked(lib, before, folder, d.stored)
           && datafilenames == UnpackedPaths(lib, folder, d.stored)
    }

    method LoadFromFile(disk: Disk, filePath: Path) returns (ok: bool)
      modifies this, disk
      ensures filePath !in old(disk.files) ==>
        !ok && disk.files == old(disk.files) && settings == NO_SETTINGS && datafilenames == []
      ensures filePath in old(disk.files) ==>
        Loaded(Decode(lib, old(disk.files)[filePath]), old(disk.files), disk.files, ok)
      ensures version == 2
    {
      Init();
      if filePath !in disk.files {
        return false;
      }
      var (r1, m) := GetBytes(Reader(disk.files[filePath], true));
      var (r2, v) := GetU32(r1);
      magic, loadVersion := m, v;
      if !(MAGIC <= magic) {
        return false;
      }
      var (r3, compressed) := GetBytes(r2);
      var data := lib.uncompress(compressed);
      if data == [] {
        return false;
      }
      var (loaded, intact) := Deserialize(loadVersion, data);
      settings := loaded;
      if !intact {
        return false;
      }
      if loadVersion >= 2 && !settings.testdate.IsEmpty() {
        var outpath := DataFolder(tmppath, settings);
        FilesFromStore(disk, GetBytes(r3).1, outpath);
        ok := lib.parsesLogs(settings.tpcfg);
      } else {
        ok := true;
      }
    }
  }

  lemma SameLast(a: seq<Entry>, b: seq<Entry>, x: Entry, y: Entry)
    ensures a + [x] == b + [y] <==> a == b && x == y
  {
    if a + [x] == b + [y] {
      assert (a + [x])[..|a|] == a && (b + [y])[..|b|] == b;
      assert (a + [x])[|a|] == x && (b + [y])[|b|] == y;
    }
  }

  /** Writing one file spoils the entries collected exactly when it is one of them and its content changes. */
  lemma {:induction false} CollectedIntactIff(files: Files, path: Path, content: Bytes, paths: seq<Path>)
    ensures Collected(files[path := content], paths) == Collected(files, paths)
      <==> (path in paths ==> path in files && files[path] == content)
    ensures path !in files ==> |Collected(files[path := content], paths)| >= |Collected(files, paths)|
    ensures path in files ==> |Collected(files[path := content], paths)| == |Collected(files, paths)|
  {
    if paths == [] {
    } else {
      hide BaseName;
      var init, last := paths[..|paths| - 1], paths[|paths| - 1];
      var after := files[path := content];
      CollectedIntactIff(files, path, content, init);
      assert path in paths <==> path in init || path == last;
      var a, b := Collected(after, init), Collected(files, init);
      if last in after {
        SameLast(a, b, Entry(Chars(BaseName(last)), after[last]),
                 Entry(Chars(BaseName(last)), if last in files then files[last] else []));
      }
    }
  }
}
