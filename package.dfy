/**
 * Package-level orchestration: checks the configuration, then either takes
 * every struct of the target file or looks the requested struct names up in
 * every file of the package. The configuration store, `build.ImportDir` and
 * the parser are replaced by the values of `Config` and `Workspace`.
 */
module Package {
  import opened Basics
  import opened Source
  import opened GoAst
  import opened Structs

  /** The configuration keys the engine reads: `gopackage`, `gofile` and `struct`. */
  datatype Config = Config(goPackage: string, goFile: string, structNames: seq<string>)

  /**
   * The package directory: the Go files `build.ImportDir` lists (`None` when
   * it fails), the syntax tree the parser produces for each file it can
   * parse, and the files' bytes.
   */
  datatype Workspace = Workspace(goFiles: Option<seq<string>>, parsed: map<string, File>, disk: Disk)
  {
    predicate Valid() { forall f :: f in parsed ==> parsed[f].Valid() }
  }

  /** The struct map while names are looked up: `None` stands for Go's nil entry. */
  type FoundMap = map<string, Option<Struct>>

  // ---------------------------------------------------------------------------
  // Specification

  /** Every requested name, not found yet. */
  function Initial(names: seq<string>): FoundMap
  {
    map n | n in names :: None
  }

  /** Take from `temp` the structs of the names already in `found`; other names are dropped. */
  function Merge(found: FoundMap, temp: StructMap): FoundMap
  {
    map n | n in found :: if n in temp then Some(temp[n]) else found[n]
  }

  /**
   * One file of the package in the look-up mode. A file that does not parse
   * is reported under the configured target file's name, as the engine does.
   */
  function FileResult(ws: Workspace, cfg: Config, file: string): (r: Result<StructMap>)
    requires ws.Valid()
    ensures file !in ws.parsed ==> r == Err(ParseFailed(cfg.goFile))
    ensures file in ws.parsed && r.Err? ==> r.error.FileStructsFailed? && r.error.filename == file
  {
    if file !in ws.parsed then Err(ParseFailed(cfg.goFile))
    else match FileStructs(ws.disk, ws.parsed[file])
      case Err(e) => Err(FileStructsFailed(file, e))
      case Ok(m) => Ok(m)
  }

  /** The look-up over `files` in order, or the first file's failure. */
  function ScanFiles(ws: Workspace, cfg: Config, files: seq<string>): Result<FoundMap>
    requires ws.Valid()
  {
    if files == [] then Ok(Initial(cfg.structNames))
    else match ScanFiles(ws, cfg, files[..|files| - 1])
      case Err(e) => Err(e)
      case Ok(found) =>
        match FileResult(ws, cfg, files[|files| - 1])
        case Err(e) => Err(e)
        case Ok(temp) => Ok(Merge(found, temp))
  }

  /** Every struct of the target file. */
  function WholeFile(ws: Workspace, cfg: Config): (r: Result<StructMap>)
    requires ws.Valid()
    ensures cfg.goFile !in ws.parsed ==> r == Err(ParseFailed(cfg.goFile))
    ensures cfg.goFile in ws.parsed && r.Err? ==> r.error.FileStructsFailed? && r.error.filename == cfg.goFile
  {
    if cfg.goFile !in ws.parsed then Err(ParseFailed(cfg.goFile))
    else match FileStructs(ws.disk, ws.parsed[cfg.goFile])
      case Err(e) => Err(FileStructsFailed(cfg.goFile, e))
      case Ok(m) => Ok(m)
  }

  predicate AllFound(found: FoundMap)
  {
    forall n :: n in found ==> found[n].Some?
  }

  function Unwrap(found: FoundMap): StructMap
    requires AllFound(found)
  {
    map n | n in found :: found[n].value
  }

  /**
   * The results `GetStructsFromPackage` may return. Which missing name is
   * reported depends on Go's map iteration order, so any missing one may be.
   */
  ghost predicate PackageOutcome(ws: Workspace, cfg: Config, r: Result<StructMap>)
    requires ws.Valid()
  {
    if cfg.goPackage == [] then r == Err(MissingPackageName)
    else if ws.goFiles.None? then r == Err(BuildFailed)
    else if cfg.goFile !in ws.goFiles.value then r == Err(FileNotInPackage(cfg.goFile))
    else if cfg.structNames == [] then r == WholeFile(ws, cfg)
    else LookupOutcome(ws, cfg, ws.goFiles.value, r)
  }

  /** The results of looking the requested names up in `files`. */
  ghost predicate LookupOutcome(ws: Workspace, cfg: Config, files: seq<string>, r: Result<StructMap>)
    requires ws.Valid()
  {
    match ScanFiles(ws, cfg, files)
    case Err(e) => r == Err(e)
    case Ok(found) =>
      if AllFound(found) then r == Ok(Unwrap(found))
      else r.Err? && r.error.StructNotFound? && r.error.name in found && found[r.error.name].None?
  }

  // ---------------------------------------------------------------------------
  // Lemmas about the look-up

  lemma ScanAppend(ws: Workspace, cfg: Config, files: seq<string>, file: string)
    requires ws.Valid()
    ensures ScanFiles(ws, cfg, files + [file]) ==
      match ScanFiles(ws, cfg, files)
      case Err(e) => Err(e)
      case Ok(found) =>
        match FileResult(ws, cfg, file)
        case Err(e) => Err(e)
        case Ok(temp) => Ok(Merge(found, temp))
  {
    assert (files + [file])[..|files|] == files;
  }

  lemma {:induction false} ScanErrSticks(ws: Workspace, cfg: Config, files: seq<string>, rest: seq<string>)
    requires ws.Valid()
    ensures ScanFiles(ws, cfg, files).Err? ==> ScanFiles(ws, cfg, files + rest) == ScanFiles(ws, cfg, files)
  {
    if rest != [] {
      var rest' := rest[..|rest| - 1];
      assert files + rest == (files + rest') + [rest[|rest| - 1]];
      ScanErrSticks(ws, cfg, files, rest');
      ScanAppend(ws, cfg, files + rest', rest[|rest| - 1]);
    } else {
      assert files + rest == files;
    }
  }

  /** The look-up keeps exactly the requested names as keys. */
  lemma {:induction false} ScanKeys(ws: Workspace, cfg: Config, files: seq<string>)
    requires ws.Valid()
    ensures ScanFiles(ws, cfg, files).Ok? ==> forall n :: n in ScanFiles(ws, cfg, files).value <==> n in cfg.structNames
  {
    if files != [] {
      ScanKeys(ws, cfg, files[..|files| - 1]);
    }
  }

  /** File `k` of `files` parses and its structs include one named `n`, which is `s`. */
  ghost predicate FileHas(ws: Workspace, cfg: Config, files: seq<string>, k: int, n: string, s: Struct)
    requires ws.Valid()
  {
    0 <= k < |files| && FileResult(ws, cfg, files[k]).Ok? &&
    n in FileResult(ws, cfg, files[k]).value && FileResult(ws, cfg, files[k]).value[n] == s
  }

  /** No file of `files` after the `k`th has a struct named `n`. */
  ghost predicate NoLaterFile(ws: Workspace, cfg: Config, files: seq<string>, k: int, n: string)
    requires ws.Valid()
  {
    forall j :: 0 <= j < |files| && k < j && FileResult(ws, cfg, files[j]).Ok? ==> n !in FileResult(ws, cfg, files[j]).value
  }

  /**
   * After a successful look-up, a requested name is found exactly when some
   * file has a struct with that name, and then it holds the struct of the
   * last such file.
   */
  lemma {:induction false} ScanFound(ws: Workspace, cfg: Config, files: seq<string>)
    requires ws.Valid()
    ensures ScanFiles(ws, cfg, files).Ok? ==>
      var found := ScanFiles(ws, cfg, files).value;
      forall n :: n in found ==>
        (found[n].None? <==> NoLaterFile(ws, cfg, files, -1, n)) &&
        (found[n].Some? ==> exists k :: FileHas(ws, cfg, files, k, n, found[n].value) && NoLaterFile(ws, cfg, files, k, n))
  {
    if files != [] {
      var p, file := files[..|files| - 1], files[|files| - 1];
      assert files == p + [file];
      ScanFound(ws, cfg, p);
      ScanAppend(ws, cfg, p, file);
      if ScanFiles(ws, cfg, files).Ok? {
        var found := ScanFiles(ws, cfg, p).value;
        var temp := FileResult(ws, cfg, file).value;
        var found' := Merge(found, temp);
        forall n | n in found'
          ensures found'[n].None? <==> NoLaterFile(ws, cfg, files, -1, n)
          ensures found'[n].Some? ==> exists k :: FileHas(ws, cfg, files, k, n, found'[n].value) && NoLaterFile(ws, cfg, files, k, n)
        {
          if n in temp {
            assert FileHas(ws, cfg, files, |p|, n, found'[n].value);
            assert NoLaterFile(ws, cfg, files, |p|, n);
            assert !NoLaterFile(ws, cfg, files, -1, n);
          } else {
            NoLaterExtends(ws, cfg, p, file, n);
            if found[n].Some? {
              var k :| FileHas(ws, cfg, p, k, n, found[n].value) && NoLaterFile(ws, cfg, p, k, n);
              assert files[k] == p[k];
              assert FileHas(ws, cfg, files, k, n, found'[n].value);
            }
          }
        }
      }
    }
  }

  lemma NoLaterExtends(ws: Workspace, cfg: Config, p: seq<string>, file: string, n: string)
    requires ws.Valid()
    requires FileResult(ws, cfg, file).Ok? && n !in FileResult(ws, cfg, file).value
    ensures forall k :: -1 <= k < |p| ==> (NoLaterFile(ws, cfg, p + [file], k, n) <==> NoLaterFile(ws, cfg, p, k, n))
  {
    var files := p + [file];
    assert forall j :: 0 <= j < |p| ==> files[j] == p[j];
    assert files[|p|] == file;
  }

  /**
   * The look-up fails exactly when some file of the package does not parse
   * or cannot be extracted, and then with the first such file's failure.
   */
  lemma {:induction false} ScanFails(ws: Workspace, cfg: Config, files: seq<string>)
    requires ws.Valid()
    ensures ScanFiles(ws, cfg, files).Ok? <==> forall k :: 0 <= k < |files| ==> FileResult(ws, cfg, files[k]).Ok?
    ensures ScanFiles(ws, cfg, files).Err? ==>
      exists k :: 0 <= k < |files| && FileResult(ws, cfg, files[k]) == Err(ScanFiles(ws, cfg, files).error) &&
        forall j :: 0 <= j < k ==> FileResult(ws, cfg, files[j]).Ok?
  {
    ScanOk(ws, cfg, files);
    if ScanFiles(ws, cfg, files).Err? {
      var k := FirstFailing(ws, cfg, files);
    }
  }

  /** Every file of `files` parses and yields its structs. */
  predicate AllScanned(ws: Workspace, cfg: Config, files: seq<string>)
    requires ws.Valid()
  {
    forall k :: 0 <= k < |files| ==> FileResult(ws, cfg, files[k]).Ok?
  }

  lemma ScannedLast(ws: Workspace, cfg: Config, files: seq<string>)
    requires ws.Valid() && files != []
    ensures AllScanned(ws, cfg, files) <==>
      AllScanned(ws, cfg, files[..|files| - 1]) && FileResult(ws, cfg, files[|files| - 1]).Ok?
  {
    var p := files[..|files| - 1];
    forall k | 0 <= k < |p| ensures p[k] == files[k] { }
  }

  lemma {:induction false} ScanOk(ws: Workspace, cfg: Config, files: seq<string>)
    requires ws.Valid()
    ensures ScanFiles(ws, cfg, files).Ok? <==> AllScanned(ws, cfg, files)
  {
    if files != [] {
      ScannedLast(ws, cfg, files);
      ScanOk(ws, cfg, files[..|files| - 1]);
    }
  }

  lemma ScanLast(ws: Workspace, cfg: Config, files: seq<string>)
    requires ws.Valid() && files != []
    ensures ScanFiles(ws, cfg, files[..|files| - 1]).Err? ==>
      ScanFiles(ws, cfg, files) == ScanFiles(ws, cfg, files[..|files| - 1])
    ensures ScanFiles(ws, cfg, files[..|files| - 1]).Ok? ==>
      (ScanFiles(ws, cfg, files).Err? <==> FileResult(ws, cfg, files[|files| - 1]).Err?)
    ensures ScanFiles(ws, cfg, files[..|files| - 1]).Ok? && FileResult(ws, cfg, files[|files| - 1]).Err? ==>
      ScanFiles(ws, cfg, files) == Err(FileResult(ws, cfg, files[|files| - 1]).error)
  {
  }

  lemma {:induction false} FirstFailing(ws: Workspace, cfg: Config, files: seq<string>) returns (k: nat)
    requires ws.Valid() && ScanFiles(ws, cfg, files).Err?
    ensures k < |files| && FileResult(ws, cfg, files[k]) == Err(ScanFiles(ws, cfg, files).error)
    ensures forall j :: 0 <= j < k ==> FileResult(ws, cfg, files[j]).Ok?
  {
    var p := files[..|files| - 1];
    ScanLast(ws, cfg, files);
    if ScanFiles(ws, cfg, p).Err? {
      k := FirstFailing(ws, cfg, p);
      assert files[k] == p[k];
      forall j | 0 <= j < k ensures FileResult(ws, cfg, files[j]).Ok? {
        assert files[j] == p[j];
      }
    } else {
      ScanOk(ws, cfg, p);
      k := |p|;
      forall j | 0 <= j < k ensures FileResult(ws, cfg, files[j]).Ok? {
        assert files[j] == p[j];
        assert FileResult(ws, cfg, p[j]).Ok?;
      }
    }
  }

  // ---------------------------------------------------------------------------
  // Lemmas about the outcome

  /**
   * A successful look-up returns exactly the requested names, each with the
   * struct of that name from the last file of the package declaring it.
   */
  lemma LookupOk(ws: Workspace, cfg: Config, m: StructMap)
    requires ws.Valid() && cfg.structNames != []
    requires PackageOutcome(ws, cfg, Ok(m))
    ensures ws.goFiles.Some? && cfg.goFile in ws.goFiles.value
    ensures forall n :: n in m <==> n in cfg.structNames
    ensures forall n :: n in m ==>
      exists k :: FileHas(ws, cfg, ws.goFiles.value, k, n, m[n]) && NoLaterFile(ws, cfg, ws.goFiles.value, k, n)
    ensures forall n :: n in m ==> m[n].name == n && m[n].isPresent
  {
    var files := ws.goFiles.value;
    ScanKeys(ws, cfg, files);
    ScanFound(ws, cfg, files);
    forall n | n in m ensures m[n].name == n && m[n].isPresent {
      var k :| FileHas(ws, cfg, files, k, n, m[n]) && NoLaterFile(ws, cfg, files, k, n);
      FileRecords(ws, cfg, files[k]);
    }
  }

  /** Every struct a file yields is filed under its own name and is present. */
  lemma FileRecords(ws: Workspace, cfg: Config, file: string)
    requires ws.Valid()
    ensures FileResult(ws, cfg, file).Ok? ==>
      forall n :: n in FileResult(ws, cfg, file).value ==>
        FileResult(ws, cfg, file).value[n].name == n && FileResult(ws, cfg, file).value[n].isPresent
  {
    if file in ws.parsed {
      FileStructsSpec(ws.disk, ws.parsed[file]);
    }
  }

  /** The look-up mode treats the target file exactly as the whole-file mode does. */
  lemma TargetFileAgrees(ws: Workspace, cfg: Config)
    requires ws.Valid()
    ensures FileResult(ws, cfg, cfg.goFile) == WholeFile(ws, cfg)
  {
  }

  /** A name reported missing was requested and no file of the package has a struct with that name. */
  lemma LookupMissing(ws: Workspace, cfg: Config, name: string)
    requires ws.Valid()
    requires PackageOutcome(ws, cfg, Err(StructNotFound(name)))
    ensures ws.goFiles.Some? && cfg.structNames != []
    ensures name in cfg.structNames
    ensures forall k :: 0 <= k < |ws.goFiles.value| ==>
      FileResult(ws, cfg, ws.goFiles.value[k]).Ok? && name !in FileResult(ws, cfg, ws.goFiles.value[k]).value
  {
    assert cfg.goPackage != [] && ws.goFiles.Some?;
    var files := ws.goFiles.value;
    // the whole-file mode never reports a missing struct, by WholeFile's ensures
    if cfg.structNames != [] {
      ScanKeys(ws, cfg, files);
      ScanFound(ws, cfg, files);
      ScanFails(ws, cfg, files);
    }
  }

  /**
   * In the whole-file mode, the result is the target file's structs, and
   * every record is a present struct filed under its own name.
   */
  lemma WholeFileOk(ws: Workspace, cfg: Config, m: StructMap)
    requires ws.Valid() && cfg.structNames == []
    requires PackageOutcome(ws, cfg, Ok(m))
    ensures cfg.goFile in ws.parsed && FileStructs(ws.disk, ws.parsed[cfg.goFile]) == Ok(m)
    ensures forall n :: n in m ==> m[n].name == n && m[n].isPresent
  {
    FileStructsSpec(ws.disk, ws.parsed[cfg.goFile]);
  }

  /**
   * Apart from which missing name is reported, the outcome is determined:
   * two possible results agree on success and, on success, are equal.
   */
  lemma OutcomeDetermined(ws: Workspace, cfg: Config, r1: Result<StructMap>, r2: Result<StructMap>)
    requires ws.Valid()
    requires PackageOutcome(ws, cfg, r1) && PackageOutcome(ws, cfg, r2)
    ensures r1.Ok? <==> r2.Ok?
    ensures r1.Ok? ==> r1 == r2
    ensures r1.Err? && !r1.error.StructNotFound? ==> r1 == r2
  {
  }

  // ---------------------------------------------------------------------------
  // The operation

  /**
   * The inner loop of the look-up: every struct of one file whose name is
   * requested replaces the entry for that name, visiting the file's map in
   * any order.
   */
  method TakeRequested(found: FoundMap, temp: StructMap) returns (structs: FoundMap)
    ensures structs == Merge(found, temp)
  {
    structs := found;
    var pending := temp.Keys;
    while pending != {}
      invariant pending <= temp.Keys
      invariant structs.Keys == found.Keys
      invariant forall n :: n in structs ==>
        structs[n] == if n in temp && n !in pending then Some(temp[n]) else found[n]
      decreases pending
    {
      var tempStructName :| tempStructName in pending;
      if tempStructName in structs {
        structs := structs[tempStructName := Some(temp[tempStructName])];
      }
      pending := pending - {tempStructName};
    }
  }

  /** `GetStructsFromPackage`. */
  method GetStructsFromPackage(ws: Workspace, cfg: Config) returns (r: Result<StructMap>)
    requires ws.Valid()
    ensures PackageOutcome(ws, cfg, r)
  {
    if cfg.goPackage == [] {
      return Err(MissingPackageName);
    }
    if ws.goFiles.None? {
      return Err(BuildFailed);
    }
    var goFiles := ws.goFiles.value;

    // the target file must belong to the package
    var filename := cfg.goFile;
    var found := false;
    for i := 0 to |goFiles|
      invariant found <==> filename in goFiles[..i]
    {
      if filename == goFiles[i] {
        found := true;
        break;
      }
    }
    if !found {
      assert goFiles[..|goFiles|] == goFiles;
      return Err(FileNotInPackage(filename));
    }

    var structNames := cfg.structNames;
    if |structNames| == 0 {
      // every struct of the target file
      if filename !in ws.parsed {
        return Err(ParseFailed(filename));
      }
      var structs := GetStructsFromFile(ws.disk, ws.parsed[filename]);
      if structs.Err? {
        return Err(FileStructsFailed(filename, structs.error));
      }
      return Ok(structs.value);
    }

    r := LookUp(ws, cfg, goFiles);
  }

  /** The look-up mode of `GetStructsFromPackage`: every file of the package, in order. */
  method LookUp(ws: Workspace, cfg: Config, goFiles: seq<string>) returns (r: Result<StructMap>)
    requires ws.Valid()
    ensures LookupOutcome(ws, cfg, goFiles, r)
  {
    var structs := Prefill(cfg.structNames);
    var scanned := ScanPackage(ws, cfg, goFiles, structs);
    if scanned.Err? {
      return Err(scanned.error);
    }
    r := CheckFound(scanned.value);
  }

  /** Every requested name starts out with a nil struct. */
  method Prefill(structNames: seq<string>) returns (structs: FoundMap)
    ensures structs == Initial(structNames)
  {
    structs := map[];
    for i := 0 to |structNames|
      invariant structs == Initial(structNames[..i])
    {
      assert forall n :: n in structNames[..i + 1] <==> n in structNames[..i] || n == structNames[i] by {
        assert structNames[..i + 1] == structNames[..i] + [structNames[i]];
      }
      structs := structs[structNames[i] := None];
    }
    assert structNames[..|structNames|] == structNames;
  }

  /** The file loop of the look-up: each file is parsed and its requested structs taken. */
  method ScanPackage(ws: Workspace, cfg: Config, goFiles: seq<string>, initial: FoundMap) returns (r: Result<FoundMap>)
    requires ws.Valid() && initial == Initial(cfg.structNames)
    ensures r == ScanFiles(ws, cfg, goFiles)
  {
    var structs := initial;
    assert goFiles[..0] == [];
    for i := 0 to |goFiles|
      invariant ScanFiles(ws, cfg, goFiles[..i]) == Ok(structs)
    {
      var file := goFiles[i];
      ScanStep(ws, cfg, goFiles, i);
      var next := ScanFile(ws, cfg, file, structs);
      if next.Err? {
        return next;
      }
      structs := next.value;
    }
    assert goFiles[..|goFiles|] == goFiles;
    return Ok(structs);
  }

  /** One more file of the look-up, and a failure there is the failure of all files. */
  lemma ScanStep(ws: Workspace, cfg: Config, files: seq<string>, i: nat)
    requires ws.Valid() && i < |files|
    ensures ScanFiles(ws, cfg, files[..i + 1]) ==
      match ScanFiles(ws, cfg, files[..i])
      case Err(e) => Err(e)
      case Ok(found) =>
        match FileResult(ws, cfg, files[i])
        case Err(e) => Err(e)
        case Ok(temp) => Ok(Merge(found, temp))
    ensures ScanFiles(ws, cfg, files[..i + 1]).Err? ==> ScanFiles(ws, cfg, files) == ScanFiles(ws, cfg, files[..i + 1])
  {
    assert files[..i + 1] == files[..i] + [files[i]];
    ScanAppend(ws, cfg, files[..i], files[i]);
    assert files == files[..i + 1] + files[i + 1..];
    ScanErrSticks(ws, cfg, files[..i + 1], files[i + 1..]);
  }

  /** The body of the file loop: parse one file, extract its structs, take the requested ones. */
  method ScanFile(ws: Workspace, cfg: Config, file: string, found: FoundMap) returns (r: Result<FoundMap>)
    requires ws.Valid()
    ensures r == match FileResult(ws, cfg, file)
      case Err(e) => Err(e)
      case Ok(temp) => Ok(Merge(found, temp))
  {
    if file !in ws.parsed {
      return Err(ParseFailed(cfg.goFile));
    }
    var tempStructs := GetStructsFromFile(ws.disk, ws.parsed[file]);
    if tempStructs.Err? {
      return Err(FileStructsFailed(file, tempStructs.error));
    }
    var structs := TakeRequested(found, tempStructs.value);
    return Ok(structs);
  }

  /** Every requested name must have been found; the map is visited in any order. */
  method CheckFound(structs: FoundMap) returns (r: Result<StructMap>)
    ensures AllFound(structs) ==> r == Ok(Unwrap(structs))
    ensures !AllFound(structs) ==> r.Err? && r.error.StructNotFound? && r.error.name in structs && structs[r.error.name].None?
  {
    var unchecked := structs.Keys;
    while unchecked != {}
      invariant unchecked <= structs.Keys
      invariant forall n :: n in structs && n !in unchecked ==> structs[n].Some?
      decreases unchecked
    {
      var name :| name in unchecked;
      if structs[name].None? {
        return Err(StructNotFound(name));
      }
      unchecked := unchecked - {name};
    }
    return Ok(map n | n in structs :: structs[n].value);
  }
}
