/**
 * A worked case: a file declaring `type A struct { X int; y int }`, whose two
 * field types are the bytes `int` of the file.
 */
module Scenarios {
  import opened Basics
  import opened Names
  import opened Source
  import opened GoAst
  import opened Fields
  import opened Structs
  import opened Package

  const IntText: seq<Byte> := [0x69, 0x6E, 0x74]
  const Disk1: Disk := map["a.go" := IntText]
  const IntSpan := Span("a.go", 0, 3)
  const StructA := StructType([FieldGroup(["X"], IntSpan), FieldGroup(["y"], IntSpan)])

  /** `X` is public without a getter, `y` is private with the getter `Y`, nothing is ignored. */
  lemma FieldsOfA()
    ensures StructA.Valid()
    ensures FieldsOf(Disk1, StructA) == Ok(Tables(
      map["y" := ClassifiedField("y", IntText)],
      map["X" := ClassifiedField("X", IntText)],
      map[]))
    ensures ClassifiedField("y", IntText).getterName == "Y"
    ensures ClassifiedField("X", IntText).isPublic && !ClassifiedField("y", IntText).isPublic
  {
    assert IntText[0..3] == IntText;
    assert ReadSpan(Disk1, IntSpan) == Ok(IntText);
    var g0, g1 := StructA.fields[0], StructA.fields[1];
    assert Named(g0.names, g0.typ) == [NamedField("X", IntSpan)];
    assert Named(g1.names, g1.typ) == [NamedField("y", IntSpan)];
    assert StructA.fields[..1] == [g0] && StructA.fields[..1][..0] == [];
    assert Flatten(StructA.fields[..1]) == [NamedField("X", IntSpan)];
    var fs := Flatten(StructA.fields);
    assert fs == Flatten(StructA.fields[..1]) + Named(g1.names, g1.typ);
    assert fs == [NamedField("X", IntSpan), NamedField("y", IntSpan)];
    assert fs[..1] == [NamedField("X", IntSpan)] && fs[..1][..0] == [];
    assert !ShouldIgnore("X") && IsPublic("X") && !ShouldIgnore("y") && !IsPublic("y");
    var t1 := NoTables.(publicFields := map["X" := ClassifiedField("X", IntText)]);
    assert ClassifyAll(Disk1, fs[..1]) == Ok(t1);
    assert ClassifyAll(Disk1, fs) == ClassifyStep(Disk1, t1, fs[1]);
    assert GetterNameOf("y") == "Y";
  }

  const FileA := File([GenDecl(TYPE, Span("a.go", 0, 0), [TypeSpec("A", StructExpr(StructA))])])

  /**
   * Extracting the whole file yields the one struct `A`, abbreviated `a`,
   * with the tables above and no import text.
   */
  lemma FileStructsOfA()
    ensures FileA.Valid()
    ensures FileStructs(Disk1, FileA) == Ok(map["A" := Struct("A", "a", "a", true,
      map["X" := ClassifiedField("X", IntText)],
      map["y" := ClassifiedField("y", IntText)],
      map[], [])])
  {
    DeclsOfA();
    NameOfA();
    TablesOfA();
    var sd := StructDecl("A", StructA);
    assert [sd][..0] == [];
    assert StructsOf(Disk1, [], [sd]) == StructStep(Disk1, [], map[], sd);
  }

  /** The file has no imports and declares the one struct `A`. */
  lemma DeclsOfA()
    ensures FileA.Valid()
    ensures ImportSpans(FileA.decls) == [] && ReadImports(Disk1, []) == Ok([])
    ensures StructDecls(FileA.decls) == [StructDecl("A", StructA)]
  {
    FieldsOfA();
    var decls := FileA.decls;
    assert decls[..0] == [];
    var specs := decls[0].specs;
    assert specs[..0] == [];
    assert SpecStructs(specs) == [StructDecl("A", StructA)];
    assert TypeSpecs(decls) == specs;
  }

  lemma NameOfA()
    ensures ShortNameOf("A") == Ok("a") && LowerString("A") == "a" && !ShouldIgnore("A")
  {
    assert Initials("A") == "a";
  }

  lemma TablesOfA()
    ensures StructA.Valid()
    ensures TablesOf(Disk1, StructA) == Tables(
      map["y" := ClassifiedField("y", IntText)], map["X" := ClassifiedField("X", IntText)], map[])
  {
    FieldsOfA();
  }

  const StructsOfA := map["A" := Struct("A", "a", "a", true,
    map["X" := ClassifiedField("X", IntText)], map["y" := ClassifiedField("y", IntText)], map[], [])]

  /** A package made of the one file `a.go`. */
  const PackageA := Workspace(Some(["a.go"]), map["a.go" := FileA], Disk1)

  /** Without requested names, the target file's structs are the result. */
  lemma WholeFileOfA(r: Result<StructMap>)
    requires PackageA.Valid() && PackageOutcome(PackageA, Config("p", "a.go", []), r)
    ensures r == Ok(StructsOfA)
  {
    FileStructsOfA();
  }

  const RequestAB := Config("p", "a.go", ["A", "B"])

  /** Looking `A` and `B` up in the package finds `A` only. */
  lemma ScanOfAB()
    ensures PackageA.Valid()
    ensures ScanFiles(PackageA, RequestAB, ["a.go"]) == Ok(map["A" := Some(StructsOfA["A"]), "B" := None])
  {
    FileResultOfA();
    ScanAppend(PackageA, RequestAB, [], "a.go");
    assert [] + ["a.go"] == ["a.go"];
    InitialAB();
    assert StructsOfA == map["A" := StructsOfA["A"]];
    MergeA(StructsOfA["A"]);
  }

  lemma InitialAB()
    ensures Initial(["A", "B"]) == map["A" := None, "B" := None]
  {
  }

  lemma MergeA(s: Struct)
    ensures Merge(map["A" := None, "B" := None], map["A" := s]) == map["A" := Some(s), "B" := None]
  {
  }

  /** `a.go` on its own, in the look-up mode. */
  lemma FileResultOfA()
    ensures PackageA.Valid()
    ensures FileResult(PackageA, RequestAB, "a.go") == Ok(StructsOfA)
  {
    FileStructsOfA();
  }

  /** Requesting `A` and `B` reports `B`, the one no file declares. */
  lemma MissingB(r: Result<StructMap>)
    requires PackageA.Valid() && PackageOutcome(PackageA, RequestAB, r)
    ensures r == Err(StructNotFound("B"))
  {
    assert "a.go" in ["a.go"] && RequestAB.structNames != [];
    assert LookupOutcome(PackageA, RequestAB, ["a.go"], r);
    ScanOfAB();
    var found := map["A" := Some(StructsOfA["A"]), "B" := None];
    assert "B" in found && found["B"].None?;
    assert r.error.name in found && found[r.error.name].None?;
  }
}
