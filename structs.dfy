/**
 * Struct extraction from one parsed file: the import declarations are read
 * verbatim once, then every struct type spec of every `type` declaration is
 * named, abbreviated and classified field by field.
 */
module Structs {
  import opened Basics
  import opened Names
  import opened Source
  import opened GoAst
  import opened Fields

  /** Everything the templates need about one struct type. */
  datatype Struct = Struct(
    name: string,
    shortName: string,
    lowerName: string,
    isPresent: bool,
    publicFields: FieldMap,
    privateFields: FieldMap,
    ignoreFields: FieldMap,
    importedStatements: seq<Byte>)

  /** Struct records keyed by struct name. */
  type StructMap = map<string, Struct>

  // ---------------------------------------------------------------------------
  // Import declarations

  /** The spans of the `import` declarations among `decls`, in source order. */
  function ImportSpans(decls: seq<Decl>): seq<Span>
  {
    if decls == [] then []
    else ImportSpans(decls[..|decls| - 1]) + ImportSpan(decls[|decls| - 1])
  }

  function ImportSpan(d: Decl): seq<Span>
  {
    if d.GenDecl? && d.tok == IMPORT then [d.span] else []
  }

  predicate SpansValid(spans: seq<Span>)
  {
    forall i :: 0 <= i < |spans| ==> spans[i].Valid()
  }

  predicate DeclsValid(decls: seq<Decl>)
  {
    forall i :: 0 <= i < |decls| ==> decls[i].Valid()
  }

  /**
   * The import text: the file named by the first import is opened once, and
   * every import's bytes are read from it and followed by a newline. A file
   * without imports opens nothing.
   */
  function ReadImports(disk: Disk, spans: seq<Span>): Result<seq<Byte>>
    requires SpansValid(spans)
  {
    if spans == [] then Ok([])
    else if spans[0].filename !in disk then Err(CannotOpen(spans[0].filename))
    else ReadLines(disk[spans[0].filename], spans)
  }

  /** Every span's bytes of the opened file, each followed by a newline; the first failed read ends it. */
  function ReadLines(content: seq<Byte>, spans: seq<Span>): Result<seq<Byte>>
    requires SpansValid(spans)
  {
    if spans == [] then Ok([])
    else match ReadLines(content, spans[..|spans| - 1])
      case Err(e) => Err(e)
      case Ok(text) =>
        var s := spans[|spans| - 1];
        match ReadAt(content, s.start, s.end)
        case None => Err(CannotReadRange(s.filename, s.start, s.end))
        case Some(line) => Ok(text + line + [Newline])
  }

  // ---------------------------------------------------------------------------
  // Struct type specs

  /** A type spec whose type is a struct type. */
  datatype StructDecl = StructDecl(name: string, st: StructType)

  /** The specs of all `type` declarations among `decls`, in source order. */
  function TypeSpecs(decls: seq<Decl>): seq<Spec>
  {
    if decls == [] then []
    else TypeSpecs(decls[..|decls| - 1]) + DeclSpecs(decls[|decls| - 1])
  }

  function DeclSpecs(d: Decl): seq<Spec>
  {
    if d.GenDecl? && d.tok == TYPE then d.specs else []
  }

  /** The struct type specs of all `type` declarations among `decls`, in source order. */
  function StructDecls(decls: seq<Decl>): seq<StructDecl>
  {
    SpecStructs(TypeSpecs(decls))
  }

  function DeclStructs(d: Decl): seq<StructDecl>
  {
    SpecStructs(DeclSpecs(d))
  }

  /** The specs among `specs` that are type specs of struct types. */
  function SpecStructs(specs: seq<Spec>): seq<StructDecl>
  {
    if specs == [] then []
    else SpecStructs(specs[..|specs| - 1]) + SpecStruct(specs[|specs| - 1])
  }

  function SpecStruct(s: Spec): seq<StructDecl>
  {
    if s.TypeSpec? && s.typ.StructExpr? then [StructDecl(s.name, s.typ.st)] else []
  }

  predicate StructsValid(sds: seq<StructDecl>)
  {
    forall i :: 0 <= i < |sds| ==> sds[i].st.Valid()
  }

  // ---------------------------------------------------------------------------
  // Specification

  /** The field tables a struct records: the classification, or empty tables when it failed. */
  function TablesOf(disk: Disk, st: StructType): Tables
    requires st.Valid()
  {
    match FieldsOf(disk, st)
    case Ok(t) => t
    case Err(_) => NoTables
  }

  /** The record of a struct that passed the name checks. */
  function StructOf(disk: Disk, imports: seq<Byte>, sd: StructDecl, short: string): Struct
    requires sd.st.Valid()
  {
    var t := TablesOf(disk, sd.st);
    Struct(sd.name, short, LowerString(sd.name), true, t.publicFields, t.privateFields, t.ignoreFields, imports)
  }

  /** A struct name the extraction accepts: not ignored and with a short name. */
  predicate NameAccepted(name: string)
  {
    !ShouldIgnore(name) && ShortNameOf(name).Ok?
  }

  predicate AllAccepted(sds: seq<StructDecl>)
  {
    forall i :: 0 <= i < |sds| ==> NameAccepted(sds[i].name)
  }

  /** The error a rejected struct name produces. */
  function NameError(name: string): Error
    requires !NameAccepted(name)
  {
    if ShouldIgnore(name) then InvalidStructName(name)
    else ShortNameFailed(name, ShortNameOf(name).error)
  }

  /** The effect of one struct type spec on the map. */
  function StructStep(disk: Disk, imports: seq<Byte>, m: StructMap, sd: StructDecl): Result<StructMap>
    requires sd.st.Valid()
  {
    if ShouldIgnore(sd.name) then Err(InvalidStructName(sd.name))
    else match ShortNameOf(sd.name)
      case Err(e) => Err(ShortNameFailed(sd.name, e))
      case Ok(short) => Ok(m[sd.name := StructOf(disk, imports, sd, short)])
  }

  /** The map after recording `sds` in order, or the first name error. */
  function StructsOf(disk: Disk, imports: seq<Byte>, sds: seq<StructDecl>): Result<StructMap>
    requires StructsValid(sds)
  {
    if sds == [] then Ok(map[])
    else match StructsOf(disk, imports, sds[..|sds| - 1])
      case Err(e) => Err(e)
      case Ok(m) => StructStep(disk, imports, m, sds[|sds| - 1])
  }

  /** What `GetStructsFromFile` returns for a parsed file. */
  function FileStructs(disk: Disk, file: File): Result<StructMap>
    requires file.Valid()
  {
    ImportSpansValid(file.decls);
    StructDeclsValid(file.decls);
    match ReadImports(disk, ImportSpans(file.decls))
    case Err(e) => Err(e)
    case Ok(imports) => StructsOf(disk, imports, StructDecls(file.decls))
  }

  // ---------------------------------------------------------------------------
  // Structure of the spec functions

  lemma {:induction false} ImportSpansValid(decls: seq<Decl>)
    requires forall d :: d in decls ==> d.Valid()
    ensures SpansValid(ImportSpans(decls))
  {
    if decls != [] {
      var p := decls[..|decls| - 1];
      assert forall d :: d in p ==> d in decls;
      ImportSpansValid(p);
      assert decls[|decls| - 1] in decls;
    }
  }

  lemma {:induction false} SpecStructsValid(specs: seq<Spec>)
    requires forall s :: s in specs ==> s.Valid()
    ensures StructsValid(SpecStructs(specs))
  {
    if specs != [] {
      var p := specs[..|specs| - 1];
      assert forall s :: s in p ==> s in specs;
      SpecStructsValid(p);
      assert specs[|specs| - 1] in specs;
    }
  }

  lemma {:induction false} StructDeclsValid(decls: seq<Decl>)
    requires forall d :: d in decls ==> d.Valid()
    ensures StructsValid(StructDecls(decls))
  {
    TypeSpecsValid(decls);
    SpecStructsValid(TypeSpecs(decls));
  }

  lemma {:induction false} TypeSpecsValid(decls: seq<Decl>)
    requires forall d :: d in decls ==> d.Valid()
    ensures forall s :: s in TypeSpecs(decls) ==> s.Valid()
  {
    if decls != [] {
      var p, d := decls[..|decls| - 1], decls[|decls| - 1];
      assert forall x :: x in p ==> x in decls;
      TypeSpecsValid(p);
      assert d in decls;
    }
  }

  lemma {:induction false} ImportSpansConcat(a: seq<Decl>, b: seq<Decl>)
    ensures ImportSpans(a + b) == ImportSpans(a) + ImportSpans(b)
  {
    if b == [] {
      assert a + b == a;
    } else {
      var b' := b[..|b| - 1];
      assert (a + b)[..|a + b| - 1] == a + b';
      ImportSpansConcat(a, b');
    }
  }

  lemma {:induction false} TypeSpecsConcat(a: seq<Decl>, b: seq<Decl>)
    ensures TypeSpecs(a + b) == TypeSpecs(a) + TypeSpecs(b)
  {
    if b == [] {
      assert a + b == a;
    } else {
      var b', d := b[..|b| - 1], b[|b| - 1];
      assert (a + b)[..|a + b| - 1] == a + b';
      assert (a + b)[|a + b| - 1] == d;
      assert TypeSpecs(a + b) == TypeSpecs(a + b') + DeclSpecs(d);
      TypeSpecsConcat(a, b');
      assert TypeSpecs(b) == TypeSpecs(b') + DeclSpecs(d);
      SpecsAssoc(TypeSpecs(a), TypeSpecs(b'), DeclSpecs(d));
    }
  }

  lemma SpecsAssoc(x: seq<Spec>, y: seq<Spec>, z: seq<Spec>)
    ensures x + y + z == x + (y + z)
  {
  }

  lemma StructDeclsConcat(a: seq<Decl>, b: seq<Decl>)
    ensures StructDecls(a + b) == StructDecls(a) + StructDecls(b)
  {
    TypeSpecsConcat(a, b);
    SpecStructsConcat(TypeSpecs(a), TypeSpecs(b));
  }

  lemma {:induction false} SpecStructsConcat(a: seq<Spec>, b: seq<Spec>)
    ensures SpecStructs(a + b) == SpecStructs(a) + SpecStructs(b)
  {
    if b == [] {
      assert a + b == a;
    } else {
      var b' := b[..|b| - 1];
      assert (a + b)[..|a + b| - 1] == a + b';
      SpecStructsConcat(a, b');
    }
  }

  lemma ImportSpansSingle(d: Decl)
    ensures ImportSpans([d]) == ImportSpan(d)
  {
    assert [d][..0] == [];
  }

  lemma SpecStructsSingle(s: Spec)
    ensures SpecStructs([s]) == SpecStruct(s)
  {
    assert [s][..0] == [];
  }

  lemma ImportSpansStep(decls: seq<Decl>, i: nat)
    requires i < |decls|
    ensures ImportSpans(decls[..i + 1]) == ImportSpans(decls[..i]) + ImportSpan(decls[i])
  {
    assert decls[..i + 1] == decls[..i] + [decls[i]];
    ImportSpansConcat(decls[..i], [decls[i]]);
    ImportSpansSingle(decls[i]);
  }

  /** Reading one more line after `done` has been read. */
  lemma ReadLinesAppend(content: seq<Byte>, done: seq<Span>, span: Span, text: seq<Byte>)
    requires SpansValid(done) && span.Valid()
    requires ReadLines(content, done) == Ok(text)
    ensures SpansValid(done + [span])
    ensures ReadLines(content, done + [span]) ==
      match ReadAt(content, span.start, span.end)
      case None => Err(CannotReadRange(span.filename, span.start, span.end))
      case Some(line) => Ok(text + line + [Newline])
  {
    assert (done + [span])[..|done|] == done;
  }

  /**
   * Once the imports of the first `i + 1` declarations cannot be read, the
   * imports of all declarations fail the same way: the later ones are never read.
   */
  lemma ReadImportsFails(disk: Disk, decls: seq<Decl>, i: nat)
    requires i < |decls|
    requires SpansValid(ImportSpans(decls))
    ensures SpansValid(ImportSpans(decls[..i + 1]))
    ensures ReadImports(disk, ImportSpans(decls[..i + 1])).Err? ==>
      ReadImports(disk, ImportSpans(decls)) == ReadImports(disk, ImportSpans(decls[..i + 1]))
  {
    ImportSpansSplit(decls, i + 1);
    ReadImportsErrSticks(disk, ImportSpans(decls[..i + 1]), ImportSpans(decls[i + 1..]));
  }

  lemma ImportSpansSplit(decls: seq<Decl>, k: nat)
    requires k <= |decls|
    ensures ImportSpans(decls) == ImportSpans(decls[..k]) + ImportSpans(decls[k..])
  {
    assert decls == decls[..k] + decls[k..];
    ImportSpansConcat(decls[..k], decls[k..]);
  }

  /** A failed import read is not affected by the imports after it. */
  lemma ReadImportsErrSticks(disk: Disk, spans: seq<Span>, rest: seq<Span>)
    requires SpansValid(spans + rest)
    ensures SpansValid(spans)
    ensures ReadImports(disk, spans).Err? ==> ReadImports(disk, spans + rest) == ReadImports(disk, spans)
  {
    assert forall i :: 0 <= i < |spans| ==> spans[i] == (spans + rest)[i];
    if spans != [] && spans[0].filename in disk {
      ReadLinesErrSticks(disk[spans[0].filename], spans, rest);
    }
  }

  lemma StructDeclsStep(decls: seq<Decl>, i: nat)
    requires i < |decls|
    ensures StructDecls(decls[..i + 1]) == StructDecls(decls[..i]) + DeclStructs(decls[i])
  {
    assert decls[..i + 1] == decls[..i] + [decls[i]];
    StructDeclsConcat(decls[..i], [decls[i]]);
    StructDeclsSingle(decls[i]);
  }

  lemma SpecStructsStep(specs: seq<Spec>, j: nat)
    requires j < |specs|
    ensures SpecStructs(specs[..j + 1]) == SpecStructs(specs[..j]) + SpecStruct(specs[j])
  {
    assert specs[..j + 1] == specs[..j] + [specs[j]];
    SpecStructsConcat(specs[..j], [specs[j]]);
    SpecStructsSingle(specs[j]);
  }

  /** Once the struct specs up to spec `j` fail, all of `specs` fail the same way. */
  lemma SpecStructsFail(disk: Disk, imports: seq<Byte>, before: seq<StructDecl>, specs: seq<Spec>, j: nat)
    requires j < |specs|
    requires StructsValid(before + SpecStructs(specs))
    ensures StructsValid(before + SpecStructs(specs[..j + 1]))
    ensures StructsOf(disk, imports, before + SpecStructs(specs[..j + 1])).Err? ==>
      StructsOf(disk, imports, before + SpecStructs(specs)) == StructsOf(disk, imports, before + SpecStructs(specs[..j + 1]))
  {
    SpecStructsSplit(specs, j + 1);
    assert before + SpecStructs(specs) == (before + SpecStructs(specs[..j + 1])) + SpecStructs(specs[j + 1..]);
    StructsOfErrSticks(disk, imports, before + SpecStructs(specs[..j + 1]), SpecStructs(specs[j + 1..]));
  }

  /** Once the struct specs of the first `i + 1` declarations fail, all of them fail the same way. */
  lemma StructDeclsFail(disk: Disk, imports: seq<Byte>, decls: seq<Decl>, i: nat)
    requires i < |decls|
    requires StructsValid(StructDecls(decls))
    ensures StructsValid(StructDecls(decls[..i + 1]))
    ensures StructsOf(disk, imports, StructDecls(decls[..i + 1])).Err? ==>
      StructsOf(disk, imports, StructDecls(decls)) == StructsOf(disk, imports, StructDecls(decls[..i + 1]))
  {
    StructDeclsSplit(decls, i + 1);
    StructsOfErrSticks(disk, imports, StructDecls(decls[..i + 1]), StructDecls(decls[i + 1..]));
  }

  lemma SpecStructsSplit(specs: seq<Spec>, k: nat)
    requires k <= |specs|
    ensures SpecStructs(specs) == SpecStructs(specs[..k]) + SpecStructs(specs[k..])
  {
    assert specs == specs[..k] + specs[k..];
    SpecStructsConcat(specs[..k], specs[k..]);
  }

  lemma StructDeclsSplit(decls: seq<Decl>, k: nat)
    requires k <= |decls|
    ensures StructDecls(decls) == StructDecls(decls[..k]) + StructDecls(decls[k..])
  {
    assert decls == decls[..k] + decls[k..];
    StructDeclsConcat(decls[..k], decls[k..]);
  }

  lemma StructDeclsSingle(d: Decl)
    ensures StructDecls([d]) == DeclStructs(d)
  {
    assert [d][..0] == [];
    assert TypeSpecs([d]) == DeclSpecs(d);
  }

  lemma {:induction false} ReadLinesErrSticks(content: seq<Byte>, spans: seq<Span>, rest: seq<Span>)
    requires SpansValid(spans + rest)
    ensures SpansValid(spans) && SpansValid(rest)
    ensures ReadLines(content, spans).Err? ==> ReadLines(content, spans + rest) == ReadLines(content, spans)
  {
    assert forall i :: 0 <= i < |spans| ==> spans[i] == (spans + rest)[i];
    assert forall i :: 0 <= i < |rest| ==> rest[i] == (spans + rest)[|spans| + i];
    if rest == [] {
      assert spans + rest == spans;
    } else {
      var rest' := rest[..|rest| - 1];
      assert (spans + rest)[..|spans + rest| - 1] == spans + rest';
      ReadLinesErrSticks(content, spans, rest');
    }
  }

  lemma {:induction false} StructsOfErrSticks(disk: Disk, imports: seq<Byte>, sds: seq<StructDecl>, rest: seq<StructDecl>)
    requires StructsValid(sds + rest)
    ensures StructsValid(sds) && StructsValid(rest)
    ensures StructsOf(disk, imports, sds).Err? ==> StructsOf(disk, imports, sds + rest) == StructsOf(disk, imports, sds)
  {
    assert forall i :: 0 <= i < |sds| ==> sds[i] == (sds + rest)[i];
    assert forall i :: 0 <= i < |rest| ==> rest[i] == (sds + rest)[|sds| + i];
    if rest == [] {
      assert sds + rest == sds;
    } else {
      var rest' := rest[..|rest| - 1];
      assert (sds + rest)[..|sds + rest| - 1] == sds + rest';
      StructsOfErrSticks(disk, imports, sds, rest');
    }
  }

  lemma StructsOfAppend(disk: Disk, imports: seq<Byte>, sds: seq<StructDecl>, sd: StructDecl, m: StructMap)
    requires StructsValid(sds) && sd.st.Valid()
    requires StructsOf(disk, imports, sds) == Ok(m)
    ensures StructsValid(sds + [sd])
    ensures StructsOf(disk, imports, sds + [sd]) == StructStep(disk, imports, m, sd)
  {
    assert (sds + [sd])[..|sds|] == sds;
  }

  // ---------------------------------------------------------------------------
  // The import text, span by span

  /** The import spans are exactly the spans of the `import` declarations. */
  lemma {:induction false} ImportSpansMembers(decls: seq<Decl>)
    ensures |ImportSpans(decls)| <= |decls|
    ensures forall sp :: sp in ImportSpans(decls) <==>
      exists i :: 0 <= i < |decls| && decls[i].GenDecl? && decls[i].tok == IMPORT && decls[i].span == sp
  {
    if decls != [] {
      var p, d := decls[..|decls| - 1], decls[|decls| - 1];
      ImportSpansMembers(p);
      forall sp ensures sp in ImportSpans(decls) <==>
        exists i :: 0 <= i < |decls| && decls[i].GenDecl? && decls[i].tok == IMPORT && decls[i].span == sp
      {
        if exists i :: 0 <= i < |decls| && decls[i].GenDecl? && decls[i].tok == IMPORT && decls[i].span == sp {
          var i :| 0 <= i < |decls| && decls[i].GenDecl? && decls[i].tok == IMPORT && decls[i].span == sp;
          if i < |p| {
            assert p[i] == decls[i];
          }
        }
        if sp in ImportSpans(p) {
          var i :| 0 <= i < |p| && p[i].GenDecl? && p[i].tok == IMPORT && p[i].span == sp;
          assert decls[i] == p[i];
        }
      }
    }
  }

  /** Every span lies in the file of the first one, as within one parsed file. */
  predicate SameFile(spans: seq<Span>)
  {
    forall i :: 0 <= i < |spans| ==> spans[i].filename == spans[0].filename
  }

  /**
   * The text of the spans read one by one, each followed by a newline, or
   * `None` when some span cannot be read.
   */
  ghost function JoinedSpans(disk: Disk, spans: seq<Span>): Option<seq<Byte>>
    requires SpansValid(spans)
  {
    if spans == [] then Some([])
    else match ReadSpan(disk, spans[0])
      case Err(_) => None
      case Ok(text) =>
        match JoinedSpans(disk, spans[1..])
        case None => None
        case Some(rest) => Some(text + [Newline] + rest)
  }

  lemma {:induction false} JoinedAppend(disk: Disk, spans: seq<Span>, s: Span)
    requires SpansValid(spans) && s.Valid()
    ensures SpansValid(spans + [s])
    ensures JoinedSpans(disk, spans + [s]) ==
      match JoinedSpans(disk, spans)
      case None => None
      case Some(text) =>
        match ReadSpan(disk, s)
        case Err(_) => None
        case Ok(line) => Some(text + line + [Newline])
  {
    if spans == [] {
      assert spans + [s] == [s] && [s][1..] == [];
      if ReadSpan(disk, s).Ok? {
        var line := ReadSpan(disk, s).value;
        assert line + [Newline] + [] == [] + line + [Newline];
      }
    } else {
      assert (spans + [s])[0] == spans[0];
      assert (spans + [s])[1..] == spans[1..] + [s];
      JoinedAppend(disk, spans[1..], s);
      var all := JoinedSpans(disk, spans + [s]);
      if ReadSpan(disk, spans[0]).Ok? && JoinedSpans(disk, spans[1..]).Some? && ReadSpan(disk, s).Ok? {
        var t, rest, line := ReadSpan(disk, spans[0]).value, JoinedSpans(disk, spans[1..]).value, ReadSpan(disk, s).value;
        assert all == Some(t + [Newline] + (rest + line + [Newline]));
        assert t + [Newline] + (rest + line + [Newline]) == (t + [Newline] + rest) + line + [Newline];
      }
    }
  }

  /** Reading the lines of an opened file `content` is reading each span of that file. */
  lemma {:induction false} ReadLinesBySpan(disk: Disk, f: string, spans: seq<Span>)
    requires SpansValid(spans) && f in disk
    requires forall i :: 0 <= i < |spans| ==> spans[i].filename == f
    ensures ReadLines(disk[f], spans).Ok? <==> JoinedSpans(disk, spans).Some?
    ensures ReadLines(disk[f], spans).Ok? ==> ReadLines(disk[f], spans).value == JoinedSpans(disk, spans).value
  {
    if spans != [] {
      var p, s := spans[..|spans| - 1], spans[|spans| - 1];
      assert spans == p + [s];
      ReadLinesBySpan(disk, f, p);
      JoinedAppend(disk, p, s);
    }
  }

  /**
   * Within one file, the import text is each import's own bytes followed by a
   * newline, in order, and it can be built exactly when every import can be
   * read on its own.
   */
  lemma ImportsBySpan(disk: Disk, spans: seq<Span>)
    requires SpansValid(spans) && SameFile(spans)
    ensures ReadImports(disk, spans).Ok? <==> JoinedSpans(disk, spans).Some?
    ensures ReadImports(disk, spans).Ok? ==> ReadImports(disk, spans).value == JoinedSpans(disk, spans).value
  {
    if spans != [] {
      var f := spans[0].filename;
      if f in disk {
        ReadLinesBySpan(disk, f, spans);
      }
    }
  }

  // ---------------------------------------------------------------------------
  // What the spec functions select from the syntax tree

  /** Declaration `i` of `decls` is a `type` declaration whose spec `j` declares `sd`. */
  ghost predicate DeclaresStruct(decls: seq<Decl>, sd: StructDecl)
  {
    exists i, j :: 0 <= i < |decls| && decls[i].GenDecl? && decls[i].tok == TYPE &&
      0 <= j < |decls[i].specs| && decls[i].specs[j] == TypeSpec(sd.name, StructExpr(sd.st))
  }

  lemma {:induction false} SpecStructsMembers(specs: seq<Spec>)
    ensures forall sd :: sd in SpecStructs(specs) <==>
      exists j :: 0 <= j < |specs| && specs[j] == TypeSpec(sd.name, StructExpr(sd.st))
  {
    if specs != [] {
      var p, s := specs[..|specs| - 1], specs[|specs| - 1];
      SpecStructsMembers(p);
      forall sd ensures sd in SpecStructs(specs) <==>
        exists j :: 0 <= j < |specs| && specs[j] == TypeSpec(sd.name, StructExpr(sd.st))
      {
        if exists j :: 0 <= j < |specs| && specs[j] == TypeSpec(sd.name, StructExpr(sd.st)) {
          var j :| 0 <= j < |specs| && specs[j] == TypeSpec(sd.name, StructExpr(sd.st));
          if j < |p| {
            assert p[j] == specs[j];
          }
        }
        if sd in SpecStructs(p) {
          var j :| 0 <= j < |p| && p[j] == TypeSpec(sd.name, StructExpr(sd.st));
          assert specs[j] == p[j];
        }
      }
    }
  }

  /** Declaration `i` of `decls` is a `type` declaration and `s` is its spec `j`. */
  ghost predicate DeclaresSpec(decls: seq<Decl>, s: Spec)
  {
    exists i, j :: 0 <= i < |decls| && decls[i].GenDecl? && decls[i].tok == TYPE &&
      0 <= j < |decls[i].specs| && decls[i].specs[j] == s
  }

  /** The type specs are exactly the specs of the `type` declarations. */
  lemma {:induction false} TypeSpecsMembers(decls: seq<Decl>)
    ensures forall s :: s in TypeSpecs(decls) <==> DeclaresSpec(decls, s)
  {
    if decls != [] {
      var p, d := decls[..|decls| - 1], decls[|decls| - 1];
      TypeSpecsMembers(p);
      forall s ensures s in TypeSpecs(decls) <==> DeclaresSpec(decls, s) {
        if DeclaresSpec(decls, s) {
          var i, j :| 0 <= i < |decls| && decls[i].GenDecl? && decls[i].tok == TYPE &&
            0 <= j < |decls[i].specs| && decls[i].specs[j] == s;
          if i < |p| {
            assert p[i] == decls[i];
            assert DeclaresSpec(p, s);
          } else {
            assert s in DeclSpecs(d);
          }
        }
        if s in TypeSpecs(p) {
          assert DeclaresSpec(p, s);
          var i, j :| 0 <= i < |p| && p[i].GenDecl? && p[i].tok == TYPE &&
            0 <= j < |p[i].specs| && p[i].specs[j] == s;
          assert decls[i] == p[i];
        }
        if s in DeclSpecs(d) {
          var j :| 0 <= j < |d.specs| && d.specs[j] == s;
          assert decls[|decls| - 1] == d;
        }
      }
    }
  }

  /** The struct specs are exactly the struct type specs of the `type` declarations. */
  lemma StructDeclsMembers(decls: seq<Decl>)
    ensures forall sd :: sd in StructDecls(decls) <==> DeclaresStruct(decls, sd)
  {
    TypeSpecsMembers(decls);
    var specs := TypeSpecs(decls);
    SpecStructsMembers(specs);
    forall sd ensures sd in StructDecls(decls) <==> DeclaresStruct(decls, sd) {
      var s := TypeSpec(sd.name, StructExpr(sd.st));
      assert DeclaresStruct(decls, sd) <==> DeclaresSpec(decls, s);
      assert s in specs <==> exists j :: 0 <= j < |specs| && specs[j] == s;
    }
  }

  // ---------------------------------------------------------------------------
  // What the struct map holds

  ghost function DeclNames(sds: seq<StructDecl>): set<string>
  {
    set i | 0 <= i < |sds| :: sds[i].name
  }

  /** `sds[i]` is the last struct spec named `n`. */
  ghost predicate LastDecl(sds: seq<StructDecl>, n: string, i: int)
  {
    0 <= i < |sds| && sds[i].name == n && forall j :: i < j < |sds| ==> sds[j].name != n
  }

  /**
   * `s` is the record of the struct named `n`: present, with its name, its
   * lower-case name, its short name, the file's import text and the field
   * tables of the last struct spec with that name.
   */
  ghost predicate StructRecorded(disk: Disk, imports: seq<Byte>, sds: seq<StructDecl>, n: string, s: Struct)
    requires StructsValid(sds)
  {
    && s.name == n && s.isPresent && s.lowerName == LowerString(n)
    && ShortNameOf(n) == Ok(s.shortName) && s.importedStatements == imports
    && exists i :: LastDecl(sds, n, i) &&
         TablesOf(disk, sds[i].st) == Tables(s.privateFields, s.publicFields, s.ignoreFields)
  }

  lemma DeclNamesAppend(sds: seq<StructDecl>, sd: StructDecl)
    ensures DeclNames(sds + [sd]) == DeclNames(sds) + {sd.name}
  {
    var all := sds + [sd];
    assert all[|sds|].name == sd.name;
    forall n | n in DeclNames(sds) ensures n in DeclNames(all) {
      var i :| 0 <= i < |sds| && sds[i].name == n;
      assert all[i] == sds[i];
    }
  }

  lemma RecordedAppend(disk: Disk, imports: seq<Byte>, sds: seq<StructDecl>, sd: StructDecl, n: string, s: Struct)
    requires StructsValid(sds) && sd.st.Valid() && n != sd.name
    requires StructRecorded(disk, imports, sds, n, s)
    ensures StructsValid(sds + [sd])
    ensures StructRecorded(disk, imports, sds + [sd], n, s)
  {
    var all := sds + [sd];
    var i :| LastDecl(sds, n, i) && TablesOf(disk, sds[i].st) == Tables(s.privateFields, s.publicFields, s.ignoreFields);
    assert all[i] == sds[i];
    assert LastDecl(all, n, i);
  }

  lemma RecordedLast(disk: Disk, imports: seq<Byte>, sds: seq<StructDecl>, sd: StructDecl, short: string)
    requires StructsValid(sds) && sd.st.Valid() && ShortNameOf(sd.name) == Ok(short)
    ensures StructsValid(sds + [sd])
    ensures StructRecorded(disk, imports, sds + [sd], sd.name, StructOf(disk, imports, sd, short))
  {
    assert LastDecl(sds + [sd], sd.name, |sds|);
  }

  /**
   * A successful extraction records one struct per distinct struct name, and
   * the record of a name describes the last struct spec with that name.
   */
  lemma {:induction false} StructsOfSound(disk: Disk, imports: seq<Byte>, sds: seq<StructDecl>)
    requires StructsValid(sds)
    ensures StructsOf(disk, imports, sds).Ok? ==>
      var m := StructsOf(disk, imports, sds).value;
      m.Keys == DeclNames(sds) && forall n :: n in m ==> StructRecorded(disk, imports, sds, n, m[n])
  {
    if sds != [] {
      var p, sd := sds[..|sds| - 1], sds[|sds| - 1];
      assert sds == p + [sd];
      StructsOfSound(disk, imports, p);
      if StructsOf(disk, imports, p).Ok? && StructsOf(disk, imports, sds).Ok? {
        var m := StructsOf(disk, imports, p).value;
        var short := ShortNameOf(sd.name).value;
        assert StructsOf(disk, imports, sds) == Ok(m[sd.name := StructOf(disk, imports, sd, short)]);
        RecordedStep(disk, imports, p, sd, m, short);
      }
    }
  }

  /** Recording one more struct keeps every record faithful to the specs so far. */
  lemma RecordedStep(disk: Disk, imports: seq<Byte>, p: seq<StructDecl>, sd: StructDecl, m: StructMap, short: string)
    requires StructsValid(p) && sd.st.Valid() && ShortNameOf(sd.name) == Ok(short)
    requires m.Keys == DeclNames(p) && forall n :: n in m ==> StructRecorded(disk, imports, p, n, m[n])
    ensures StructsValid(p + [sd])
    ensures var m' := m[sd.name := StructOf(disk, imports, sd, short)];
      m'.Keys == DeclNames(p + [sd]) && forall n :: n in m' ==> StructRecorded(disk, imports, p + [sd], n, m'[n])
  {
    var m' := m[sd.name := StructOf(disk, imports, sd, short)];
    DeclNamesAppend(p, sd);
    forall n | n in m' ensures StructRecorded(disk, imports, p + [sd], n, m'[n]) {
      if n == sd.name {
        RecordedLast(disk, imports, p, sd, short);
      } else {
        RecordedAppend(disk, imports, p, sd, n, m[n]);
      }
    }
  }

  lemma StructStepFails(disk: Disk, imports: seq<Byte>, m: StructMap, sd: StructDecl)
    requires sd.st.Valid()
    ensures StructStep(disk, imports, m, sd).Ok? <==> NameAccepted(sd.name)
    ensures StructStep(disk, imports, m, sd).Err? ==> StructStep(disk, imports, m, sd).error == NameError(sd.name)
  {
  }

  /**
   * The extraction fails exactly when some struct name is rejected, and then
   * with the error of the first rejected name.
   */
  lemma StructsOfFails(disk: Disk, imports: seq<Byte>, sds: seq<StructDecl>)
    requires StructsValid(sds)
    ensures StructsOf(disk, imports, sds).Ok? <==> AllAccepted(sds)
    ensures StructsOf(disk, imports, sds).Err? ==>
      exists i :: 0 <= i < |sds| && !NameAccepted(sds[i].name) &&
        StructsOf(disk, imports, sds).error == NameError(sds[i].name) &&
        forall j :: 0 <= j < i ==> NameAccepted(sds[j].name)
  {
    StructsOfOk(disk, imports, sds);
    if StructsOf(disk, imports, sds).Err? {
      var i := FirstRejected(disk, imports, sds);
    }
  }

  lemma {:induction false} StructsOfOk(disk: Disk, imports: seq<Byte>, sds: seq<StructDecl>)
    requires StructsValid(sds)
    ensures StructsOf(disk, imports, sds).Ok? <==> AllAccepted(sds)
  {
    if sds != [] {
      var p, sd := sds[..|sds| - 1], sds[|sds| - 1];
      AcceptedLast(sds);
      StructsOfOk(disk, imports, p);
      if StructsOf(disk, imports, p).Ok? {
        StructStepFails(disk, imports, StructsOf(disk, imports, p).value, sd);
      }
    }
  }

  lemma AcceptedLast(sds: seq<StructDecl>)
    requires sds != []
    ensures AllAccepted(sds) <==> AllAccepted(sds[..|sds| - 1]) && NameAccepted(sds[|sds| - 1].name)
  {
    var p := sds[..|sds| - 1];
    if AllAccepted(sds) {
      forall i | 0 <= i < |p| ensures NameAccepted(p[i].name) {
        assert p[i] == sds[i];
      }
    }
    if AllAccepted(p) && NameAccepted(sds[|sds| - 1].name) {
      forall i | 0 <= i < |sds| ensures NameAccepted(sds[i].name) {
        if i < |p| {
          assert sds[i] == p[i];
        }
      }
    }
  }

  /** A failed extraction carries the error of the first rejected name. */
  lemma {:induction false} FirstRejected(disk: Disk, imports: seq<Byte>, sds: seq<StructDecl>) returns (i: nat)
    requires StructsValid(sds) && StructsOf(disk, imports, sds).Err?
    ensures i < |sds| && !NameAccepted(sds[i].name)
    ensures StructsOf(disk, imports, sds).error == NameError(sds[i].name)
    ensures forall j :: 0 <= j < i ==> NameAccepted(sds[j].name)
  {
    var p, sd := sds[..|sds| - 1], sds[|sds| - 1];
    assert forall k :: 0 <= k < |p| ==> p[k] == sds[k];
    if StructsOf(disk, imports, p).Err? {
      i := FirstRejected(disk, imports, p);
    } else {
      StructsOfOk(disk, imports, p);
      StructStepFails(disk, imports, StructsOf(disk, imports, p).value, sd);
      i := |p|;
    }
  }

  /**
   * `GetStructsFromFile`'s outcome in terms of the file: the import text must
   * be readable and every struct name accepted; the structs recorded are
   * exactly the struct type specs of the `type` declarations, by name.
   */
  lemma FileStructsSpec(disk: Disk, file: File)
    requires file.Valid()
    ensures SpansValid(ImportSpans(file.decls)) && StructsValid(StructDecls(file.decls))
    ensures ReadImports(disk, ImportSpans(file.decls)).Err? ==>
      FileStructs(disk, file) == Err(ReadImports(disk, ImportSpans(file.decls)).error)
    ensures FileStructs(disk, file).Ok? <==>
      ReadImports(disk, ImportSpans(file.decls)).Ok? &&
      forall sd :: DeclaresStruct(file.decls, sd) ==> NameAccepted(sd.name)
    ensures FileStructs(disk, file).Ok? ==>
      var m := FileStructs(disk, file).value;
      && (forall n :: n in m <==> exists sd :: DeclaresStruct(file.decls, sd) && sd.name == n)
      && (forall n :: n in m ==>
            StructRecorded(disk, ReadImports(disk, ImportSpans(file.decls)).value, StructDecls(file.decls), n, m[n]))
  {
    ImportSpansValid(file.decls);
    StructDeclsValid(file.decls);
    var sds := StructDecls(file.decls);
    if ReadImports(disk, ImportSpans(file.decls)).Ok? {
      var imports := ReadImports(disk, ImportSpans(file.decls)).value;
      assert FileStructs(disk, file) == StructsOf(disk, imports, sds);
      StructsOfFails(disk, imports, sds);
      StructsOfSound(disk, imports, sds);
      AcceptedByDecl(file.decls);
      NamesByDecl(file.decls);
    }
  }

  lemma AcceptedByDecl(decls: seq<Decl>)
    ensures AllAccepted(StructDecls(decls)) <==> forall sd :: DeclaresStruct(decls, sd) ==> NameAccepted(sd.name)
  {
    var sds := StructDecls(decls);
    StructDeclsMembers(decls);
    if AllAccepted(sds) {
      forall sd | DeclaresStruct(decls, sd) ensures NameAccepted(sd.name) {
        var i :| 0 <= i < |sds| && sds[i] == sd;
      }
    }
    if forall sd :: DeclaresStruct(decls, sd) ==> NameAccepted(sd.name) {
      forall i | 0 <= i < |sds| ensures NameAccepted(sds[i].name) {
        assert sds[i] in sds;
      }
    }
  }

  lemma NamesByDecl(decls: seq<Decl>)
    ensures forall n :: n in DeclNames(StructDecls(decls)) <==> exists sd :: DeclaresStruct(decls, sd) && sd.name == n
  {
    var sds := StructDecls(decls);
    StructDeclsMembers(decls);
    forall n ensures n in DeclNames(sds) <==> exists sd :: DeclaresStruct(decls, sd) && sd.name == n {
      if n in DeclNames(sds) {
        var i :| 0 <= i < |sds| && sds[i].name == n;
        assert sds[i] in sds;
      }
      if exists sd :: DeclaresStruct(decls, sd) && sd.name == n {
        var sd :| DeclaresStruct(decls, sd) && sd.name == n;
        var i :| 0 <= i < |sds| && sds[i] == sd;
      }
    }
  }

  // ---------------------------------------------------------------------------
  // The operation

  /**
   * The state of the import loop after the spans `spans`: no file is open
   * before the first import; afterwards the first import's file is open and
   * `text` is what its lines read so far.
   */
  ghost predicate ImportsRead(disk: Disk, spans: seq<Span>, f: Option<seq<Byte>>, text: seq<Byte>)
    requires SpansValid(spans)
  {
    && (f.None? ==> spans == [] && text == [])
    && (f.Some? ==> spans != [] && spans[0].filename in disk && f.value == disk[spans[0].filename] &&
                    ReadLines(f.value, spans) == Ok(text))
  }

  lemma ImportsReadOk(disk: Disk, spans: seq<Span>, f: Option<seq<Byte>>, text: seq<Byte>)
    requires SpansValid(spans) && ImportsRead(disk, spans, f, text)
    ensures ReadImports(disk, spans) == Ok(text)
  {
  }

  /**
   * The body of the import loop for one import declaration: open the file on
   * the first import, then read the declaration's bytes from it.
   */
  method ReadImport(disk: Disk, ghost spans: seq<Span>, f: Option<seq<Byte>>, text: seq<Byte>, span: Span)
    returns (f': Option<seq<Byte>>, r: Result<seq<Byte>>)
    requires SpansValid(spans) && span.Valid() && ImportsRead(disk, spans, f, text)
    ensures SpansValid(spans + [span])
    ensures r.Ok? ==> ImportsRead(disk, spans + [span], f', r.value)
    ensures r.Err? ==> r == ReadImports(disk, spans + [span])
  {
    f' := f;
    if f.None? {
      var handle := Open(disk, span.filename);
      if handle.Err? {
        assert spans + [span] == [span];
        return f', Err(handle.error);
      }
      f' := Some(handle.value);
    }
    assert (spans + [span])[0] == if spans == [] then span else spans[0];
    ReadLinesAppend(f'.value, spans, span, text);
    var line := ReadAt(f'.value, span.start, span.end);
    if line.None? {
      return f', Err(CannotReadRange(span.filename, span.start, span.end));
    }
    r := Ok(text + line.value + [Newline]);
  }

  /**
   * The first loop of `GetStructsFromFile`: the file of the first import is
   * opened once, and every import declaration's bytes are read from it and
   * appended with a newline.
   */
  method ReadImportedStatements(disk: Disk, decls: seq<Decl>) returns (r: Result<seq<Byte>>)
    requires DeclsValid(decls)
    ensures SpansValid(ImportSpans(decls))
    ensures r == ReadImports(disk, ImportSpans(decls))
  {
    assert forall d :: d in decls ==> d.Valid();
    ImportSpansValid(decls);
    var f: Option<seq<Byte>> := None;
    var builder: seq<Byte> := [];
    ghost var spans: seq<Span> := [];
    for i := 0 to |decls|
      invariant spans == ImportSpans(decls[..i]) && SpansValid(spans)
      invariant ImportsRead(disk, spans, f, builder)
    {
      var decl := decls[i];
      assert ImportSpans(decls[..i + 1]) == spans + ImportSpan(decl) by { ImportSpansStep(decls, i); }
      if !decl.GenDecl? || decl.tok != IMPORT {
        assert spans + ImportSpan(decl) == spans;
        continue;
      }
      var span := decl.span;
      assert span.Valid() by { assert decls[i].Valid(); }
      ReadImportsFails(disk, decls, i);
      var next;
      f, next := ReadImport(disk, spans, f, builder, span);
      if next.Err? {
        return next;
      }
      builder := next.value;
      spans := spans + [span];
    }
    assert decls[..|decls|] == decls;
    ImportsReadOk(disk, spans, f, builder);
    return Ok(builder);
  }

  /**
   * The body of the innermost loop of `GetStructsFromFile` for a struct type
   * spec: check the name, compute the short name and the field tables, and
   * record the struct.
   */
  method RecordStruct(disk: Disk, imports: seq<Byte>, m: StructMap, name: string, structType: StructType)
    returns (r: Result<StructMap>)
    requires structType.Valid()
    ensures r == StructStep(disk, imports, m, StructDecl(name, structType))
  {
    if ShouldIgnore(name) {
      return Err(InvalidStructName(name));
    }
    var shortName := GetShortName(name);
    if shortName.Err? {
      return Err(ShortNameFailed(name, shortName.error));
    }

    // a failed classification leaves the struct with empty tables
    var fields := GetFieldsFromStruct(disk, structType);
    var tables := if fields.Ok? then fields.value else NoTables;
    r := Ok(m[name := Struct(name, shortName.value, LowerString(name), true,
                             tables.publicFields, tables.privateFields, tables.ignoreFields, imports)]);
  }

  /**
   * One more spec after the struct specs `sds`: a struct type spec is one
   * `StructStep`, and a failure there is the failure of all of `specs`.
   */
  lemma SpecStep(disk: Disk, imports: seq<Byte>, before: seq<StructDecl>, specs: seq<Spec>, j: nat,
                 sds: seq<StructDecl>, m: StructMap)
    requires j < |specs| && forall s :: s in specs ==> s.Valid()
    requires specs[j].TypeSpec? && specs[j].typ.StructExpr?
    requires sds == before + SpecStructs(specs[..j]) && StructsValid(sds)
    requires StructsValid(before + SpecStructs(specs))
    requires StructsOf(disk, imports, sds) == Ok(m)
    ensures specs[j].typ.st.Valid()
    ensures before + SpecStructs(specs[..j + 1]) == sds + [StructDecl(specs[j].name, specs[j].typ.st)]
    ensures StructsValid(sds + [StructDecl(specs[j].name, specs[j].typ.st)])
    ensures StructsOf(disk, imports, sds + [StructDecl(specs[j].name, specs[j].typ.st)]) ==
      StructStep(disk, imports, m, StructDecl(specs[j].name, specs[j].typ.st))
    ensures StructStep(disk, imports, m, StructDecl(specs[j].name, specs[j].typ.st)).Err? ==>
      StructsOf(disk, imports, before + SpecStructs(specs)) == StructStep(disk, imports, m, StructDecl(specs[j].name, specs[j].typ.st))
  {
    var spec := specs[j];
    var sd := StructDecl(spec.name, spec.typ.st);
    assert spec.typ.st.Valid() by { assert spec in specs; }
    SpecPrefix(before, specs, j);
    assert SpecStruct(spec) == [sd];
    StructsOfAppend(disk, imports, sds, sd, m);
    SpecStructsFail(disk, imports, before, specs, j);
  }

  lemma SpecPrefix(before: seq<StructDecl>, specs: seq<Spec>, j: nat)
    requires j < |specs|
    ensures before + SpecStructs(specs[..j + 1]) == before + SpecStructs(specs[..j]) + SpecStruct(specs[j])
  {
    SpecStructsStep(specs, j);
  }

  /** One spec of a `type` declaration: a struct spec is recorded, any other spec is skipped. */
  method RecordSpec(disk: Disk, imports: seq<Byte>, ghost before: seq<StructDecl>, specs: seq<Spec>, j: nat,
                    ghost sds: seq<StructDecl>, m: StructMap) returns (r: Result<StructMap>)
    requires j < |specs| && forall s :: s in specs ==> s.Valid()
    requires sds == before + SpecStructs(specs[..j]) && StructsValid(sds)
    requires StructsValid(before + SpecStructs(specs))
    requires StructsOf(disk, imports, sds) == Ok(m)
    ensures StructsValid(before + SpecStructs(specs[..j + 1]))
    ensures r == StructsOf(disk, imports, before + SpecStructs(specs[..j + 1]))
    ensures r.Err? ==> r == StructsOf(disk, imports, before + SpecStructs(specs))
  {
    var spec := specs[j];
    if !spec.TypeSpec? || !spec.typ.StructExpr? {
      SpecPrefix(before, specs, j);
      assert SpecStruct(spec) == [];
      assert sds + [] == sds;
      return Ok(m);
    }
    SpecStep(disk, imports, before, specs, j, sds, m);
    r := RecordStruct(disk, imports, m, spec.name, spec.typ.st);
  }

  /**
   * The inner loop of `GetStructsFromFile`: the specs of one `type`
   * declaration, recorded into `structs`, which holds the structs of the
   * earlier struct specs `before`.
   */
  method RecordTypeSpecs(disk: Disk, imports: seq<Byte>, specs: seq<Spec>, structs: StructMap,
                         ghost before: seq<StructDecl>) returns (r: Result<StructMap>)
    requires forall s :: s in specs ==> s.Valid()
    requires StructsValid(before) && StructsOf(disk, imports, before) == Ok(structs)
    ensures StructsValid(before + SpecStructs(specs))
    ensures r == StructsOf(disk, imports, before + SpecStructs(specs))
  {
    SpecStructsValid(specs);
    assert StructsValid(before + SpecStructs(specs));
    var m := structs;
    ghost var sds := before;
    assert specs[..0] == [];
    assert before + SpecStructs(specs[..0]) == before;
    for j := 0 to |specs|
      invariant sds == before + SpecStructs(specs[..j]) && StructsValid(sds)
      invariant StructsOf(disk, imports, sds) == Ok(m)
    {
      var next := RecordSpec(disk, imports, before, specs, j, sds, m);
      if next.Err? {
        return next;
      }
      m := next.value;
      sds := before + SpecStructs(specs[..j + 1]);
    }
    assert specs[..|specs|] == specs;
    return Ok(m);
  }

  /**
   * The body of `GetStructsFromFile`'s struct loop for one declaration: the
   * specs of a `type` declaration are recorded, any other declaration is skipped.
   */
  method RecordDecl(disk: Disk, imports: seq<Byte>, decl: Decl, structs: StructMap,
                    ghost before: seq<StructDecl>) returns (r: Result<StructMap>)
    requires decl.Valid()
    requires StructsValid(before) && StructsOf(disk, imports, before) == Ok(structs)
    ensures StructsValid(before + DeclStructs(decl))
    ensures r == StructsOf(disk, imports, before + DeclStructs(decl))
  {
    if decl.GenDecl? && decl.tok == TYPE {
      r := RecordTypeSpecs(disk, imports, decl.specs, structs, before);
    } else {
      assert before + DeclStructs(decl) == before;
      r := Ok(structs);
    }
  }

  /** The second loop of `GetStructsFromFile`: every struct type spec of `decls` in order. */
  method RecordDecls(disk: Disk, imports: seq<Byte>, decls: seq<Decl>) returns (r: Result<StructMap>)
    requires forall d :: d in decls ==> d.Valid()
    ensures StructsValid(StructDecls(decls))
    ensures r == StructsOf(disk, imports, StructDecls(decls))
  {
    StructDeclsValid(decls);
    var structs: StructMap := map[];
    ghost var sds: seq<StructDecl> := [];
    for i := 0 to |decls|
      invariant sds == StructDecls(decls[..i]) && StructsValid(sds)
      invariant StructsOf(disk, imports, sds) == Ok(structs)
    {
      var decl := decls[i];
      assert StructDecls(decls[..i + 1]) == sds + DeclStructs(decl) by { StructDeclsStep(decls, i); }
      assert decl.Valid() by { assert decl in decls; }
      var recorded := RecordDecl(disk, imports, decl, structs, sds);
      if recorded.Err? {
        StructDeclsFail(disk, imports, decls, i);
        return recorded;
      }
      structs := recorded.value;
      sds := sds + DeclStructs(decl);
    }
    assert decls[..|decls|] == decls;
    return Ok(structs);
  }

  /** `GetStructsFromFile`: the import text, then every struct type spec in order. */
  method GetStructsFromFile(disk: Disk, file: File) returns (r: Result<StructMap>)
    requires file.Valid()
    ensures r == FileStructs(disk, file)
  {
    var imports := ReadImportedStatements(disk, file.decls);
    if imports.Err? {
      return Err(imports.error);
    }
    r := RecordDecls(disk, imports.value, file.decls);
  }
}
