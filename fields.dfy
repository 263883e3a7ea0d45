/**
 * Field classification: every name of every field group of a struct type is
 * put into exactly one of three tables (ignored, public, private), keyed by
 * the name, with its verbatim type text and its getter decision.
 */
module Fields {
  import opened Basics
  import opened Names
  import opened Source
  import opened GoAst

  /** One struct member and the accessor decisions taken for it. */
  datatype Field = Field(
    name: string,
    typ: seq<Byte>,
    getterName: string,
    getterAlreadyExist: bool,
    willGenerateGetter: bool,
    setterName: string,
    setterAlreadyExist: bool,
    willGenerateSetter: bool,
    isPublic: bool,
    hasGetter: bool,
    ignoreReason: string)

  /** Go's zero `Field{}`: every composite literal of the source starts from it. */
  const ZeroField := Field("", [], "", false, false, "", false, false, false, false, "")

  const InvalidNameReason := "name is invalid"

  /** `Fields`: field name to field. */
  type FieldMap = map<string, Field>

  /** The three tables `GetFieldsFromStruct` returns. */
  datatype Tables = Tables(privateFields: FieldMap, publicFields: FieldMap, ignoreFields: FieldMap)

  const NoTables := Tables(map[], map[], map[])

  // ---------------------------------------------------------------------------
  // Specification

  /** One name of a field group together with the group's type span. */
  datatype NamedField = NamedField(name: string, typ: Span)

  /** The names of one group, each paired with the group's type. */
  function Named(names: seq<string>, typ: Span): (r: seq<NamedField>)
    ensures |r| == |names|
    ensures forall i :: 0 <= i < |r| ==> r[i] == NamedField(names[i], typ)
  {
    seq(|names|, i requires 0 <= i < |names| => NamedField(names[i], typ))
  }

  /** The named fields of a field list, group by group, name by name; embedded fields contribute nothing. */
  function Flatten(groups: seq<FieldGroup>): seq<NamedField>
  {
    if groups == [] then []
    else Flatten(groups[..|groups| - 1]) + Named(groups[|groups| - 1].names, groups[|groups| - 1].typ)
  }

  predicate AllValid(fs: seq<NamedField>)
  {
    forall i :: 0 <= i < |fs| ==> fs[i].typ.Valid()
  }

  function IgnoredField(name: string): Field
  {
    ZeroField.(name := name, ignoreReason := InvalidNameReason)
  }

  /** The field recorded for a name that is not ignored, with the type text read for it. */
  function ClassifiedField(name: string, text: seq<Byte>): Field
    requires name != []
  {
    var pub := IsPublic(name);
    ZeroField.(name := name, typ := text, isPublic := pub, willGenerateGetter := !pub,
               getterName := if pub then "" else GetterNameOf(name))
  }

  /** The effect of one named field on the tables. */
  function ClassifyStep(disk: Disk, t: Tables, f: NamedField): Result<Tables>
    requires f.typ.Valid()
  {
    if ShouldIgnore(f.name) then
      Ok(t.(ignoreFields := t.ignoreFields[f.name := IgnoredField(f.name)]))
    else match ReadSpan(disk, f.typ)
      case Err(e) => Err(e)
      case Ok(text) =>
        var field := ClassifiedField(f.name, text);
        if field.isPublic then Ok(t.(publicFields := t.publicFields[f.name := field]))
        else Ok(t.(privateFields := t.privateFields[f.name := field]))
  }

  /** The tables after classifying `fs` in order, or the first read error. */
  function ClassifyAll(disk: Disk, fs: seq<NamedField>): Result<Tables>
    requires AllValid(fs)
  {
    if fs == [] then Ok(NoTables)
    else match ClassifyAll(disk, fs[..|fs| - 1])
      case Err(e) => Err(e)
      case Ok(t) => ClassifyStep(disk, t, fs[|fs| - 1])
  }

  /** What `GetFieldsFromStruct` returns for a struct type. */
  function FieldsOf(disk: Disk, st: StructType): Result<Tables>
    requires st.Valid()
  {
    FlattenValid(st.fields);
    ClassifyAll(disk, Flatten(st.fields))
  }

  // ---------------------------------------------------------------------------
  // What a classified entry looks like

  predicate IgnoredEntry(n: string, f: Field)
  {
    && f.name == n && f.ignoreReason == InvalidNameReason && f.typ == []
    && !f.isPublic && !f.willGenerateGetter && f.getterName == ""
    && !f.willGenerateSetter && f.setterName == ""
  }

  predicate PublicEntry(n: string, f: Field)
  {
    && f.name == n && f.ignoreReason == "" && f.isPublic
    && !f.willGenerateGetter && f.getterName == ""
    && !f.willGenerateSetter && f.setterName == ""
  }

  predicate PrivateEntry(n: string, f: Field)
    requires n != []
  {
    && f.name == n && f.ignoreReason == "" && !f.isPublic
    && f.willGenerateGetter && f.getterName == GetterNameOf(n)
    && !f.willGenerateSetter && f.setterName == ""
  }

  ghost function NameSet(fs: seq<NamedField>): set<string>
  {
    set i | 0 <= i < |fs| :: fs[i].name
  }

  /** `text` is what the last named field called `n` reads as its type. */
  ghost predicate LastTypeOf(disk: Disk, fs: seq<NamedField>, n: string, text: seq<Byte>)
    requires AllValid(fs)
  {
    exists i :: 0 <= i < |fs| && fs[i].name == n && ReadSpan(disk, fs[i].typ) == Ok(text) &&
      forall j :: i < j < |fs| ==> fs[j].name != n
  }

  /** The tables classify exactly the names of `fs`, each by the name rules, with the type text read for it. */
  ghost predicate Classified(disk: Disk, fs: seq<NamedField>, t: Tables)
    requires AllValid(fs)
  {
    KeysCover(fs, t) && Bucketed(t) && TypesFromSource(disk, fs, t)
  }

  /** The keys of the three tables together are exactly the names of `fs`. */
  ghost predicate KeysCover(fs: seq<NamedField>, t: Tables)
  {
    t.ignoreFields.Keys + t.publicFields.Keys + t.privateFields.Keys == NameSet(fs)
  }

  /** Every entry is in the table its name selects and has that table's shape. */
  ghost predicate Bucketed(t: Tables)
  {
    && (forall n :: n in t.ignoreFields ==> ShouldIgnore(n) && IgnoredEntry(n, t.ignoreFields[n]))
    && (forall n :: n in t.publicFields ==> !ShouldIgnore(n) && IsPublic(n) && PublicEntry(n, t.publicFields[n]))
    && (forall n :: n in t.privateFields ==> !ShouldIgnore(n) && !IsPublic(n) && PrivateEntry(n, t.privateFields[n]))
  }

  /** The type text of every public and private entry is what its last occurrence reads. */
  ghost predicate TypesFromSource(disk: Disk, fs: seq<NamedField>, t: Tables)
    requires AllValid(fs)
  {
    && (forall n :: n in t.publicFields ==> LastTypeOf(disk, fs, n, t.publicFields[n].typ))
    && (forall n :: n in t.privateFields ==> LastTypeOf(disk, fs, n, t.privateFields[n].typ))
  }

  // ---------------------------------------------------------------------------
  // Lemmas about the flattening

  lemma {:induction false} FlattenValid(groups: seq<FieldGroup>)
    requires forall g :: g in groups ==> g.typ.Valid()
    ensures AllValid(Flatten(groups))
  {
    if groups != [] {
      var p := groups[..|groups| - 1];
      assert forall g :: g in p ==> g in groups;
      FlattenValid(p);
    }
  }

  lemma {:induction false} FlattenConcat(a: seq<FieldGroup>, b: seq<FieldGroup>)
    ensures Flatten(a + b) == Flatten(a) + Flatten(b)
  {
    if b == [] {
      assert a + b == a;
    } else {
      var b', g := b[..|b| - 1], b[|b| - 1];
      assert (a + b)[..|a + b| - 1] == a + b';
      assert (a + b)[|a + b| - 1] == g;
      FlattenConcat(a, b');
      calc {
        Flatten(a + b);
        Flatten(a + b') + Named(g.names, g.typ);
        Flatten(a) + Flatten(b') + Named(g.names, g.typ);
        Flatten(a) + (Flatten(b') + Named(g.names, g.typ));
      }
    }
  }

  lemma NamedConcat(a: seq<string>, b: seq<string>, typ: Span)
    ensures Named(a + b, typ) == Named(a, typ) + Named(b, typ)
  {
  }

  /**
   * Every named field comes from a group, with that group's type, and every
   * name of every group occurs as a named field with its group's type.
   */
  lemma {:induction false} FlattenMembers(groups: seq<FieldGroup>)
    ensures forall f :: f in Flatten(groups) ==>
      exists k :: 0 <= k < |groups| && f.name in groups[k].names && f.typ == groups[k].typ
    ensures forall k, n :: 0 <= k < |groups| && n in groups[k].names ==> NamedField(n, groups[k].typ) in Flatten(groups)
  {
    if groups != [] {
      var p, g := groups[..|groups| - 1], groups[|groups| - 1];
      FlattenMembers(p);
      var fp, fg := Flatten(p), Named(g.names, g.typ);
      assert Flatten(groups) == fp + fg;
      forall f: NamedField | f in fp + fg
        ensures exists k :: 0 <= k < |groups| && f.name in groups[k].names && f.typ == groups[k].typ
      {
        if f in fp {
          var k :| 0 <= k < |p| && f.name in p[k].names && f.typ == p[k].typ;
          assert groups[k] == p[k];
        } else {
          var i :| 0 <= i < |fg| && fg[i] == f;
          assert f.name in groups[|groups| - 1].names;
        }
      }
      forall k, n | 0 <= k < |groups| && n in groups[k].names
        ensures NamedField(n, groups[k].typ) in fp + fg
      {
        if k < |p| {
          assert p[k] == groups[k];
        } else {
          var i :| 0 <= i < |g.names| && g.names[i] == n;
          assert fg[i] == NamedField(n, g.typ);
        }
      }
    }
  }

  lemma NameSetMembers(fs: seq<NamedField>)
    ensures forall n :: n in NameSet(fs) <==> exists f :: f in fs && f.name == n
  {
    forall n | exists f :: f in fs && f.name == n ensures n in NameSet(fs) {
      var f :| f in fs && f.name == n;
      var i :| 0 <= i < |fs| && fs[i] == f;
    }
  }

  // ---------------------------------------------------------------------------
  // Lemmas about the classification

  /** After a read error, classifying further fields changes nothing. */
  lemma {:induction false} ClassifyAllErrSticks(disk: Disk, fs: seq<NamedField>, rest: seq<NamedField>)
    requires AllValid(fs + rest)
    ensures AllValid(fs) && AllValid(rest)
    ensures ClassifyAll(disk, fs).Err? ==> ClassifyAll(disk, fs + rest) == ClassifyAll(disk, fs)
  {
    assert forall i :: 0 <= i < |fs| ==> fs[i] == (fs + rest)[i];
    assert forall i :: 0 <= i < |rest| ==> rest[i] == (fs + rest)[|fs| + i];
    if rest == [] {
      assert fs + rest == fs;
    } else {
      var rest' := rest[..|rest| - 1];
      assert (fs + rest)[..|fs + rest| - 1] == fs + rest';
      assert AllValid(fs + rest');
      ClassifyAllErrSticks(disk, fs, rest');
    }
  }

  /** Classifying one more field is one more step. */
  lemma ClassifyAppend(disk: Disk, fs: seq<NamedField>, f: NamedField, t: Tables)
    requires AllValid(fs) && f.typ.Valid()
    requires ClassifyAll(disk, fs) == Ok(t)
    ensures AllValid(fs + [f])
    ensures ClassifyAll(disk, fs + [f]) == ClassifyStep(disk, t, f)
  {
    assert (fs + [f])[..|fs|] == fs;
  }

  lemma NameSetAppend(fs: seq<NamedField>, f: NamedField)
    ensures NameSet(fs + [f]) == NameSet(fs) + {f.name}
  {
    var fs' := fs + [f];
    assert fs'[|fs|].name == f.name;
    forall n | n in NameSet(fs) ensures n in NameSet(fs') {
      var i :| 0 <= i < |fs| && fs[i].name == n;
      assert fs'[i].name == n;
    }
  }

  /** The last occurrence of a name other than the appended one stays the last. */
  lemma LastTypeOfAppend(disk: Disk, fs: seq<NamedField>, f: NamedField, n: string, text: seq<Byte>)
    requires AllValid(fs) && AllValid(fs + [f])
    requires n != f.name && LastTypeOf(disk, fs, n, text)
    ensures LastTypeOf(disk, fs + [f], n, text)
  {
    var fs' := fs + [f];
    var i :| 0 <= i < |fs| && fs[i].name == n && ReadSpan(disk, fs[i].typ) == Ok(text) &&
      forall j :: i < j < |fs| ==> fs[j].name != n;
    assert fs'[i] == fs[i];
    assert forall j :: i < j < |fs'| ==> fs'[j].name != n;
  }

  /** Entries that one step leaves in place keep their last type text. */
  lemma KeptEntries(disk: Disk, fs: seq<NamedField>, f: NamedField, m: FieldMap, m': FieldMap)
    requires AllValid(fs) && AllValid(fs + [f])
    requires forall n :: n in m ==> LastTypeOf(disk, fs, n, m[n].typ)
    requires forall n :: n in m' && n != f.name ==> n in m && m'[n] == m[n]
    ensures forall n :: n in m' && n != f.name ==> LastTypeOf(disk, fs + [f], n, m'[n].typ)
  {
    forall n | n in m' && n != f.name ensures LastTypeOf(disk, fs + [f], n, m'[n].typ) {
      LastTypeOfAppend(disk, fs, f, n, m[n].typ);
    }
  }

  lemma StepKeys(disk: Disk, fs: seq<NamedField>, f: NamedField, t: Tables)
    requires f.typ.Valid() && KeysCover(fs, t)
    requires ClassifyStep(disk, t, f).Ok?
    ensures KeysCover(fs + [f], ClassifyStep(disk, t, f).value)
  {
    NameSetAppend(fs, f);
  }

  lemma StepBuckets(disk: Disk, f: NamedField, t: Tables)
    requires f.typ.Valid() && Bucketed(t)
    requires ClassifyStep(disk, t, f).Ok?
    ensures Bucketed(ClassifyStep(disk, t, f).value)
  {
    var t' := ClassifyStep(disk, t, f).value;
    if !ShouldIgnore(f.name) {
      var field := ClassifiedField(f.name, ReadSpan(disk, f.typ).value);
      if IsPublic(f.name) {
        assert t' == t.(publicFields := t.publicFields[f.name := field]);
        assert PublicEntry(f.name, field);
      } else {
        assert t' == t.(privateFields := t.privateFields[f.name := field]);
        assert PrivateEntry(f.name, field);
      }
    }
  }

  lemma StepTypes(disk: Disk, fs: seq<NamedField>, f: NamedField, t: Tables)
    requires AllValid(fs) && f.typ.Valid() && AllValid(fs + [f])
    requires Bucketed(t) && TypesFromSource(disk, fs, t)
    requires ClassifyStep(disk, t, f).Ok?
    ensures TypesFromSource(disk, fs + [f], ClassifyStep(disk, t, f).value)
  {
    var t' := ClassifyStep(disk, t, f).value;
    assert (fs + [f])[|fs|] == f;
    KeptEntries(disk, fs, f, t.publicFields, t'.publicFields);
    KeptEntries(disk, fs, f, t.privateFields, t'.privateFields);
    if ShouldIgnore(f.name) {
      assert f.name !in t'.publicFields && f.name !in t'.privateFields;
    } else {
      var text := ReadSpan(disk, f.typ).value;
      assert LastTypeOf(disk, fs + [f], f.name, text);
      if IsPublic(f.name) {
        assert f.name !in t'.privateFields && t'.publicFields[f.name].typ == text;
      } else {
        assert f.name !in t'.publicFields && t'.privateFields[f.name].typ == text;
      }
    }
  }

  /** A successful classification classifies exactly the given names by the name rules. */
  lemma {:induction false} ClassifyAllSound(disk: Disk, fs: seq<NamedField>)
    requires AllValid(fs)
    ensures ClassifyAll(disk, fs).Ok? ==> Classified(disk, fs, ClassifyAll(disk, fs).value)
  {
    if fs != [] {
      var p, f := fs[..|fs| - 1], fs[|fs| - 1];
      assert fs == p + [f];
      ClassifyAllSound(disk, p);
      if ClassifyAll(disk, p).Ok? && ClassifyAll(disk, fs).Ok? {
        var t := ClassifyAll(disk, p).value;
        StepKeys(disk, p, f, t);
        StepBuckets(disk, f, t);
        StepTypes(disk, p, f, t);
      }
    }
  }

  /**
   * The classification fails exactly when the type of some name that is not
   * ignored cannot be read, and then with the error of the first such read.
   */
  lemma ClassifyAllFails(disk: Disk, fs: seq<NamedField>)
    requires AllValid(fs)
    ensures ClassifyAll(disk, fs).Ok? <==>
      forall i :: 0 <= i < |fs| && !ShouldIgnore(fs[i].name) ==> ReadSpan(disk, fs[i].typ).Ok?
    ensures ClassifyAll(disk, fs).Err? ==>
      exists i :: 0 <= i < |fs| && !ShouldIgnore(fs[i].name) &&
        ReadSpan(disk, fs[i].typ) == Err(ClassifyAll(disk, fs).error) &&
        forall j :: 0 <= j < i && !ShouldIgnore(fs[j].name) ==> ReadSpan(disk, fs[j].typ).Ok?
  {
    ClassifyAllOk(disk, fs);
    if ClassifyAll(disk, fs).Err? {
      var i := FirstUnreadable(disk, fs);
    }
  }

  /** Every name that is not ignored has a readable type. */
  predicate AllReadable(disk: Disk, fs: seq<NamedField>)
    requires AllValid(fs)
  {
    forall i :: 0 <= i < |fs| && !ShouldIgnore(fs[i].name) ==> ReadSpan(disk, fs[i].typ).Ok?
  }

  lemma ReadableLast(disk: Disk, fs: seq<NamedField>)
    requires fs != [] && AllValid(fs)
    ensures AllValid(fs[..|fs| - 1])
    ensures AllReadable(disk, fs) <==>
      AllReadable(disk, fs[..|fs| - 1]) && (!ShouldIgnore(fs[|fs| - 1].name) ==> ReadSpan(disk, fs[|fs| - 1].typ).Ok?)
  {
    var p := fs[..|fs| - 1];
    assert forall i :: 0 <= i < |p| ==> p[i] == fs[i];
  }

  lemma {:induction false} ClassifyAllOk(disk: Disk, fs: seq<NamedField>)
    requires AllValid(fs)
    ensures ClassifyAll(disk, fs).Ok? <==> AllReadable(disk, fs)
  {
    if fs != [] {
      ReadableLast(disk, fs);
      ClassifyAllOk(disk, fs[..|fs| - 1]);
    }
  }

  lemma {:induction false} FirstUnreadable(disk: Disk, fs: seq<NamedField>) returns (i: nat)
    requires AllValid(fs) && ClassifyAll(disk, fs).Err?
    ensures i < |fs| && !ShouldIgnore(fs[i].name)
    ensures ReadSpan(disk, fs[i].typ) == Err(ClassifyAll(disk, fs).error)
    ensures forall j :: 0 <= j < i && !ShouldIgnore(fs[j].name) ==> ReadSpan(disk, fs[j].typ).Ok?
  {
    var p := fs[..|fs| - 1];
    ReadableLast(disk, fs);
    if ClassifyAll(disk, p).Err? {
      i := FirstUnreadable(disk, p);
      assert fs[i] == p[i];
      assert forall j :: 0 <= j < i ==> fs[j] == p[j];
    } else {
      ClassifyAllOk(disk, p);
      i := |p|;
      assert forall j :: 0 <= j < i ==> fs[j] == p[j];
    }
  }

  /**
   * For a struct type: every name of every group lands in exactly one table,
   * the one its name rules select, and no other key appears. Groups without
   * names (embedded fields) therefore contribute nothing.
   */
  lemma FieldsPartition(disk: Disk, st: StructType)
    requires st.Valid()
    ensures FieldsOf(disk, st).Ok? ==>
      var t := FieldsOf(disk, st).value;
      && t.ignoreFields.Keys !! t.publicFields.Keys
      && t.ignoreFields.Keys !! t.privateFields.Keys
      && t.publicFields.Keys !! t.privateFields.Keys
      && (forall k, n :: 0 <= k < |st.fields| && n in st.fields[k].names ==>
            (n in t.ignoreFields <==> ShouldIgnore(n)) &&
            (n in t.publicFields <==> !ShouldIgnore(n) && IsPublic(n)) &&
            (n in t.privateFields <==> !ShouldIgnore(n) && !IsPublic(n)))
      && (forall n :: n in t.ignoreFields || n in t.publicFields || n in t.privateFields ==>
            exists k :: 0 <= k < |st.fields| && n in st.fields[k].names)
  {
    FlattenValid(st.fields);
    var fs := Flatten(st.fields);
    FlattenMembers(st.fields);
    NameSetMembers(fs);
    ClassifyAllSound(disk, fs);
    if FieldsOf(disk, st).Ok? {
      var t := FieldsOf(disk, st).value;
      forall k, n | 0 <= k < |st.fields| && n in st.fields[k].names ensures n in NameSet(fs) {
        assert NamedField(n, st.fields[k].typ) in fs;
      }
      forall n | n in t.ignoreFields || n in t.publicFields || n in t.privateFields
        ensures exists k :: 0 <= k < |st.fields| && n in st.fields[k].names
      {
        assert n in NameSet(fs);
        var f :| f in fs && f.name == n;
      }
    }
  }

  /**
   * The entries of a struct's tables: an ignored name carries only its name and
   * the reason; a public one no getter; a private one the getter named by
   * `GetterNameOf`; no entry gets a setter; and the type text of a public or
   * private entry is exactly what its group's type span reads.
   */
  lemma FieldEntries(disk: Disk, st: StructType)
    requires st.Valid()
    ensures FieldsOf(disk, st).Ok? ==>
      var t := FieldsOf(disk, st).value;
      && (forall n :: n in t.ignoreFields ==> IgnoredEntry(n, t.ignoreFields[n]))
      && (forall n :: n in t.publicFields ==> (PublicEntry(n, t.publicFields[n]) && TypeFromSomeGroup(disk, st, n, t.publicFields[n].typ)))
      && (forall n :: n in t.privateFields ==> (n != [] && PrivateEntry(n, t.privateFields[n]) && TypeFromSomeGroup(disk, st, n, t.privateFields[n].typ)))
  {
    FlattenValid(st.fields);
    var fs := Flatten(st.fields);
    ClassifyAllSound(disk, fs);
    if FieldsOf(disk, st).Ok? {
      var t := FieldsOf(disk, st).value;
      assert Bucketed(t) && TypesFromSource(disk, fs, t);
      forall n | n in t.publicFields ensures TypeFromSomeGroup(disk, st, n, t.publicFields[n].typ) {
        TypeFromGroup(disk, st, n, t.publicFields[n].typ);
      }
      forall n | n in t.privateFields ensures TypeFromSomeGroup(disk, st, n, t.privateFields[n].typ) {
        TypeFromGroup(disk, st, n, t.privateFields[n].typ);
      }
    }
  }

  /** Some group of the struct declares `n` and its type span reads as `text`. */
  ghost predicate TypeFromSomeGroup(disk: Disk, st: StructType, n: string, text: seq<Byte>)
    requires st.Valid()
  {
    exists k :: 0 <= k < |st.fields| && n in st.fields[k].names && ReadSpan(disk, st.fields[k].typ) == Ok(text)
  }

  /** The last occurrence of a name among the named fields lies in some group that declares it. */
  lemma TypeFromGroup(disk: Disk, st: StructType, n: string, text: seq<Byte>)
    requires st.Valid()
    requires AllValid(Flatten(st.fields)) && LastTypeOf(disk, Flatten(st.fields), n, text)
    ensures TypeFromSomeGroup(disk, st, n, text)
  {
    var fs := Flatten(st.fields);
    FlattenMembers(st.fields);
    var i :| 0 <= i < |fs| && fs[i].name == n && ReadSpan(disk, fs[i].typ) == Ok(text) &&
      forall j :: i < j < |fs| ==> fs[j].name != n;
    assert fs[i] in fs;
    var k :| 0 <= k < |st.fields| && fs[i].name in st.fields[k].names && fs[i].typ == st.fields[k].typ;
  }

  /**
   * A struct's classification fails exactly when some group has a name that is
   * not ignored and its type span cannot be read; ignored names never read.
   */
  lemma FieldsFail(disk: Disk, st: StructType)
    requires st.Valid()
    ensures FieldsOf(disk, st).Err? <==>
      exists k, n :: 0 <= k < |st.fields| && n in st.fields[k].names && !ShouldIgnore(n) &&
        st.fields[k].typ.Valid() && ReadSpan(disk, st.fields[k].typ).Err?
  {
    if FieldsOf(disk, st).Err? {
      var k, n := FailingGroup(disk, st);
    }
    if exists k, n :: 0 <= k < |st.fields| && n in st.fields[k].names && !ShouldIgnore(n) &&
        st.fields[k].typ.Valid() && ReadSpan(disk, st.fields[k].typ).Err? {
      var k, n :| 0 <= k < |st.fields| && n in st.fields[k].names && !ShouldIgnore(n) &&
        st.fields[k].typ.Valid() && ReadSpan(disk, st.fields[k].typ).Err?;
      UnreadableFails(disk, st, k, n);
    }
  }

  /** A failed classification names a group and a non-ignored name whose type cannot be read. */
  lemma FailingGroup(disk: Disk, st: StructType) returns (k: nat, n: string)
    requires st.Valid() && FieldsOf(disk, st).Err?
    ensures k < |st.fields| && n in st.fields[k].names && !ShouldIgnore(n)
    ensures ReadSpan(disk, st.fields[k].typ).Err?
  {
    FlattenValid(st.fields);
    var fs := Flatten(st.fields);
    FlattenMembers(st.fields);
    ClassifyAllFails(disk, fs);
    var i :| 0 <= i < |fs| && !ShouldIgnore(fs[i].name) && ReadSpan(disk, fs[i].typ).Err?;
    assert fs[i] in fs;
    k :| 0 <= k < |st.fields| && fs[i].name in st.fields[k].names && fs[i].typ == st.fields[k].typ;
    n := fs[i].name;
  }

  /** A non-ignored name whose group's type cannot be read makes the classification fail. */
  lemma UnreadableFails(disk: Disk, st: StructType, k: nat, n: string)
    requires st.Valid() && k < |st.fields| && n in st.fields[k].names && !ShouldIgnore(n)
    requires ReadSpan(disk, st.fields[k].typ).Err?
    ensures FieldsOf(disk, st).Err?
  {
    FlattenValid(st.fields);
    var fs := Flatten(st.fields);
    FlattenMembers(st.fields);
    assert NamedField(n, st.fields[k].typ) in fs;
    var i :| 0 <= i < |fs| && fs[i] == NamedField(n, st.fields[k].typ);
    ClassifyAllFails(disk, fs);
  }

  // ---------------------------------------------------------------------------
  // The operation

  /**
   * The body of `GetFieldsFromStruct`'s inner loop: one name of a group with
   * the group's type span, recorded into the tables or failing on the read.
   */
  method RecordField(disk: Disk, t: Tables, name: string, typ: Span) returns (r: Result<Tables>)
    requires typ.Valid()
    ensures r == ClassifyStep(disk, t, NamedField(name, typ))
  {
    if ShouldIgnore(name) {
      return Ok(t.(ignoreFields := t.ignoreFields[name := ZeroField.(name := name, ignoreReason := InvalidNameReason)]));
    }

    // the text of the type expression
    var file := Open(disk, typ.filename);
    if file.Err? {
      return Err(file.error);
    }
    var b := ReadAt(file.value, typ.start, typ.end);
    if b.None? {
      return Err(CannotReadPosition(typ.filename, typ.start, typ.end));
    }

    var theField := ZeroField.(name := name, typ := b.value, isPublic := IsPublic(name));
    theField := theField.(willGenerateGetter := true, setterName := "");
    if theField.isPublic {
      theField := theField.(willGenerateGetter := false);
      r := Ok(t.(publicFields := t.publicFields[name := theField]));
    } else {
      var getterName := RawGetterName(name);
      theField := theField.(willGenerateGetter := true, getterName := getterName);
      r := Ok(t.(privateFields := t.privateFields[name := theField]));
    }
  }

  /**
   * One more name of a group after the named fields `before`: classifying up
   * to it is one `ClassifyStep`, and when that step fails, so does the whole group.
   */
  lemma GroupStep(disk: Disk, before: seq<NamedField>, names: seq<string>, typ: Span, j: nat, t: Tables)
    requires typ.Valid() && j < |names|
    requires AllValid(before + Named(names[..j], typ))
    requires ClassifyAll(disk, before + Named(names[..j], typ)) == Ok(t)
    ensures AllValid(before + Named(names[..j + 1], typ)) && AllValid(before + Named(names, typ))
    ensures ClassifyAll(disk, before + Named(names[..j + 1], typ)) == ClassifyStep(disk, t, NamedField(names[j], typ))
    ensures ClassifyStep(disk, t, NamedField(names[j], typ)).Err? ==>
      ClassifyAll(disk, before + Named(names, typ)) == ClassifyStep(disk, t, NamedField(names[j], typ))
  {
    var done := before + Named(names[..j], typ);
    var nf := NamedField(names[j], typ);
    NamedPrefixStep(before, names, typ, j);
    ClassifyAppend(disk, done, nf, t);
    NamedPrefixSplit(before, names, typ, j + 1);
    ClassifyAllErrSticks(disk, done + [nf], Named(names[j + 1..], typ));
  }

  lemma NamedPrefixStep(before: seq<NamedField>, names: seq<string>, typ: Span, j: nat)
    requires j < |names|
    ensures before + Named(names[..j + 1], typ) == before + Named(names[..j], typ) + [NamedField(names[j], typ)]
  {
    assert names[..j + 1] == names[..j] + [names[j]];
    NamedConcat(names[..j], [names[j]], typ);
  }

  lemma NamedPrefixSplit(before: seq<NamedField>, names: seq<string>, typ: Span, k: nat)
    requires k <= |names|
    ensures before + Named(names, typ) == before + Named(names[..k], typ) + Named(names[k..], typ)
  {
    assert names == names[..k] + names[k..];
    NamedConcat(names[..k], names[k..], typ);
  }

  /**
   * `GetFieldsFromStruct`'s inner loop: the names of one group, recorded in
   * order after the named fields `before`, stopping at the first failed read.
   */
  method RecordGroup(disk: Disk, ghost before: seq<NamedField>, t: Tables, group: FieldGroup) returns (r: Result<Tables>)
    requires group.typ.Valid() && AllValid(before) && ClassifyAll(disk, before) == Ok(t)
    ensures AllValid(before + Named(group.names, group.typ))
    ensures r == ClassifyAll(disk, before + Named(group.names, group.typ))
  {
    var names, typ := group.names, group.typ;
    var tables := t;
    assert before + Named(names[..0], typ) == before;
    for j := 0 to |names|
      invariant AllValid(before + Named(names[..j], typ))
      invariant ClassifyAll(disk, before + Named(names[..j], typ)) == Ok(tables)
    {
      GroupStep(disk, before, names, typ, j, tables);
      var next := RecordField(disk, tables, names[j], typ);
      if next.Err? {
        return next;
      }
      tables := next.value;
    }
    assert names[..|names|] == names;
    return Ok(tables);
  }

  /** `GetFieldsFromStruct`. */
  method GetFieldsFromStruct(disk: Disk, st: StructType) returns (r: Result<Tables>)
    requires st.Valid()
    ensures r == FieldsOf(disk, st)
  {
    var groups := st.fields;
    FlattenValid(groups);
    var tables := NoTables;
    assert groups[..0] == [];
    for i := 0 to |groups|
      invariant AllValid(Flatten(groups[..i]))
      invariant ClassifyAll(disk, Flatten(groups[..i])) == Ok(tables)
    {
      var group := groups[i];
      FlattenStep(groups, i);
      assert group.typ.Valid() by { assert group in groups; }
      var next := RecordGroup(disk, Flatten(groups[..i]), tables, group);
      if next.Err? {
        FlattenRest(groups, i + 1);
        ClassifyAllErrSticks(disk, Flatten(groups[..i + 1]), Flatten(groups[i + 1..]));
        return next;
      }
      tables := next.value;
    }
    assert groups[..|groups|] == groups;
    return Ok(tables);
  }

  lemma FlattenStep(groups: seq<FieldGroup>, i: nat)
    requires i < |groups|
    ensures Flatten(groups[..i + 1]) == Flatten(groups[..i]) + Named(groups[i].names, groups[i].typ)
  {
    assert groups[..i + 1][..i] == groups[..i];
  }

  lemma FlattenRest(groups: seq<FieldGroup>, k: nat)
    requires k <= |groups|
    ensures Flatten(groups) == Flatten(groups[..k]) + Flatten(groups[k..])
  {
    assert groups == groups[..k] + groups[k..];
    FlattenConcat(groups[..k], groups[k..]);
  }
}
