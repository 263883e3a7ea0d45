# generator: the struct-extraction engine, in Dafny

`generator` is a `go:generate` tool that writes getters and setters for the
struct types of a Go package. This project models its engine, the `utils`
package:

- the name rules (`utils/name.go`): which names are public, private or
  ignored, the getter name of a private field, and the short receiver name
  of a struct;
- the field classifier (`GetFieldsFromStruct`): every named field of a struct
  type goes into exactly one of three tables, ignored, public or private. A
  public or private entry carries the type text read back from the source
  file;
- the file extractor (`GetStructsFromFile`): the text of the file's import
  declarations, then one record per struct type declared with `type`;
- the package driver (`GetStructsFromPackage`): it checks the configuration.
  Then it either takes every struct of the target file, or looks each
  requested struct name up across all files of the package.

The Go syntax tree becomes a small datatype (`GoAst`). Its nodes carry spans
already resolved to (file name, byte offset), standing in for the
`token.FileSet`. The file system becomes a map from file names to bytes
(`Source.Disk`). The configuration store and `build.ImportDir` become the
values `Package.Config` and `Package.Workspace`. In the workspace, a file
the parser rejects is a file with no syntax tree.

Each loop of the engine is a method proved to compute a specification
function (`GetFieldsFromStruct` ≡ `FieldsOf`, `GetStructsFromFile` ≡
`FileStructs`, the package scan ≡ `ScanFiles`). Where Go's map iteration
order leaves the result open (the missing-name check, and so `LookUp` and
`GetStructsFromPackage`), the method is proved to meet a specification
predicate instead (`LookupOutcome`, `PackageOutcome`); the membership test
of the target file is an inline loop with its own invariant.
The lemmas then state what those functions promise: the partition of field
names, where type texts come from, when and how extraction fails, which
struct a look-up returns, and which errors the driver reports.

Two behaviours of the code that a reader might not expect are modelled as
written:

- `utils/ast.go:182` discards the error of `GetFieldsFromStruct`. A struct
  whose field types cannot be read is still recorded, with empty field
  tables (`Structs.TablesOf`).
- `utils/ast.go:257` reports a parse failure in look-up mode under the
  configured target file's name, not the name of the file that failed
  (`Package.FileResult`).

## Model

| member | source | states |
|---|---|---|
| Names.IsUpper | utils/name.go:38-40 | true exactly for the bytes 'A'..'Z'; such a byte is ASCII and not lower case |
| Names.IsLower | utils/name.go:42-44 | true exactly for the bytes 'a'..'z'; such a byte is ASCII |
| Names.IsASCII | utils/name.go:46-48 | the high-bit mask test holds exactly for bytes below 0x80 |
| Names.LeadByte | utils/name.go:52 | the first byte of a name's UTF-8 encoding: the character itself below 0x80, a non-ASCII lead byte (>= 0xC0) otherwise |
| Names.IsPublic | utils/name.go:51-55 | a name is public exactly when its first character is an ASCII capital letter |
| Names.IsPrivate | utils/name.go:57-59 | the negation of public; every name starting with a non-ASCII character is private |
| Names.ShouldIgnore | utils/name.go:61-63 | a name is ignored exactly when it is empty or starts with a non-ASCII character |
| Names.ToUpperRune | utils/name.go:84 | a small letter becomes its own capital (code point minus 0x20); capitals and non-letters are unchanged; the result is a capital exactly for letters |
| Names.ToLowerRune | utils/name.go:18 | a capital becomes its own small letter (code point plus 0x20), which upper-cases back to it; small letters and non-letters are unchanged |
| Names.LowerString | utils/ast.go:187 | keeps the length; each capital becomes its own small letter and every other character is unchanged |
| Names.LowerStringIdempotent | utils/ast.go:187 | lower-casing twice gives the same name as lower-casing once |
| Names.GetterNameFacts | utils/name.go:79-91 | a getter name has the field name's length and tail; it starts with a capital exactly when the name starts with a letter, and lower-casing that capital gives back the name's first letter |
| Names.GetterNameExamples | utils/name.go:79-91 | "name" → "Name", "y" → "Y", "_x" → "_x" |
| Names.RawGetterName | utils/name.go:79-91 | the loop builds the getter name: the upper-cased first character followed by the remaining characters unchanged |
| Names.ToGetterName | utils/name.go:65-77 | an empty name, a non-ASCII first character and a capital first character each give their own error; every other name gives its getter name |
| Names.FirstLetterSpec | utils/name.go:23-28 | the fallback scan finds nothing exactly when the name has no letter; otherwise it finds the first letter |
| Names.InitialsEmpty | utils/name.go:16-20 | the initials are empty exactly when the name has no capital |
| Names.InitialsAreLower | utils/name.go:16-20 | the initials are lower-case letters, at most one per character of the name |
| Names.InitialsConcat | utils/name.go:16-20 | the initials of a concatenation are the concatenated initials |
| Names.ShortNameOf | utils/name.go:9-36 | an empty name is an error; a short name is never empty and consists of lower-case letters only |
| Names.ShortNameCases | utils/name.go:9-36 | a name with capitals gives its lower-cased capitals; a name with letters but no capitals gives its first letter, lower-cased; a name with no letter is an invalid-name error |
| Names.ShortNameOfCamelCase | utils/name.go:9-36 | "UserAccount" → "ua" |
| Names.ShortNameOfLowerCase | utils/name.go:9-36 | "user" → "u"; "" and "_1" are errors |
| Names.GetShortName | utils/name.go:9-36 | the two loops compute exactly the short name that ShortNameOf specifies |
| Source.ReadAt | utils/ast.go:80-88 | an empty read always succeeds; any other read succeeds exactly when the range lies within the file, and then returns the file's bytes of that range |
| Source.Open | utils/ast.go:72-76 | opening succeeds exactly for a file that exists, giving its bytes; otherwise the error names the file |
| Source.ReadSpan | utils/ast.go:69-88 | a missing file gives the open error; a range past the end gives the position error; otherwise the bytes are exactly those of the span |
| Fields.FlattenMembers | utils/ast.go:56-58 | the flattened name list holds a name with a type exactly when some group declares that name with that type |
| Fields.ClassifyAllSound | utils/ast.go:56-110 | after a successful pass, the keys are exactly the names seen, each in the bucket its rules select; each non-ignored entry holds the type read for the name's last occurrence |
| Fields.ClassifyAllFails | utils/ast.go:72-88 | the pass fails exactly when some non-ignored name's type cannot be read, and then with the first such name's error |
| Fields.FieldsPartition | utils/ast.go:56-110 | the three tables are pairwise disjoint; every declared name is ignored, public or private exactly as ShouldIgnore and IsPublic decide; no key comes from anywhere else |
| Fields.FieldEntries | utils/ast.go:59-108 | an ignored entry has only its name and the reason "name is invalid"; a public entry has no getter; a private entry has the getter named by the getter-name rule; no entry has a setter; each type text is what some declaring group's type span reads |
| Fields.FieldsFail | utils/ast.go:72-88 | classification fails exactly when some non-ignored name's type span cannot be read; ignored names are never read |
| Fields.RecordField | utils/ast.go:59-108 | one name of a group: an ignored name is filed with its reason and no read; otherwise the type span is read and the field filed as public or private, exactly as ClassifyStep specifies |
| Fields.RecordGroup | utils/ast.go:58-109 | the inner loop over one group's names extends the tables exactly as ClassifyAll does for that group's named fields |
| Fields.GetFieldsFromStruct | utils/ast.go:51-113 | the nested loops compute exactly FieldsOf, failing at the first unreadable type |
| Structs.ImportSpansMembers | utils/ast.go:122-126 | a span is read exactly when it is the span of some `import` declaration, and there are at most as many spans as declarations |
| Structs.ImportSpansConcat | utils/ast.go:122-126 | the import spans of a concatenation of declaration lists are the two lists' import spans, concatenated; so the spans follow the declarations' source order |
| Structs.ImportsBySpan | utils/ast.go:122-150 | when all import declarations lie in one file, the import text exists exactly when every span reads, and is then each span's bytes followed by a newline |
| Structs.ReadImportsFails | utils/ast.go:131-146 | the failure at an import declaration is the failure of the prefix ending there |
| Structs.ReadImport | utils/ast.go:128-149 | one import declaration: the first opens its file, each reads its span from the open file and appends the bytes and a newline; a failure is the failure ReadImports specifies for the prefix ending there |
| Structs.SpecStructsMembers | utils/ast.go:158-168 | a type spec contributes a struct exactly when it is a TypeSpec whose type is a struct type |
| Structs.StructDeclsMembers | utils/ast.go:154-168 | the structs considered are exactly the struct type specs of the `type` declarations |
| Structs.StructStepFails | utils/ast.go:172-180 | one struct is accepted exactly when its name is not ignored and has a short name; otherwise it gives the matching error |
| Structs.StructsOfFails | utils/ast.go:154-196 | extraction fails exactly when some struct name is rejected, and then with the first rejected name's error |
| Structs.StructsOfSound | utils/ast.go:182-193 | the keys are the declared struct names; each record is present and carries its name, lower-case name, short name, the import text, and the field tables of the last spec with that name (empty when classification failed) |
| Structs.RecordStruct | utils/ast.go:170-193 | one struct spec: an ignored name and a name with no short name are rejected with their errors; otherwise the record is stored under its name, exactly as StructStep specifies |
| Structs.RecordSpec | utils/ast.go:158-194 | one spec of a `type` declaration: a struct spec is recorded, any other spec leaves the map unchanged |
| Structs.FileStructsSpec | utils/ast.go:115-199 | an import read error is returned as is; otherwise extraction succeeds exactly when every declared struct name is accepted, recording exactly the declared struct names |
| Structs.ReadImportedStatements | utils/ast.go:119-152 | the import loop computes exactly the import text specified by ReadImports, opening only the first import's file |
| Structs.RecordTypeSpecs | utils/ast.go:158-194 | the loop over one declaration's specs extends the struct map exactly as StructsOf specifies |
| Structs.RecordDecl | utils/ast.go:154-195 | one declaration: a `type` declaration records its struct specs, any other declaration leaves the map unchanged |
| Structs.RecordDecls | utils/ast.go:154-198 | the declaration loop computes exactly StructsOf over every struct type spec of the file, in order |
| Structs.GetStructsFromFile | utils/ast.go:115-199 | the method computes exactly FileStructs |
| Package.ScanKeys | utils/ast.go:248-270 | a successful look-up has exactly the requested names as keys |
| Package.FileResult | utils/ast.go:254-263 | a file without a syntax tree fails with a parse error naming the configured target file, not the file itself; an extraction failure names the file itself |
| Package.FileRecords | utils/ast.go:260-263 | every struct a file yields is filed under its own name and is present |
| Package.TargetFileAgrees | utils/ast.go:236-263 | the look-up mode's result for the target file is the whole-file mode's result |
| Package.ScanFound | utils/ast.go:253-270 | a requested name stays unfound exactly when no file has a struct with that name; otherwise it holds the struct from the last file that has one |
| Package.ScanFails | utils/ast.go:253-263 | the look-up fails exactly when some file fails to parse or extract, and then with the first such file's error |
| Package.LookupOk | utils/ast.go:248-279 | a successful look-up returns exactly the requested names, each with the struct from the last file declaring it, filed under its own name and present |
| Package.LookupMissing | utils/ast.go:272-276 | a struct reported missing was requested, and every file of the package parses and lacks it |
| Package.WholeFileOk | utils/ast.go:235-246 | in whole-file mode a success is the target file's extraction, each record filed under its own name and present |
| Package.WholeFile | utils/ast.go:236-246 | a target file without a syntax tree fails with a parse error naming it; an extraction failure also names it |
| Package.OutcomeDetermined | utils/ast.go:201-280 | any two permitted outcomes agree on success, are equal on success, and are equal on every error other than a missing struct |
| Package.TakeRequested | utils/ast.go:265-269 | visiting a file's structs in any order replaces exactly the requested names it has and leaves the rest |
| Package.Prefill | utils/ast.go:248-251 | the prefilled map has exactly the requested names as keys, none of them found yet |
| Package.ScanFile | utils/ast.go:254-269 | one file of the package: a parse failure or an extraction failure is returned, otherwise the file's structs are merged into the requested names |
| Package.ScanPackage | utils/ast.go:253-270 | the file loop computes exactly ScanFiles, stopping at the first failing file |
| Package.CheckFound | utils/ast.go:272-276 | when every requested name was found, the result is the found structs; otherwise it is the error naming some requested name that was not found |
| Package.LookUp | utils/ast.go:248-276 | prefills the requested names, scans every file, then returns the structs or some missing name, as LookupOutcome allows |
| Package.GetStructsFromPackage | utils/ast.go:201-280 | checks in order for a missing package name, a failed build, and a target file outside the package; then returns whole-file or look-up results as PackageOutcome allows |
| Scenarios.FieldsOfA | utils/ast.go:51-113 | struct {X int; y int}: X is public, y is private with getter "Y", and both have type text "int" |
| Scenarios.FileStructsOfA | utils/ast.go:115-199 | a file declaring that struct as `A` gives one record, `A`, with short name and lower name "a" |
| Scenarios.WholeFileOfA | utils/ast.go:235-246 | with no struct requested, the package result is that file's structs |
| Scenarios.ScanOfAB | utils/ast.go:248-270 | looking up A and B finds A and leaves B unfound |
| Scenarios.MissingB | utils/ast.go:272-276 | the package result for A and B is the error that B cannot be found |

## Left out

- Unicode letter tables: `unicode.IsUpper`, `unicode.IsLower`, `unicode.ToLower`, `unicode.ToUpper` and `strings.ToLower` are modelled for ASCII letters only (`IsUpperRune`, `IsLetter`, `ToLowerRune`, `ToUpperRune`, `LowerString`). A non-ASCII letter counts as "not a letter". Because of this, `Names.GetShortName` and `Names.LowerString` differ from Go on names with non-ASCII letters, and so does `Structs.GetStructsFromFile`: a struct name such as `_é` passes `ShouldIgnore`, and the model then rejects it with `ShortNameFailed(_, InvalidName)` where Go gives the short name "é". `ToUpperRune` differs from Go only on non-ASCII first characters of field names, which `ShouldIgnore` filters out before a getter name is made. The field-name rules are exact, since they only look at the first byte.
- Strings are sequences of code points. Go's `name[0]` is the first byte of the UTF-8 encoding, modelled by `Names.LeadByte`. No other byte-level encoding is modelled.
- Error values carry the engine's message data (file names, offsets, struct names) but not the wrapped causes from the parser, `os` or `build`.
- The parser is not modelled: `Package.Workspace` holds each parsed file's syntax tree, and a file with no tree is a parse failure. `build.ImportDir` is likewise reduced to its list of Go files, or a failure.
- `token.FileSet` position resolution is not modelled: spans carry resolved file names and offsets. Spans with an end before their start, on which Go would panic, are excluded by `Valid`.
- The file system is an immutable map. `defer file.Close()`, the `Seek` call at `utils/ast.go:141` (which does not affect `ReadAt`) and concurrent changes to files are not modelled.
- `Structs.ReadImportedStatements`: the Go code opens only the first import declaration's file and reads every later import span from it. The model does the same, but `Structs.ImportsBySpan` relates the text to the spans only when all import spans are in one file, which is what the parser produces for a single file.
- `Package.GetStructsFromPackage`: Go ranges over maps in random order, so the missing name reported is any requested name that was not found (`PackageOutcome`). `Package.OutcomeDetermined` shows that this is the only freedom.
- `Fields.FieldEntries`: for a name declared in several groups, it states only that the type text comes from some declaring group. `Fields.ClassifyAllSound` states that it is the last occurrence.
- The command-line front end, the templates, code generation and file writing (`cmd/`, `generator/`) are not part of this model.
- Field record members that the engine never sets (`GetterAlreadyExist`, `SetterAlreadyExist`, `HasGetter`, `WillGenerateSetter`) keep their zero values in the model.
