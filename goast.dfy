/**
 * The part of Go's syntax tree the engine looks at: top-level generic
 * declarations, their type specs, struct types and field groups. Positions are
 * resolved spans (see module Source).
 */
module GoAst {
  import opened Source

  /** The keyword of a generic declaration. */
  datatype Token = IMPORT | CONST | TYPE | VAR

  /**
   * `ast.Field`: one field group. `names` is empty for an embedded field;
   * `typ` is the span of the group's type expression.
   */
  datatype FieldGroup = FieldGroup(names: seq<string>, typ: Span)

  /** `ast.StructType` with its field list. */
  datatype StructType = StructType(fields: seq<FieldGroup>)
  {
    predicate Valid() { forall g :: g in fields ==> g.typ.Valid() }
  }

  /** The type expression of a type spec: a struct type, or anything else. */
  datatype TypeExpr = StructExpr(st: StructType) | OtherExpr

  /** The specs of a generic declaration. */
  datatype Spec = TypeSpec(name: string, typ: TypeExpr) | ImportSpec | ValueSpec
  {
    predicate Valid() { TypeSpec? && typ.StructExpr? ==> typ.st.Valid() }
  }

  /** A top-level declaration: `ast.GenDecl` with its span, or a function declaration. */
  datatype Decl = GenDecl(tok: Token, span: Span, specs: seq<Spec>) | FuncDecl
  {
    predicate Valid() { GenDecl? ==> span.Valid() && forall s :: s in specs ==> s.Valid() }
  }

  /** `ast.File`: the declarations of one parsed file, in source order. */
  datatype File = File(decls: seq<Decl>)
  {
    predicate Valid() { forall d :: d in decls ==> d.Valid() }
  }
}
