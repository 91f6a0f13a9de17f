/**
 * The type-checked syntax tree the resolvers walk.
 *
 * Only what the resolvers look at is kept: every Decl, Stmt and Expr node has
 * its source range and its children in source order. The callbacks that
 * SourceEntityWalker makes for references (a declaration reference, each
 * bracket of a subscript, a call-argument label, a module reference) are
 * leaves of the tree at the place where the walker would make the callback.
 */
module Ast {
  import opened Wrappers
  import opened SourceModel

  /** A Swift `Type`; `NullType` is the null `Type()`. */
  datatype Ty = NullType | Type(id: nat)

  /** A ValueDecl: its identity and its name (empty when the declaration has none). */
  datatype ValueDecl = ValueDecl(id: nat, name: string) {
    predicate HasName() {
      name != []
    }
  }

  /** A TypeDecl referenced by a constructor call (`CtorTyRef`). */
  datatype TypeDecl = TypeDecl(id: nat)

  /** A ModuleEntity. */
  datatype ModuleEntity = ModuleEntity(name: string, isBuiltinModule: bool)

  /** What kind of declaration a Decl node is, as far as the resolvers care. */
  datatype DeclKind = ExtensionDecl | Value(vd: ValueDecl) | OtherDecl

  /**
   * What kind of expression an Expr node is: a self-application (`base.method`
   * as a call's callee) with the start of its callee and its base's type, a
   * member reference with the location of its `.` (if any) and its base's
   * type, or anything else.
   */
  datatype ExprKind =
    | SelfApplyExpr(fnStart: Pos, baseType: Ty)
    | MemberRefExpr(dotLoc: Option<Pos>, baseType: Ty)
    | OtherExpr

  datatype Node =
      /** A declaration: its range, the start of its name range, its members. */
    | DeclNode(declKind: DeclKind, range: Span, nameLoc: Pos, children: seq<Node>)
      /** A statement; implicit statements are synthesized and their range may not cover their children. */
    | StmtNode(range: Span, isImplicit: bool, children: seq<Node>)
    | ExprNode(exprKind: ExprKind, range: Span, ty: Ty, children: seq<Node>)
      /** visitDeclReference: a reference to `decl` starting at `loc`. */
    | DeclRefSite(decl: ValueDecl, loc: Pos, ctorTyRef: Option<TypeDecl>, ty: Ty)
      /** visitSubscriptReference: one of the two brackets of a subscript access. */
    | SubscriptRefSite(decl: ValueDecl, loc: Pos, isOpenBracket: bool)
      /** visitCallArgName: an argument label naming parameter `decl`. */
    | CallArgSite(argName: string, loc: Pos, decl: ValueDecl)
      /** visitModuleReference. */
    | ModuleRefSite(mod: ModuleEntity, loc: Pos)

  /** A SourceFile: the buffer holding its text and its top-level declarations. */
  datatype SourceFile = SourceFile(bufferId: nat, decls: seq<Node>)
}
