/**
 * SemaLocResolver: resolves one cursor location to the semantic token there.
 *
 * The resolver is searching while its token is Invalid and has found once the
 * token is set. The pure functions below say what each walker callback does to
 * the resolver's state (the token and the container type) and what it answers
 * the walker; WalkNode and WalkForest compose them the way the walker calls
 * them. The class SemaLocResolver holds the same state in fields and its
 * methods are proved to follow these functions.
 *
 * The walker (SourceEntityWalker over ASTWalker) is simplified: a pre-callback
 * answering false skips the node's children and its post-callback; a
 * post-callback or a reference callback answering false ends the whole walk.
 */
module PointResolution {
  import opened Wrappers
  import opened SourceModel
  import opened Ast

  /**
   * SemaToken: Invalid (the default, nothing found), a reference to a value
   * declaration, or a reference to a module. A module token carries no
   * container type.
   */
  datatype SemaToken =
    | Invalid
    | ValueRef(valueD: ValueDecl, ctorTyRef: Option<TypeDecl>, loc: Pos, isRef: bool, ty: Ty,
               containerType: Ty, isKeywordArgument: bool)
    | ModuleRef(mod: ModuleEntity, loc: Pos)
  {
    predicate IsValid() {
      !Invalid?
    }
  }

  /** The resolver's mutable state between two callbacks. */
  datatype State = State(tok: SemaToken, containerType: Ty)

  /** The state after walking something, and whether the walk goes on. */
  datatype Outcome = Outcome(st: State, cont: bool)

  /** isDone: a token has been found. */
  predicate IsDone(st: State) {
    st.tok.IsValid()
  }

  /** tryResolve(ValueDecl ...): the new state and whether `loc` is the target. */
  function TryResolveValue(target: Pos, st: State, d: ValueDecl, ctorTyRef: Option<TypeDecl>,
                           loc: Pos, isRef: bool, ty: Ty): (State, bool)
  {
    if !d.HasName() then (st, false)
    else if loc == target then
      (st.(tok := ValueRef(d, ctorTyRef, loc, isRef, ty, st.containerType, false)), true)
    else (st, false)
  }

  /** tryResolve(ModuleEntity ...). */
  function TryResolveModule(target: Pos, st: State, mod: ModuleEntity, loc: Pos): (State, bool) {
    if loc == target then (st.(tok := ModuleRef(mod, loc)), true) else (st, false)
  }

  /** walkToDeclPre: the new state and whether to enter the declaration. */
  function DeclPre(target: Pos, st: State, n: Node): (State, bool)
    requires n.DeclNode?
  {
    if !InSpan(n.range, target) then (st, false)
    else if n.declKind.ExtensionDecl? then (st, true)
    else if n.declKind.Value? then
      var (st', found) := TryResolveValue(target, st, n.declKind.vd, None, n.nameLoc, false, NullType);
      (st', !found)
    else (st, true)
  }

  /** walkToDeclPost: whether the walk goes on. */
  predicate DeclPost(target: Pos, st: State, n: Node)
    requires n.DeclNode?
  {
    !IsDone(st) && !IsBeforeInBuffer(target, n.range.start)
  }

  /** walkToStmtPre: whether to enter the statement. */
  predicate StmtPre(target: Pos, n: Node)
    requires n.StmtNode?
  {
    n.isImplicit || InSpan(n.range, target)
  }

  /** walkToStmtPost: whether the walk goes on. */
  predicate StmtPost(target: Pos, st: State, n: Node)
    requires n.StmtNode?
  {
    !IsDone(st) && (n.isImplicit || !IsBeforeInBuffer(target, n.range.start))
  }

  /** walkToExprPre: the new state (the expression is always entered). */
  function ExprPre(target: Pos, st: State, n: Node): State
    requires n.ExprNode?
  {
    if IsDone(st) then st
    else
      match n.exprKind
      case SelfApplyExpr(fnStart, baseType) =>
        if fnStart == target then st.(containerType := baseType) else st
      case MemberRefExpr(dotLoc, baseType) =>
        if dotLoc.Some? && dotLoc.value + 1 == target then st.(containerType := baseType) else st
      case OtherExpr => st
  }

  /** visitDeclReference: the new state and whether the walk goes on. */
  function VisitDeclReference(target: Pos, st: State, d: ValueDecl, loc: Pos,
                              ctorTyRef: Option<TypeDecl>, ty: Ty): (State, bool)
  {
    if IsDone(st) then (st, false)
    else
      var (st', found) := TryResolveValue(target, st, d, ctorTyRef, loc, true, ty);
      (st', !found)
  }

  /** visitCallArgName. */
  function VisitCallArgName(target: Pos, st: State, loc: Pos, d: ValueDecl): (State, bool) {
    if IsDone(st) then (st, false)
    else
      var (st', found) := TryResolveValue(target, st, d, None, loc, true, NullType);
      if found then (st'.(tok := st'.tok.(isKeywordArgument := true)), false) else (st', true)
  }

  /** visitModuleReference. */
  function VisitModuleReference(target: Pos, st: State, mod: ModuleEntity, loc: Pos): (State, bool) {
    if IsDone(st) then (st, false)
    else if mod.isBuiltinModule then (st, true)
    else
      var (st', found) := TryResolveModule(target, st, mod, loc);
      (st', !found)
  }

  /** The walk of one node, starting in state `st`, looking for `target`. */
  function WalkNode(target: Pos, st: State, n: Node): Outcome
    decreases n
  {
    match n
    case DeclNode(_, _, _, children) =>
      var (st1, enter) := DeclPre(target, st, n);
      if !enter then Outcome(st1, true)
      else
        var o := WalkForest(target, st1, children);
        if !o.cont then o else Outcome(o.st, DeclPost(target, o.st, n))
    case StmtNode(_, _, children) =>
      if !StmtPre(target, n) then Outcome(st, true)
      else
        var o := WalkForest(target, st, children);
        if !o.cont then o else Outcome(o.st, StmtPost(target, o.st, n))
    case ExprNode(_, _, _, children) =>
      WalkForest(target, ExprPre(target, st, n), children)
    case DeclRefSite(d, loc, ctorTyRef, ty) =>
      var (st', c) := VisitDeclReference(target, st, d, loc, ctorTyRef, ty);
      Outcome(st', c)
    case SubscriptRefSite(d, loc, _) =>
      var (st', c) := VisitDeclReference(target, st, d, loc, None, NullType);
      Outcome(st', c)
    case CallArgSite(_, loc, d) =>
      var (st', c) := VisitCallArgName(target, st, loc, d);
      Outcome(st', c)
    case ModuleRefSite(mod, loc) =>
      var (st', c) := VisitModuleReference(target, st, mod, loc);
      Outcome(st', c)
  }

  /** The walk of a sequence of sibling nodes, in order, until one ends the walk. */
  function WalkForest(target: Pos, st: State, cs: seq<Node>): Outcome
    decreases cs
  {
    if cs == [] then Outcome(st, true)
    else
      var o := WalkNode(target, st, cs[0]);
      if !o.cont then o else WalkForest(target, o.st, cs[1..])
  }

  /**
   * resolve(Loc): the state after resetting the token and walking the file's
   * declarations. The container type is NOT reset: the walk starts from `ct`,
   * whatever an earlier resolve left there.
   */
  function ResolveState(decls: seq<Node>, target: Pos, ct: Ty): State {
    WalkForest(target, State(Invalid, ct), decls).st
  }

  class SemaLocResolver {
    const srcFile: SourceFile
    var locToResolve: Pos
    var semaTok: SemaToken
    var containerType: Ty

    constructor (srcFile: SourceFile)
      ensures this.srcFile == srcFile
      ensures semaTok == Invalid && containerType == NullType
    {
      this.srcFile := srcFile;
      semaTok := Invalid;
      containerType := NullType;
    }

    function CurrentState(): State
      reads this
    {
      State(semaTok, containerType)
    }

    predicate IsDone()
      reads this
    {
      semaTok.IsValid()
    }

    /** tryResolve for a value declaration: records the token only when `loc` is the target and `d` has a name. */
    method TryResolve(d: ValueDecl, ctorTyRef: Option<TypeDecl>, loc: Pos, isRef: bool, ty: Ty)
      returns (found: bool)
      modifies this`semaTok
      ensures found <==> d.HasName() && loc == locToResolve
      ensures semaTok == if found then ValueRef(d, ctorTyRef, loc, isRef, ty, containerType, false)
                         else old(semaTok)
    {
      if !d.HasName() {
        return false;
      }
      if loc == locToResolve {
        semaTok := ValueRef(d, ctorTyRef, loc, isRef, ty, containerType, false);
        return true;
      }
      return false;
    }

    /** tryResolve for a module: records the token only when `loc` is the target. */
    method TryResolveModuleRef(mod: ModuleEntity, loc: Pos) returns (found: bool)
      modifies this`semaTok
      ensures found <==> loc == locToResolve
      ensures semaTok == if found then ModuleRef(mod, loc) else old(semaTok)
    {
      if loc == locToResolve {
        semaTok := ModuleRef(mod, loc);
        return true;
      }
      return false;
    }

    /** visitSubscriptReference: both brackets resolve like a plain reference to the subscript. */
    method VisitSubscriptReference(d: ValueDecl, loc: Pos, isOpenBracket: bool) returns (cont: bool)
      modifies this`semaTok
      ensures old(IsDone()) ==> !cont && semaTok == old(semaTok)
      ensures !old(IsDone()) ==>
                (cont <==> !(d.HasName() && loc == locToResolve)) &&
                semaTok == if cont then old(semaTok)
                           else ValueRef(d, None, loc, true, NullType, containerType, false)
    {
      cont := VisitDeclReference(d, loc, None, NullType);
    }

    /** resolve: resets the target and the token (not the container type) and walks the file. */
    method Resolve(loc: Pos) returns (tok: SemaToken)
      modifies this
      ensures locToResolve == loc && tok == semaTok
      ensures CurrentState() == ResolveState(srcFile.decls, loc, old(containerType))
    {
      locToResolve := loc;
      semaTok := Invalid;
      var _ := WalkChildren(srcFile.decls);
      tok := semaTok;
    }

    /** walkToDeclPre: prune a declaration that does not contain the target, else try its name. */
    method WalkToDeclPre(n: Node) returns (enter: bool)
      requires n.DeclNode?
      modifies this`semaTok
      ensures !InSpan(n.range, locToResolve) ==> !enter && semaTok == old(semaTok)
      ensures InSpan(n.range, locToResolve) && !n.declKind.Value? ==> enter && semaTok == old(semaTok)
      ensures InSpan(n.range, locToResolve) && n.declKind.Value? ==>
                (enter <==> !(n.declKind.vd.HasName() && n.nameLoc == locToResolve)) &&
                semaTok == if enter then old(semaTok)
                           else ValueRef(n.declKind.vd, None, n.nameLoc, false, NullType, containerType, false)
    {
      if !InSpan(n.range, locToResolve) {
        return false;
      }
      if n.declKind.ExtensionDecl? {
        return true;
      }
      if n.declKind.Value? {
        var found := TryResolve(n.declKind.vd, None, n.nameLoc, false, NullType);
        return !found;
      }
      return true;
    }

    /** walkToDeclPost: stop once found, or once the target lies before the declaration. */
    method WalkToDeclPost(n: Node) returns (cont: bool)
      requires n.DeclNode?
      ensures cont == DeclPost(locToResolve, CurrentState(), n)
    {
      if IsDone() {
        return false;
      }
      if IsBeforeInBuffer(locToResolve, n.range.start) {
        return false;
      }
      return true;
    }

    /** walkToStmtPre: implicit statements are always entered; others only when they contain the target. */
    method WalkToStmtPre(n: Node) returns (enter: bool)
      requires n.StmtNode?
      ensures enter == StmtPre(locToResolve, n)
    {
      if !n.isImplicit && !InSpan(n.range, locToResolve) {
        return false;
      }
      return true;
    }

    /** walkToStmtPost: stop once found, or once the target lies before a non-implicit statement. */
    method WalkToStmtPost(n: Node) returns (cont: bool)
      requires n.StmtNode?
      ensures cont == StmtPost(locToResolve, CurrentState(), n)
    {
      if IsDone() {
        return false;
      }
      if !n.isImplicit && IsBeforeInBuffer(locToResolve, n.range.start) {
        return false;
      }
      return true;
    }

    /** visitDeclReference: stop once found; else record a reference token if `loc` is the target. */
    method VisitDeclReference(d: ValueDecl, loc: Pos, ctorTyRef: Option<TypeDecl>, ty: Ty) returns (cont: bool)
      modifies this`semaTok
      ensures old(IsDone()) ==> !cont && semaTok == old(semaTok)
      ensures !old(IsDone()) ==>
                (cont <==> !(d.HasName() && loc == locToResolve)) &&
                semaTok == if cont then old(semaTok)
                           else ValueRef(d, ctorTyRef, loc, true, ty, containerType, false)
    {
      if IsDone() {
        return false;
      }
      var found := TryResolve(d, ctorTyRef, loc, true, ty);
      return !found;
    }

    /**
     * walkToExprPre: while searching, remember the receiver's type when the
     * target is the callee of a self-application or just after a member
     * reference's dot. Never prunes.
     */
    method WalkToExprPre(n: Node) returns (enter: bool)
      requires n.ExprNode?
      modifies this`containerType
      ensures enter
      ensures containerType ==
                if !old(IsDone()) && n.exprKind.SelfApplyExpr? && n.exprKind.fnStart == locToResolve
                then n.exprKind.baseType
                else if !old(IsDone()) && n.exprKind.MemberRefExpr? && n.exprKind.dotLoc.Some? &&
                        n.exprKind.dotLoc.value + 1 == locToResolve
                then n.exprKind.baseType
                else old(containerType)
    {
      if !IsDone() {
        match n.exprKind
        case SelfApplyExpr(fnStart, baseType) =>
          if fnStart == locToResolve {
            containerType := baseType;
          }
        case MemberRefExpr(dotLoc, baseType) =>
          if dotLoc.Some? && dotLoc.value + 1 == locToResolve {
            containerType := baseType;
          }
        case OtherExpr =>
      }
      return true;
    }

    /** visitCallArgName: a matched argument label is a reference and a keyword argument. */
    method VisitCallArgName(name: string, loc: Pos, d: ValueDecl) returns (cont: bool)
      modifies this`semaTok
      ensures old(IsDone()) ==> !cont && semaTok == old(semaTok)
      ensures !old(IsDone()) ==>
                (cont <==> !(d.HasName() && loc == locToResolve)) &&
                semaTok == if cont then old(semaTok)
                           else ValueRef(d, None, loc, true, NullType, containerType, true)
    {
      if IsDone() {
        return false;
      }
      var found := TryResolve(d, None, loc, true, NullType);
      if found {
        semaTok := semaTok.(isKeywordArgument := true);
      }
      return !found;
    }

    /** visitModuleReference: references to the builtin module are ignored. */
    method VisitModuleReference(mod: ModuleEntity, loc: Pos) returns (cont: bool)
      modifies this`semaTok
      ensures old(IsDone()) ==> !cont && semaTok == old(semaTok)
      ensures !old(IsDone()) && mod.isBuiltinModule ==> cont && semaTok == old(semaTok)
      ensures !old(IsDone()) && !mod.isBuiltinModule ==>
                (cont <==> loc != locToResolve) &&
                semaTok == if cont then old(semaTok) else ModuleRef(mod, loc)
    {
      if IsDone() {
        return false;
      }
      if mod.isBuiltinModule {
        return true;
      }
      var found := TryResolveModuleRef(mod, loc);
      return !found;
    }

    /** The walker on one node: pre-callback, children, post-callback; reference sites get their visit callback. */
    method Walk(n: Node) returns (cont: bool)
      modifies this`semaTok, this`containerType
      ensures Outcome(CurrentState(), cont) == WalkNode(locToResolve, old(CurrentState()), n)
      decreases n
    {
      match n
      case DeclNode(_, _, _, children) =>
        var enter := WalkToDeclPre(n);
        if !enter {
          return true;
        }
        cont := WalkChildren(children);
        if cont {
          cont := WalkToDeclPost(n);
        }
      case StmtNode(_, _, children) =>
        var enter := WalkToStmtPre(n);
        if !enter {
          return true;
        }
        cont := WalkChildren(children);
        if cont {
          cont := WalkToStmtPost(n);
        }
      case ExprNode(_, _, _, children) =>
        var _ := WalkToExprPre(n);
        cont := WalkChildren(children);
      case DeclRefSite(d, loc, ctorTyRef, ty) =>
        cont := VisitDeclReference(d, loc, ctorTyRef, ty);
      case SubscriptRefSite(d, loc, isOpenBracket) =>
        cont := VisitSubscriptReference(d, loc, isOpenBracket);
      case CallArgSite(name, loc, d) =>
        cont := VisitCallArgName(name, loc, d);
      case ModuleRefSite(mod, loc) =>
        cont := VisitModuleReference(mod, loc);
    }

    /** The walker on a sequence of siblings: each in turn, until one ends the walk. */
    method WalkChildren(cs: seq<Node>) returns (cont: bool)
      modifies this`semaTok, this`containerType
      ensures Outcome(CurrentState(), cont) == WalkForest(locToResolve, old(CurrentState()), cs)
      decreases cs
    {
      var i := 0;
      while i < |cs|
        invariant 0 <= i <= |cs|
        invariant WalkForest(locToResolve, CurrentState(), cs[i..]) ==
                  WalkForest(locToResolve, old(CurrentState()), cs)
      {
        assert cs[i..][0] == cs[i] && cs[i..][1..] == cs[i + 1..];
        cont := Walk(cs[i]);
        if !cont {
          return;
        }
        i := i + 1;
      }
      return true;
    }
  }
}
