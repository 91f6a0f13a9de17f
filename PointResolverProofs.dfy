/**
 * What the point resolver promises, proved about the walk functions of
 * PointResolution (and so, through the ensures of SemaLocResolver.Resolve,
 * about the class).
 *
 * - Soundness: a token is only ever recorded for a name or reference site
 *   that lies exactly at the target, with the flags of that kind of site; a
 *   value token's container type is the one the resolver started with or the
 *   base type of a self-application or member reference at the target.
 * - Receiver type: resolving inside a member reference whose dot is just
 *   before the target, or inside a self-application whose callee starts at
 *   the target, gives a value token that carries the base's type.
 * - Completeness: on a well-formed tree (sites lie inside the ranges of the
 *   declarations and non-implicit statements around them) a site matching
 *   the target is always found, despite the pruning.
 * - Reuse: resolving the same location twice gives the same token, although
 *   the container type is not reset between the two calls; a resolve at
 *   another location can report the receiver type left by an earlier one.
 */
module PointResolutionProofs {
  import opened Wrappers
  import opened SourceModel
  import opened Ast
  import opened PointResolution

  /** The places a token can come from: a declaration's name, a reference, an argument label, a module reference. */
  datatype Site =
    | NameSite(decl: ValueDecl, loc: Pos)
    | RefSite(decl: ValueDecl, loc: Pos, ctorTyRef: Option<TypeDecl>, ty: Ty)
    | ArgSite(decl: ValueDecl, loc: Pos)
    | ModSite(mod: ModuleEntity, loc: Pos)

  /** The sites of a subtree. A subscript bracket is a plain reference to the subscript declaration. */
  function NodeSites(n: Node): set<Site>
    decreases n
  {
    match n
    case DeclNode(k, _, nameLoc, children) =>
      (if k.Value? then {NameSite(k.vd, nameLoc)} else {}) + ForestSites(children)
    case StmtNode(_, _, children) => ForestSites(children)
    case ExprNode(_, _, _, children) => ForestSites(children)
    case DeclRefSite(d, loc, ctorTyRef, ty) => {RefSite(d, loc, ctorTyRef, ty)}
    case SubscriptRefSite(d, loc, _) => {RefSite(d, loc, None, NullType)}
    case CallArgSite(_, loc, d) => {ArgSite(d, loc)}
    case ModuleRefSite(mod, loc) => {ModSite(mod, loc)}
  }

  function ForestSites(cs: seq<Node>): set<Site>
    decreases cs
  {
    if cs == [] then {} else NodeSites(cs[0]) + ForestSites(cs[1..])
  }

  /** A site can produce a token for `target`: it is at the target, names a declaration with a name, or a non-builtin module. */
  predicate Matches(s: Site, target: Pos) {
    s.loc == target && if s.ModSite? then !s.mod.isBuiltinModule else s.decl.HasName()
  }

  /**
   * The token a site produces, whatever the container type: a name is not a
   * reference, every other value site is, and only an argument label is a
   * keyword argument.
   */
  predicate Yields(s: Site, tok: SemaToken) {
    match s
    case NameSite(d, loc) =>
      tok.ValueRef? && tok == ValueRef(d, None, loc, false, NullType, tok.containerType, false)
    case RefSite(d, loc, ctorTyRef, ty) =>
      tok.ValueRef? && tok == ValueRef(d, ctorTyRef, loc, true, ty, tok.containerType, false)
    case ArgSite(d, loc) =>
      tok.ValueRef? && tok == ValueRef(d, None, loc, true, NullType, tok.containerType, true)
    case ModSite(mod, loc) => tok == ModuleRef(mod, loc)
  }

  /** The receiver types a walk for `target` may capture in a subtree. */
  function NodeCaptures(target: Pos, n: Node): set<Ty>
    decreases n
  {
    match n
    case ExprNode(k, _, _, children) =>
      var here :=
        match k
        case SelfApplyExpr(fnStart, baseType) => if fnStart == target then {baseType} else {}
        case MemberRefExpr(dotLoc, baseType) =>
          if dotLoc.Some? && dotLoc.value + 1 == target then {baseType} else {}
        case OtherExpr => {};
      here + ForestCaptures(target, children)
    case DeclNode(_, _, _, children) => ForestCaptures(target, children)
    case StmtNode(_, _, children) => ForestCaptures(target, children)
    case _ => {}
  }

  function ForestCaptures(target: Pos, cs: seq<Node>): set<Ty>
    decreases cs
  {
    if cs == [] then {} else NodeCaptures(target, cs[0]) + ForestCaptures(target, cs[1..])
  }

  /** The token is Invalid or produced by a matching site of `sites`. */
  predicate Explained(tok: SemaToken, sites: set<Site>, target: Pos) {
    !tok.IsValid() || exists s :: s in sites && Matches(s, target) && Yields(s, tok)
  }

  /** The state's token is explained by `sites`, and every container type in it comes from `types`. */
  predicate SoundState(st: State, sites: set<Site>, types: set<Ty>, target: Pos) {
    Explained(st.tok, sites, target) &&
    st.containerType in types &&
    (st.tok.ValueRef? ==> st.tok.containerType in types)
  }

  // ---------------------------------------------------------------------------
  // Soundness

  lemma ExplainedGrows(tok: SemaToken, s1: set<Site>, s2: set<Site>, target: Pos)
    requires Explained(tok, s1, target) && s1 <= s2
    ensures Explained(tok, s2, target)
  {
    if tok.IsValid() {
      var s :| s in s1 && Matches(s, target) && Yields(s, tok);
      assert s in s2;
    }
  }

  lemma {:induction false} WalkNodeSound(target: Pos, st: State, n: Node, sites: set<Site>, types: set<Ty>)
    requires SoundState(st, sites, types, target)
    ensures SoundState(WalkNode(target, st, n).st, sites + NodeSites(n), types + NodeCaptures(target, n), target)
    decreases n
  {
    var sites', types' := sites + NodeSites(n), types + NodeCaptures(target, n);
    ExplainedGrows(st.tok, sites, sites', target);
    match n
    case DeclNode(k, _, nameLoc, children) =>
      var (st1, enter) := DeclPre(target, st, n);
      if st1 != st {
        assert Matches(NameSite(k.vd, nameLoc), target) && Yields(NameSite(k.vd, nameLoc), st1.tok);
      }
      assert SoundState(st1, sites', types, target);
      if enter {
        WalkForestSound(target, st1, children, sites', types);
        assert sites' + ForestSites(children) == sites';
      }
    case StmtNode(_, _, children) =>
      WalkForestSound(target, st, children, sites, types);
    case ExprNode(k, _, _, children) =>
      var st1 := ExprPre(target, st, n);
      assert SoundState(st1, sites, types + NodeCaptures(target, n), target);
      WalkForestSound(target, st1, children, sites, types + NodeCaptures(target, n));
    case DeclRefSite(d, loc, ctorTyRef, ty) =>
      var s := RefSite(d, loc, ctorTyRef, ty);
      if WalkNode(target, st, n).st != st {
        assert Matches(s, target) && Yields(s, WalkNode(target, st, n).st.tok);
      }
    case SubscriptRefSite(d, loc, _) =>
      var s := RefSite(d, loc, None, NullType);
      if WalkNode(target, st, n).st != st {
        assert Matches(s, target) && Yields(s, WalkNode(target, st, n).st.tok);
      }
    case CallArgSite(_, loc, d) =>
      var s := ArgSite(d, loc);
      if WalkNode(target, st, n).st != st {
        assert Matches(s, target) && Yields(s, WalkNode(target, st, n).st.tok);
      }
    case ModuleRefSite(mod, loc) =>
      var s := ModSite(mod, loc);
      if WalkNode(target, st, n).st != st {
        assert Matches(s, target) && Yields(s, WalkNode(target, st, n).st.tok);
      }
  }

  lemma {:induction false} WalkForestSound(target: Pos, st: State, cs: seq<Node>, sites: set<Site>, types: set<Ty>)
    requires SoundState(st, sites, types, target)
    ensures SoundState(WalkForest(target, st, cs).st, sites + ForestSites(cs), types + ForestCaptures(target, cs), target)
    decreases cs
  {
    if cs == [] {
      assert sites + ForestSites(cs) == sites && types + ForestCaptures(target, cs) == types;
    } else {
      var o := WalkNode(target, st, cs[0]);
      var sites1, types1 := sites + NodeSites(cs[0]), types + NodeCaptures(target, cs[0]);
      WalkNodeSound(target, st, cs[0], sites, types);
      if o.cont {
        WalkForestSound(target, o.st, cs[1..], sites1, types1);
        assert sites1 + ForestSites(cs[1..]) == sites + ForestSites(cs);
        assert types1 + ForestCaptures(target, cs[1..]) == types + ForestCaptures(target, cs);
      } else {
        ExplainedGrows(o.st.tok, sites1, sites + ForestSites(cs), target);
      }
    }
  }

  /**
   * resolve records a token only for a site at the target that can match
   * (a named declaration, a non-builtin module), with that site's flags; a
   * value token's container type is the one left by the previous resolve or
   * a receiver type captured at the target.
   */
  lemma ResolveSound(decls: seq<Node>, target: Pos, ct: Ty)
    ensures var r := ResolveState(decls, target, ct);
            (r.tok.IsValid() ==> exists s :: s in ForestSites(decls) && Matches(s, target) && Yields(s, r.tok)) &&
            (r.tok.ValueRef? ==> r.tok.containerType == ct || r.tok.containerType in ForestCaptures(target, decls))
  {
    WalkForestSound(target, State(Invalid, ct), decls, {}, {ct});
  }

  /**
   * The flag policy of a resolved value token: it is not a reference only for
   * a declaration's own name, and it is a keyword argument only for a call
   * argument label (which is also a reference). A module token never names
   * the builtin module.
   */
  lemma ResolvedTokenFlags(decls: seq<Node>, target: Pos, ct: Ty)
    ensures var tok := ResolveState(decls, target, ct).tok;
            (tok.IsValid() ==> tok.loc == target) &&
            (tok.ValueRef? && !tok.isRef ==>
               NameSite(tok.valueD, target) in ForestSites(decls) && tok.valueD.HasName() &&
               !tok.isKeywordArgument) &&
            (tok.ValueRef? && tok.isKeywordArgument ==>
               ArgSite(tok.valueD, target) in ForestSites(decls) && tok.isRef) &&
            (tok.ModuleRef? ==> ModSite(tok.mod, target) in ForestSites(decls) && !tok.mod.isBuiltinModule)
  {
    ResolveSound(decls, target, ct);
  }

  // ---------------------------------------------------------------------------
  // The receiver type a token carries

  /** The state's container type is `t`, and so is its value token's, if it has one. */
  predicate CarriesContainer(st: State, t: Ty) {
    st.containerType == t && (st.tok.ValueRef? ==> st.tok.containerType == t)
  }

  lemma {:induction false} WalkNodeKeepsContainer(target: Pos, st: State, n: Node, t: Ty)
    requires CarriesContainer(st, t) && NodeCaptures(target, n) <= {t}
    ensures CarriesContainer(WalkNode(target, st, n).st, t)
    decreases n
  {
    match n
    case DeclNode(_, _, _, children) =>
      var (st1, enter) := DeclPre(target, st, n);
      if enter {
        WalkForestKeepsContainer(target, st1, children, t);
      }
    case StmtNode(_, _, children) =>
      WalkForestKeepsContainer(target, st, children, t);
    case ExprNode(_, _, _, children) =>
      WalkForestKeepsContainer(target, ExprPre(target, st, n), children, t);
    case _ =>
  }

  lemma {:induction false} WalkForestKeepsContainer(target: Pos, st: State, cs: seq<Node>, t: Ty)
    requires CarriesContainer(st, t) && ForestCaptures(target, cs) <= {t}
    ensures CarriesContainer(WalkForest(target, st, cs).st, t)
    decreases cs
  {
    if cs != [] {
      WalkNodeKeepsContainer(target, st, cs[0], t);
      var o := WalkNode(target, st, cs[0]);
      if o.cont {
        WalkForestKeepsContainer(target, o.st, cs[1..], t);
      }
    }
  }

  /**
   * Resolving just after a member reference's dot, while nothing is found:
   * the base's type becomes the container type, and a value token found
   * inside the reference carries it (as long as nothing nested captures a
   * different type at the same target).
   */
  lemma MemberRefGivesReceiverType(target: Pos, st: State, dot: Pos, bt: Ty, range: Span, ty: Ty, cs: seq<Node>)
    requires !IsDone(st) && dot + 1 == target && ForestCaptures(target, cs) <= {bt}
    ensures var o := WalkNode(target, st, ExprNode(MemberRefExpr(Some(dot), bt), range, ty, cs));
            o.st.containerType == bt && (o.st.tok.ValueRef? ==> o.st.tok.containerType == bt)
  {
    var n := ExprNode(MemberRefExpr(Some(dot), bt), range, ty, cs);
    assert ExprPre(target, st, n) == st.(containerType := bt);
    WalkForestKeepsContainer(target, st.(containerType := bt), cs, bt);
  }

  /** The same for a self-application whose callee starts at the target. */
  lemma SelfApplyGivesReceiverType(target: Pos, st: State, bt: Ty, range: Span, ty: Ty, cs: seq<Node>)
    requires !IsDone(st) && ForestCaptures(target, cs) <= {bt}
    ensures var o := WalkNode(target, st, ExprNode(SelfApplyExpr(target, bt), range, ty, cs));
            o.st.containerType == bt && (o.st.tok.ValueRef? ==> o.st.tok.containerType == bt)
  {
    var n := ExprNode(SelfApplyExpr(target, bt), range, ty, cs);
    assert ExprPre(target, st, n) == st.(containerType := bt);
    WalkForestKeepsContainer(target, st.(containerType := bt), cs, bt);
  }

  /**
   * The container type outlives resolve. In `let x = a.y`, after resolving
   * `y` just past the dot, resolving the declared name `x` reports the
   * receiver type of `a`, where a fresh resolver reports none.
   */
  lemma StaleContainerTypeExample()
    ensures var x, y := ValueDecl(1, "x"), ValueDecl(2, "y");
            var file := [DeclNode(Value(x), Span(0, 20), 4,
                                  [ExprNode(MemberRefExpr(Some(10), Type(7)), Span(8, 12), Type(3),
                                            [DeclRefSite(y, 11, None, Type(5))])])];
            var first := ResolveState(file, 11, NullType);
            first.tok == ValueRef(y, None, 11, true, Type(5), Type(7), false) &&
            ResolveState(file, 4, first.containerType).tok == ValueRef(x, None, 4, false, NullType, Type(7), false) &&
            ResolveState(file, 4, NullType).tok == ValueRef(x, None, 4, false, NullType, NullType, false)
  {
    var x, y := ValueDecl(1, "x"), ValueDecl(2, "y");
    var ref := DeclRefSite(y, 11, None, Type(5));
    var expr := ExprNode(MemberRefExpr(Some(10), Type(7)), Span(8, 12), Type(3), [ref]);
    var decl := DeclNode(Value(x), Span(0, 20), 4, [expr]);
    var tokY := ValueRef(y, None, 11, true, Type(5), Type(7), false);
    var st0 := State(Invalid, NullType);
    // First resolve, at 11: the dot at 10 sets the receiver type, the reference at 11 is found.
    assert WalkNode(11, State(Invalid, Type(7)), ref) == Outcome(State(tokY, Type(7)), false);
    assert WalkForest(11, State(Invalid, Type(7)), [ref]) == Outcome(State(tokY, Type(7)), false);
    assert WalkForest(11, st0, [expr]) == Outcome(State(tokY, Type(7)), false);
    assert WalkForest(11, st0, [decl]) == Outcome(State(tokY, Type(7)), false);
    // Second resolve, at 4: the declaration's own name matches before anything is entered.
    assert WalkForest(4, State(Invalid, Type(7)), [decl]).st.tok ==
           ValueRef(x, None, 4, false, NullType, Type(7), false);
    assert WalkForest(4, st0, [decl]).st.tok == ValueRef(x, None, 4, false, NullType, NullType, false);
  }

  // ---------------------------------------------------------------------------
  // Completeness on well-formed trees

  /** Every site of `n` lies inside `range`. */
  predicate SitesInside(n: Node, range: Span) {
    forall s :: s in NodeSites(n) ==> InSpan(range, s.loc)
  }

  /**
   * A well-formed tree: the sites under a declaration or a non-implicit
   * statement lie inside its range (implicit statements are exempt, as their
   * ranges may not cover what they were built from).
   */
  ghost predicate WellFormed(n: Node)
    decreases n
  {
    match n
    case DeclNode(_, range, _, children) => SitesInside(n, range) && WellFormedForest(children)
    case StmtNode(range, isImplicit, children) =>
      (!isImplicit ==> SitesInside(n, range)) && WellFormedForest(children)
    case ExprNode(_, _, _, children) => WellFormedForest(children)
    case _ => true
  }

  ghost predicate WellFormedForest(cs: seq<Node>)
    decreases cs
  {
    cs != [] ==> WellFormed(cs[0]) && WellFormedForest(cs[1..])
  }

  /** Once found, the walk never forgets that it found something. */
  lemma {:induction false} WalkNodeStaysDone(target: Pos, st: State, n: Node)
    requires IsDone(st)
    ensures IsDone(WalkNode(target, st, n).st)
    decreases n
  {
    match n
    case DeclNode(_, _, _, children) =>
      var (st1, enter) := DeclPre(target, st, n);
      if enter {
        WalkForestStaysDone(target, st1, children);
      }
    case StmtNode(_, _, children) =>
      WalkForestStaysDone(target, st, children);
    case ExprNode(_, _, _, children) =>
      WalkForestStaysDone(target, ExprPre(target, st, n), children);
    case _ =>
  }

  lemma {:induction false} WalkForestStaysDone(target: Pos, st: State, cs: seq<Node>)
    requires IsDone(st)
    ensures IsDone(WalkForest(target, st, cs).st)
    decreases cs
  {
    if cs != [] {
      WalkNodeStaysDone(target, st, cs[0]);
      var o := WalkNode(target, st, cs[0]);
      if o.cont {
        WalkForestStaysDone(target, o.st, cs[1..]);
      }
    }
  }

  /**
   * The walk stops only once a token is found. The post-callback of a
   * declaration or of a non-implicit statement runs only after its
   * pre-callback saw the target inside the range, so their "target before
   * the start" test never ends the walk.
   */
  lemma {:induction false} WalkNodeStopsOnlyWhenDone(target: Pos, st: State, n: Node)
    ensures var o := WalkNode(target, st, n); !o.cont ==> IsDone(o.st)
    decreases n
  {
    match n
    case DeclNode(_, _, _, children) =>
      var (st1, enter) := DeclPre(target, st, n);
      if enter {
        WalkForestStopsOnlyWhenDone(target, st1, children);
      }
    case StmtNode(_, _, children) =>
      if StmtPre(target, n) {
        WalkForestStopsOnlyWhenDone(target, st, children);
      }
    case ExprNode(_, _, _, children) =>
      WalkForestStopsOnlyWhenDone(target, ExprPre(target, st, n), children);
    case _ =>
  }

  lemma {:induction false} WalkForestStopsOnlyWhenDone(target: Pos, st: State, cs: seq<Node>)
    ensures var o := WalkForest(target, st, cs); !o.cont ==> IsDone(o.st)
    decreases cs
  {
    if cs != [] {
      WalkNodeStopsOnlyWhenDone(target, st, cs[0]);
      var o := WalkNode(target, st, cs[0]);
      if o.cont {
        WalkForestStopsOnlyWhenDone(target, o.st, cs[1..]);
      }
    }
  }

  lemma {:induction false} WalkNodeComplete(target: Pos, st: State, n: Node, s: Site)
    requires WellFormed(n) && !IsDone(st)
    requires s in NodeSites(n) && Matches(s, target)
    ensures IsDone(WalkNode(target, st, n).st)
    decreases n
  {
    match n
    case DeclNode(k, range, nameLoc, children) =>
      assert InSpan(range, target);
      var (st1, enter) := DeclPre(target, st, n);
      if enter {
        assert k.Value? ==> s != NameSite(k.vd, nameLoc);
        assert s in ForestSites(children);
        WalkForestComplete(target, st1, children, s);
      }
    case StmtNode(range, isImplicit, children) =>
      assert StmtPre(target, n);
      WalkForestComplete(target, st, children, s);
    case ExprNode(_, _, _, children) =>
      WalkForestComplete(target, ExprPre(target, st, n), children, s);
    case _ =>
  }

  lemma {:induction false} WalkForestComplete(target: Pos, st: State, cs: seq<Node>, s: Site)
    requires WellFormedForest(cs) && !IsDone(st)
    requires s in ForestSites(cs) && Matches(s, target)
    ensures IsDone(WalkForest(target, st, cs).st)
    decreases cs
  {
    var o := WalkNode(target, st, cs[0]);
    if IsDone(o.st) {
      if o.cont {
        WalkForestStaysDone(target, o.st, cs[1..]);
      }
    } else if s in NodeSites(cs[0]) {
      WalkNodeComplete(target, st, cs[0], s);
    } else {
      WalkNodeStopsOnlyWhenDone(target, st, cs[0]);
      WalkForestComplete(target, o.st, cs[1..], s);
    }
  }

  /**
   * On a well-formed file, resolve finds a token exactly when some site can
   * match the target: pruning by containment never skips a match. Without
   * well-formedness only "found => matching site" (ResolveSound) holds.
   */
  lemma ResolveFindsIffMatchingSite(decls: seq<Node>, target: Pos, ct: Ty)
    requires WellFormedForest(decls)
    ensures ResolveState(decls, target, ct).tok.IsValid() <==>
            exists s :: s in ForestSites(decls) && Matches(s, target)
  {
    ResolveSound(decls, target, ct);
    if s :| s in ForestSites(decls) && Matches(s, target) {
      WalkForestComplete(target, State(Invalid, ct), decls, s);
    }
  }

  // ---------------------------------------------------------------------------
  // Reuse: resolve twice at one location

  /** Two tokens equal except that one carries container type `x` where the other carries `y`. */
  predicate SameUpToContainer(a: SemaToken, b: SemaToken, x: Ty, y: Ty) {
    a == b ||
    (a.ValueRef? && b.ValueRef? && a.containerType == x && b.containerType == y &&
     a.(containerType := y) == b)
  }

  /** Two runs of one walk that started with container types `x` and `y` and have not captured a receiver yet. */
  predicate Aligned(a: State, b: State, x: Ty, y: Ty) {
    a == b ||
    (a.containerType == x && b.containerType == y && SameUpToContainer(a.tok, b.tok, x, y))
  }

  lemma {:induction false} WalkNodeAligned(target: Pos, a: State, b: State, x: Ty, y: Ty, n: Node)
    requires Aligned(a, b, x, y)
    ensures var oa, ob := WalkNode(target, a, n), WalkNode(target, b, n);
            oa.cont == ob.cont && Aligned(oa.st, ob.st, x, y)
    decreases n
  {
    if a != b {
      assert IsDone(a) == IsDone(b);
      match n
      case DeclNode(_, _, _, children) =>
        var (a1, ea) := DeclPre(target, a, n);
        var (b1, eb) := DeclPre(target, b, n);
        assert ea == eb && Aligned(a1, b1, x, y);
        if ea {
          WalkForestAligned(target, a1, b1, x, y, children);
        }
      case StmtNode(_, _, children) =>
        WalkForestAligned(target, a, b, x, y, children);
      case ExprNode(_, _, _, children) =>
        WalkForestAligned(target, ExprPre(target, a, n), ExprPre(target, b, n), x, y, children);
      case _ =>
    }
  }

  lemma {:induction false} WalkForestAligned(target: Pos, a: State, b: State, x: Ty, y: Ty, cs: seq<Node>)
    requires Aligned(a, b, x, y)
    ensures var oa, ob := WalkForest(target, a, cs), WalkForest(target, b, cs);
            oa.cont == ob.cont && Aligned(oa.st, ob.st, x, y)
    decreases cs
  {
    if cs != [] {
      WalkNodeAligned(target, a, b, x, y, cs[0]);
      var oa, ob := WalkNode(target, a, cs[0]), WalkNode(target, b, cs[0]);
      if oa.cont {
        WalkForestAligned(target, oa.st, ob.st, x, y, cs[1..]);
      }
    }
  }

  /**
   * resolve is safe to reuse: although ContainerType survives from one call
   * to the next, resolving the same location again gives the same token.
   */
  lemma ResolveIdempotent(decls: seq<Node>, target: Pos, ct: Ty)
    ensures var first := ResolveState(decls, target, ct);
            ResolveState(decls, target, first.containerType).tok == first.tok
  {
    var first := ResolveState(decls, target, ct);
    WalkForestAligned(target, State(Invalid, ct), State(Invalid, first.containerType), ct, first.containerType, decls);
  }

  /** A caller that resolves one location twice with the same resolver gets the same token back. */
  method ResolveTwice(r: SemaLocResolver, loc: Pos) returns (first: SemaToken, second: SemaToken)
    modifies r
    ensures first == second
  {
    first := r.Resolve(loc);
    ghost var ct := old(r.containerType);
    second := r.Resolve(loc);
    ResolveIdempotent(r.srcFile.decls, loc, ct);
  }
}
