/**
 * What the range resolver promises, proved about the walk functions of
 * RangeResolution (and so, through RangeResolver.Resolve, about the class).
 *
 * - shouldEnter is exactly "the node's span and the selection share a
 *   location" (touching ends count).
 * - Soundness: a structured result is always an expression or a statement
 *   whose range is exactly the selection, with its type for an expression and
 *   none for a statement; declarations never match; the text is always the
 *   selected text; when nothing matches the result is Invalid.
 * - Completeness: when ranges nest (each child inside its parent), an exact
 *   match anywhere in the file is found.
 */
module RangeResolutionProofs {
  import opened Wrappers
  import opened SourceModel
  import opened Ast
  import opened RangeResolution

  /** shouldEnter holds exactly when the two (well-ordered) spans share a location. */
  lemma ShouldEnterIffOverlap(start: Pos, end: Pos, input: Span)
    requires start <= end && input.start <= input.end
    ensures ShouldEnter(start, end, input) <==> exists p :: InSpan(input, p) && InSpan(Span(start, end), p)
  {
    if ShouldEnter(start, end, input) {
      var p := if input.start < start then start else input.start;
      assert InSpan(input, p) && InSpan(Span(start, end), p);
    }
  }

  /** The results a walk may record in a subtree: its expressions and statements whose range is the selection. */
  function NodeExactMatches(start: Pos, end: Pos, content: string, n: Node): (r: set<ResolvedRangeInfo>)
    ensures forall m :: m in r ==> m.kind != Invalid && m.content == content
    decreases n
  {
    match n
    case DeclNode(_, _, _, children) => ForestExactMatches(start, end, content, children)
    case StmtNode(range, _, children) =>
      (if IsRangeMatch(start, end, range) then {ResolvedRangeInfo(SingleStatement, NullType, content)} else {}) +
      ForestExactMatches(start, end, content, children)
    case ExprNode(_, range, ty, children) =>
      (if IsRangeMatch(start, end, range) then {ResolvedRangeInfo(Expression, ty, content)} else {}) +
      ForestExactMatches(start, end, content, children)
    case _ => {}
  }

  function ForestExactMatches(start: Pos, end: Pos, content: string, cs: seq<Node>): (r: set<ResolvedRangeInfo>)
    ensures forall m :: m in r ==> m.kind != Invalid && m.content == content
    decreases cs
  {
    if cs == [] then {}
    else NodeExactMatches(start, end, content, cs[0]) + ForestExactMatches(start, end, content, cs[1..])
  }

  predicate ResultIn(result: Option<ResolvedRangeInfo>, matches: set<ResolvedRangeInfo>) {
    result.Some? ==> result.value in matches
  }

  lemma {:induction false} WalkNodeSound(start: Pos, end: Pos, content: string,
                                         result: Option<ResolvedRangeInfo>, n: Node, matches: set<ResolvedRangeInfo>)
    requires ResultIn(result, matches)
    ensures ResultIn(WalkNode(start, end, content, result, n).result,
                     matches + NodeExactMatches(start, end, content, n))
    decreases n
  {
    var all := matches + NodeExactMatches(start, end, content, n);
    match n
    case DeclNode(_, _, _, children) =>
      WalkForestSound(start, end, content, result, children, matches);
    case StmtNode(_, _, children) =>
      var pre := StmtPre(start, end, content, result, n);
      assert ResultIn(pre.result, all);
      WalkForestSound(start, end, content, pre.result, children, all);
      assert all + ForestExactMatches(start, end, content, children) == all;
    case ExprNode(_, _, _, children) =>
      var pre := ExprPre(start, end, content, result, n);
      assert ResultIn(pre.result, all);
      WalkForestSound(start, end, content, pre.result, children, all);
      assert all + ForestExactMatches(start, end, content, children) == all;
    case _ =>
  }

  lemma {:induction false} WalkForestSound(start: Pos, end: Pos, content: string,
                                           result: Option<ResolvedRangeInfo>, cs: seq<Node>, matches: set<ResolvedRangeInfo>)
    requires ResultIn(result, matches)
    ensures ResultIn(WalkForest(start, end, content, result, cs).result,
                     matches + ForestExactMatches(start, end, content, cs))
    decreases cs
  {
    if cs != [] {
      var m1 := matches + NodeExactMatches(start, end, content, cs[0]);
      WalkNodeSound(start, end, content, result, cs[0], matches);
      var o := WalkNode(start, end, content, result, cs[0]);
      if o.cont {
        WalkForestSound(start, end, content, o.result, cs[1..], m1);
      }
      assert m1 + ForestExactMatches(start, end, content, cs[1..]) ==
             matches + ForestExactMatches(start, end, content, cs);
    }
  }

  /**
   * resolve's answer: the selected text always; a structured kind only for an
   * expression (with its type) or a statement (without one) whose range is
   * exactly the selection; Invalid with no type when nothing matches.
   */
  lemma ResolutionSound(start: Pos, end: Pos, content: string, decls: seq<Node>)
    ensures var info := Resolution(start, end, content, decls);
            info.content == content &&
            (info.kind == Invalid ==> info.ty == NullType) &&
            (info.kind != Invalid ==> info in ForestExactMatches(start, end, content, decls)) &&
            (ForestExactMatches(start, end, content, decls) == {} ==>
               info == ResolvedRangeInfo(Invalid, NullType, content))
  {
    WalkForestSound(start, end, content, None, decls, {});
  }

  // ---------------------------------------------------------------------------
  // Completeness when ranges nest

  /** Each range is well-ordered and every child's range lies inside its parent's. */
  ghost predicate Nested(n: Node)
    decreases n
  {
    match n
    case DeclNode(_, range, _, children) => range.start <= range.end && NestedIn(children, range)
    case StmtNode(range, _, children) => range.start <= range.end && NestedIn(children, range)
    case ExprNode(_, range, _, children) => range.start <= range.end && NestedIn(children, range)
    case _ => true
  }

  ghost predicate NestedIn(cs: seq<Node>, outer: Span)
    decreases cs
  {
    cs != [] ==>
      Nested(cs[0]) && NestedIn(cs[1..], outer) &&
      (HasRange(cs[0]) ==> outer.start <= cs[0].range.start && cs[0].range.end <= outer.end)
  }

  ghost predicate NestedForest(cs: seq<Node>)
    decreases cs
  {
    cs != [] ==> Nested(cs[0]) && NestedForest(cs[1..])
  }

  predicate HasRange(n: Node) {
    n.DeclNode? || n.StmtNode? || n.ExprNode?
  }

  /** With nesting, a node holding an exact match contains the selection, so it is entered. */
  lemma {:induction false} MatchInsideRange(start: Pos, end: Pos, content: string, n: Node)
    requires Nested(n) && HasRange(n) && NodeExactMatches(start, end, content, n) != {}
    ensures start <= end && n.range.start <= start && end <= n.range.end
    decreases n
  {
    if !IsRangeMatch(start, end, n.range) {
      MatchInsideChildren(start, end, content, n.children, n.range);
    }
  }

  lemma {:induction false} MatchInsideChildren(start: Pos, end: Pos, content: string, cs: seq<Node>, outer: Span)
    requires NestedIn(cs, outer) && ForestExactMatches(start, end, content, cs) != {}
    ensures start <= end && outer.start <= start && end <= outer.end
    decreases cs
  {
    if NodeExactMatches(start, end, content, cs[0]) != {} {
      MatchInsideRange(start, end, content, cs[0]);
    } else {
      MatchInsideChildren(start, end, content, cs[1..], outer);
    }
  }

  lemma NestedInIsNestedForest(cs: seq<Node>, outer: Span)
    requires NestedIn(cs, outer)
    ensures NestedForest(cs)
    decreases cs
  {
    if cs != [] {
      NestedInIsNestedForest(cs[1..], outer);
    }
  }

  /** Once a result is recorded it stays recorded. */
  lemma {:induction false} WalkNodeKeepsResult(start: Pos, end: Pos, content: string,
                                               result: Option<ResolvedRangeInfo>, n: Node)
    requires result.Some?
    ensures WalkNode(start, end, content, result, n).result.Some?
    decreases n
  {
    match n
    case DeclNode(_, _, _, children) =>
      WalkForestKeepsResult(start, end, content, result, children);
    case StmtNode(_, _, children) =>
      WalkForestKeepsResult(start, end, content, StmtPre(start, end, content, result, n).result, children);
    case ExprNode(_, _, _, children) =>
      WalkForestKeepsResult(start, end, content, ExprPre(start, end, content, result, n).result, children);
    case _ =>
  }

  lemma {:induction false} WalkForestKeepsResult(start: Pos, end: Pos, content: string,
                                                 result: Option<ResolvedRangeInfo>, cs: seq<Node>)
    requires result.Some?
    ensures WalkForest(start, end, content, result, cs).result.Some?
    decreases cs
  {
    if cs != [] {
      WalkNodeKeepsResult(start, end, content, result, cs[0]);
      var o := WalkNode(start, end, content, result, cs[0]);
      if o.cont {
        WalkForestKeepsResult(start, end, content, o.result, cs[1..]);
      }
    }
  }

  /** The walk only stops early after recording a result. */
  lemma {:induction false} WalkNodeStopsOnlyWithResult(start: Pos, end: Pos, content: string,
                                                       result: Option<ResolvedRangeInfo>, n: Node)
    ensures var o := WalkNode(start, end, content, result, n); !o.cont ==> o.result.Some?
    decreases n
  {
    match n
    case DeclNode(_, _, _, children) =>
      WalkForestStopsOnlyWithResult(start, end, content, result, children);
    case StmtNode(_, _, children) =>
      WalkForestStopsOnlyWithResult(start, end, content, StmtPre(start, end, content, result, n).result, children);
    case ExprNode(_, _, _, children) =>
      WalkForestStopsOnlyWithResult(start, end, content, ExprPre(start, end, content, result, n).result, children);
    case _ =>
  }

  lemma {:induction false} WalkForestStopsOnlyWithResult(start: Pos, end: Pos, content: string,
                                                         result: Option<ResolvedRangeInfo>, cs: seq<Node>)
    ensures var o := WalkForest(start, end, content, result, cs); !o.cont ==> o.result.Some?
    decreases cs
  {
    if cs != [] {
      WalkNodeStopsOnlyWithResult(start, end, content, result, cs[0]);
      var o := WalkNode(start, end, content, result, cs[0]);
      if o.cont {
        WalkForestStopsOnlyWithResult(start, end, content, o.result, cs[1..]);
      }
    }
  }

  lemma {:induction false} WalkNodeComplete(start: Pos, end: Pos, content: string,
                                            result: Option<ResolvedRangeInfo>, n: Node)
    requires Nested(n) && NodeExactMatches(start, end, content, n) != {}
    ensures WalkNode(start, end, content, result, n).result.Some?
    decreases n
  {
    if result.Some? {
      WalkNodeKeepsResult(start, end, content, result, n);
    } else {
      MatchInsideRange(start, end, content, n);
      assert ShouldEnter(start, end, n.range);
      match n
      case DeclNode(_, range, _, children) =>
        NestedInIsNestedForest(children, range);
        WalkForestComplete(start, end, content, result, children);
      case StmtNode(range, _, children) =>
        if !IsRangeMatch(start, end, range) {
          NestedInIsNestedForest(children, range);
          WalkForestComplete(start, end, content, result, children);
        }
      case ExprNode(_, range, _, children) =>
        if !IsRangeMatch(start, end, range) {
          NestedInIsNestedForest(children, range);
          WalkForestComplete(start, end, content, result, children);
        }
    }
  }

  lemma {:induction false} WalkForestComplete(start: Pos, end: Pos, content: string,
                                              result: Option<ResolvedRangeInfo>, cs: seq<Node>)
    requires NestedForest(cs) && ForestExactMatches(start, end, content, cs) != {}
    ensures WalkForest(start, end, content, result, cs).result.Some?
    decreases cs
  {
    var o := WalkNode(start, end, content, result, cs[0]);
    WalkNodeStopsOnlyWithResult(start, end, content, result, cs[0]);
    if NodeExactMatches(start, end, content, cs[0]) != {} {
      WalkNodeComplete(start, end, content, result, cs[0]);
      if o.cont {
        WalkForestKeepsResult(start, end, content, o.result, cs[1..]);
      }
    } else if o.cont {
      WalkForestComplete(start, end, content, o.result, cs[1..]);
    }
  }

  /** With nested ranges, resolve gives a structured kind exactly when some expression or statement spans the selection. */
  lemma ResolutionFindsIffExactMatch(start: Pos, end: Pos, content: string, decls: seq<Node>)
    requires NestedForest(decls)
    ensures Resolution(start, end, content, decls).kind != Invalid <==>
            ForestExactMatches(start, end, content, decls) != {}
  {
    ResolutionSound(start, end, content, decls);
    if ForestExactMatches(start, end, content, decls) != {} {
      WalkForestComplete(start, end, content, None, decls);
      WalkForestSound(start, end, content, None, decls, {});
      var r := WalkForest(start, end, content, None, decls).result;
      assert r.value in ForestExactMatches(start, end, content, decls);
    }
  }

  /**
   * As written, a match does not stop the walk at once: the matched node's
   * later siblings are still offered to the pre-callback, and one with the
   * very same range replaces the recorded result before the parent's
   * post-callback ends the walk.
   */
  lemma LaterSiblingWithSameRangeReplacesMatch()
    ensures var first := ExprNode(OtherExpr, Span(2, 5), Type(1), []);
            var second := ExprNode(OtherExpr, Span(2, 5), Type(2), []);
            var file := [DeclNode(OtherDecl, Span(0, 10), 0, [StmtNode(Span(0, 10), false, [first, second])])];
            Resolution(2, 5, "sel", file) == ResolvedRangeInfo(Expression, Type(2), "sel")
  {
    var first := ExprNode(OtherExpr, Span(2, 5), Type(1), []);
    var second := ExprNode(OtherExpr, Span(2, 5), Type(2), []);
    var r1 := Some(ResolvedRangeInfo(Expression, Type(1), "sel"));
    assert WalkForest(2, 5, "sel", None, [first, second]).result == WalkForest(2, 5, "sel", r1, [second]).result;
  }
}
