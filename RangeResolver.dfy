/**
 * RangeResolver: resolves a selected span [Start, End] (token locations) to
 * the single statement or expression it covers exactly, or to Invalid.
 *
 * The pure functions below say what each walker callback does to the
 * resolver's one piece of state, the optional Result, and what it answers the
 * walker; WalkNode and WalkForest compose them as the simplified walker calls
 * them (see PointResolution). The class RangeResolver merges the public class
 * with its private Implementation and is proved to follow these functions.
 */
module RangeResolution {
  import opened Wrappers
  import opened SourceModel
  import opened Ast

  datatype RangeKind = Invalid | SingleStatement | Expression

  /** ResolvedRangeInfo: what was selected, its type (expressions only) and the selected text. */
  datatype ResolvedRangeInfo = ResolvedRangeInfo(kind: RangeKind, ty: Ty, content: string)

  /** isRangeMatch: both ends of `input` are the selection's ends, so `input` is the selection. */
  predicate IsRangeMatch(start: Pos, end: Pos, input: Span)
    ensures IsRangeMatch(start, end, input) <==> input == Span(start, end)
  {
    input.start == start && input.end == end
  }

  /**
   * shouldEnter: `input` neither starts after the selection ends nor ends
   * before it starts. An exact match of a well-ordered selection is always
   * entered, so it can be recorded.
   */
  predicate ShouldEnter(start: Pos, end: Pos, input: Span)
    ensures start <= end && IsRangeMatch(start, end, input) ==> ShouldEnter(start, end, input)
  {
    !IsBeforeInBuffer(end, input.start) && !IsBeforeInBuffer(input.end, start)
  }

  /** The result so far, and whether the walk goes on (for a pre-callback: whether to enter). */
  datatype Outcome = Outcome(result: Option<ResolvedRangeInfo>, cont: bool)

  /** walkToExprPre: record an exact match as an Expression with the expression's type; enter only while nothing is recorded. */
  function ExprPre(start: Pos, end: Pos, content: string, result: Option<ResolvedRangeInfo>, n: Node): Outcome
    requires n.ExprNode?
  {
    if !ShouldEnter(start, end, n.range) then Outcome(result, false)
    else
      var r := if IsRangeMatch(start, end, n.range)
               then Some(ResolvedRangeInfo(Expression, n.ty, content)) else result;
      Outcome(r, r.None?)
  }

  /** walkToStmtPre: record an exact match as a SingleStatement without a type. */
  function StmtPre(start: Pos, end: Pos, content: string, result: Option<ResolvedRangeInfo>, n: Node): Outcome
    requires n.StmtNode?
  {
    if !ShouldEnter(start, end, n.range) then Outcome(result, false)
    else
      var r := if IsRangeMatch(start, end, n.range)
               then Some(ResolvedRangeInfo(SingleStatement, NullType, content)) else result;
      Outcome(r, r.None?)
  }

  /** The walk of one node. Declarations only gate the descent; every post-callback stops once a result exists. */
  function WalkNode(start: Pos, end: Pos, content: string, result: Option<ResolvedRangeInfo>, n: Node): Outcome
    decreases n
  {
    match n
    case DeclNode(_, range, _, children) =>
      if !ShouldEnter(start, end, range) then Outcome(result, true)
      else
        var o := WalkForest(start, end, content, result, children);
        if !o.cont then o else Outcome(o.result, o.result.None?)
    case StmtNode(_, _, children) =>
      var pre := StmtPre(start, end, content, result, n);
      if !pre.cont then Outcome(pre.result, true)
      else
        var o := WalkForest(start, end, content, pre.result, children);
        if !o.cont then o else Outcome(o.result, o.result.None?)
    case ExprNode(_, _, _, children) =>
      var pre := ExprPre(start, end, content, result, n);
      if !pre.cont then Outcome(pre.result, true)
      else
        var o := WalkForest(start, end, content, pre.result, children);
        if !o.cont then o else Outcome(o.result, o.result.None?)
    case _ =>
      // The reference callbacks keep SourceEntityWalker's default: go on.
      Outcome(result, true)
  }

  function WalkForest(start: Pos, end: Pos, content: string, result: Option<ResolvedRangeInfo>, cs: seq<Node>): Outcome
    decreases cs
  {
    if cs == [] then Outcome(result, true)
    else
      var o := WalkNode(start, end, content, result, cs[0]);
      if !o.cont then o else WalkForest(start, end, content, o.result, cs[1..])
  }

  /** resolve: the recorded result of walking the file, else Invalid with no type and the selected text. */
  function Resolution(start: Pos, end: Pos, content: string, decls: seq<Node>): ResolvedRangeInfo {
    var r := WalkForest(start, end, content, None, decls).result;
    if r.Some? then r.value else ResolvedRangeInfo(Invalid, NullType, content)
  }

  /** The selected text can be read: from `start` to the end of `end`'s token, inside the file's buffer. */
  predicate ContentAvailable(sm: SourceManager, file: SourceFile, start: Pos, end: Pos) {
    file.bufferId < |sm.buffers| &&
    var b := sm.buffers[file.bufferId];
    b.base <= start <= EndOfToken(sm, end) <= b.base + |b.text|
  }

  class RangeResolver {
    const sm: SourceManager
    const file: SourceFile
    const start: Pos
    const end: Pos
    var result: Option<ResolvedRangeInfo>

    predicate Valid() {
      ContentAvailable(sm, file, start, end)
    }

    /** The selection is only stored here; it is read when resolving. */
    constructor (sm: SourceManager, file: SourceFile, start: Pos, end: Pos)
      ensures this.sm == sm && this.file == file && this.start == start && this.end == end
      ensures result == None
    {
      this.sm, this.file, this.start, this.end := sm, file, start, end;
      result := None;
    }

    /** getContent: the text from the selection's start to the end of its last token. */
    function GetContent(): (s: string)
      requires Valid()
      ensures |s| == EndOfToken(sm, end) - start
      ensures forall k :: 0 <= k < |s| ==>
                s[k] == sm.buffers[file.bufferId].text[start - sm.buffers[file.bufferId].base + k]
    {
      TextBetween(sm.buffers[file.bufferId], start, EndOfToken(sm, end))
    }

    /** hasResult: a result is recorded. */
    predicate HasResult()
      reads this
      ensures HasResult() <==> result != None
    {
      result.Some?
    }

    /** getResult: the recorded result, or Invalid with a null type and the selected text. */
    function GetResult(): (info: ResolvedRangeInfo)
      requires Valid()
      reads this
      ensures result.Some? ==> info == result.value
      ensures result.None? ==> info.kind == Invalid && info.ty == NullType && info.content == GetContent()
    {
      if result.Some? then result.value else ResolvedRangeInfo(Invalid, NullType, GetContent())
    }

    method WalkToExprPre(n: Node) returns (enter: bool)
      requires Valid() && n.ExprNode?
      modifies this`result
      ensures !ShouldEnter(start, end, n.range) ==> !enter && result == old(result)
      ensures ShouldEnter(start, end, n.range) ==>
                result == (if IsRangeMatch(start, end, n.range)
                           then Some(ResolvedRangeInfo(Expression, n.ty, GetContent())) else old(result)) &&
                (enter <==> result.None?)
    {
      if !ShouldEnter(start, end, n.range) {
        return false;
      }
      if IsRangeMatch(start, end, n.range) {
        result := Some(ResolvedRangeInfo(Expression, n.ty, GetContent()));
      }
      return !HasResult();
    }

    method WalkToStmtPre(n: Node) returns (enter: bool)
      requires Valid() && n.StmtNode?
      modifies this`result
      ensures !ShouldEnter(start, end, n.range) ==> !enter && result == old(result)
      ensures ShouldEnter(start, end, n.range) ==>
                result == (if IsRangeMatch(start, end, n.range)
                           then Some(ResolvedRangeInfo(SingleStatement, NullType, GetContent())) else old(result)) &&
                (enter <==> result.None?)
    {
      if !ShouldEnter(start, end, n.range) {
        return false;
      }
      if IsRangeMatch(start, end, n.range) {
        result := Some(ResolvedRangeInfo(SingleStatement, NullType, GetContent()));
      }
      return !HasResult();
    }

    /** walkToDeclPre: a declaration is entered when it overlaps the selection; it is never a match. */
    method WalkToDeclPre(n: Node) returns (enter: bool)
      requires n.DeclNode?
      ensures enter <==> ShouldEnter(start, end, n.range)
    {
      return ShouldEnter(start, end, n.range);
    }

    method WalkToExprPost(n: Node) returns (cont: bool)
      ensures cont <==> result.None?
    {
      return !HasResult();
    }

    method WalkToStmtPost(n: Node) returns (cont: bool)
      ensures cont <==> result.None?
    {
      return !HasResult();
    }

    method WalkToDeclPost(n: Node) returns (cont: bool)
      ensures cont <==> result.None?
    {
      return !HasResult();
    }

    method Walk(n: Node) returns (cont: bool)
      requires Valid()
      modifies this`result
      ensures Outcome(result, cont) == WalkNode(start, end, GetContent(), old(result), n)
      decreases n
    {
      match n
      case DeclNode(_, _, _, children) =>
        var enter := WalkToDeclPre(n);
        if !enter {
          return true;
        }
        cont := WalkChildren(children);
        if cont {
          cont := WalkToDeclPost(n);
        }
      case StmtNode(_, _, children) =>
        var enter := WalkToStmtPre(n);
        if !enter {
          return true;
        }
        cont := WalkChildren(children);
        if cont {
          cont := WalkToStmtPost(n);
        }
      case ExprNode(_, _, _, children) =>
        var enter := WalkToExprPre(n);
        if !enter {
          return true;
        }
        cont := WalkChildren(children);
        if cont {
          cont := WalkToExprPost(n);
        }
      case _ =>
        cont := true;
    }

    method WalkChildren(cs: seq<Node>) returns (cont: bool)
      requires Valid()
      modifies this`result
      ensures Outcome(result, cont) == WalkForest(start, end, GetContent(), old(result), cs)
      decreases cs
    {
      var i := 0;
      while i < |cs|
        invariant 0 <= i <= |cs|
        invariant WalkForest(start, end, GetContent(), result, cs[i..]) ==
                  WalkForest(start, end, GetContent(), old(result), cs)
      {
        assert cs[i..][0] == cs[i] && cs[i..][1..] == cs[i + 1..];
        cont := Walk(cs[i]);
        if !cont {
          return;
        }
        i := i + 1;
      }
      return true;
    }

    /**
     * resolve: walk the file, then report the recorded result or Invalid with
     * the selected text. Result is not reset, so only the first call on a
     * fresh resolver is the Resolution of the selection.
     */
    method Resolve() returns (info: ResolvedRangeInfo)
      requires Valid()
      modifies this`result
      ensures result == WalkForest(start, end, GetContent(), old(result), file.decls).result
      ensures info == GetResult()
      ensures old(result) == None ==> info == Resolution(start, end, GetContent(), file.decls)
    {
      var _ := WalkChildren(file.decls);
      info := GetResult();
    }
  }
}
