/**
 * getCharLength, getLocationInfo and the Clang fallback getLocationInfoForClangNode.
 *
 * getLocationInfo reports where a declaration is written: an (offset, length)
 * pair inside a buffer, and that buffer's name. Both are out-parameters that
 * keep their incoming value on every path that does not assign them, so the
 * methods below take the incoming values and return the outgoing ones.
 *
 * The Clang side (Lexer::makeFileCharRange, SourceManager::getDecomposedLoc,
 * file entries) is a locator function supplied by the caller: it maps the
 * token range to locate to an (offset, length, file name), or to nothing when
 * the character range is invalid or the location has no file.
 */
module LocationInfo {
  import opened Wrappers
  import opened SourceModel
  import Ast
  import opened RangeResolution
  import RangeResolutionProofs

  const UINT32_LIMIT: nat := 0x1_0000_0000

  /** Conversion of an integer to a 32-bit `unsigned`: C++ reduces it modulo 2^32. */
  function ToUnsigned(x: int): (u: nat)
    ensures u < UINT32_LIMIT
    ensures 0 <= x < UINT32_LIMIT ==> u == x
  {
    x % UINT32_LIMIT
  }

  /**
   * getCharLength: the number of bytes from the range's first token to the end
   * of its last token, as an `unsigned`.
   */
  function CharLength(sm: SourceManager, tokenRange: Span): (n: nat)
    ensures n < UINT32_LIMIT
    ensures tokenRange.start <= EndOfToken(sm, tokenRange.end) < tokenRange.start + UINT32_LIMIT ==>
              n == EndOfToken(sm, tokenRange.end) - tokenRange.start
  {
    ToUnsigned(EndOfToken(sm, tokenRange.end) - tokenRange.start)
  }

  /**
   * A Clang declaration: its location (one token, its name), and the selector
   * start and declarator end when it is an Objective-C method.
   */
  datatype ObjCMethod = ObjCMethod(selectorStart: Pos, declaratorEnd: Pos)
  datatype ClangNode = ClangNode(location: Pos, objcMethod: Option<ObjCMethod>)

  /** Where the Clang SourceManager places a character range: offset and length in a file, and the file's name. */
  datatype ClangLocation = ClangLocation(offset: nat, length: nat, filename: string)

  /** makeFileCharRange, getDecomposedLoc and getFileEntryForID, composed; None where the source returns early. */
  type ClangLocator = Span -> Option<ClangLocation>

  /** The kind of a ValueDecl, as far as its reported length depends on it. */
  datatype DeclShape =
    | AbstractFunction(signature: Option<Span>)  // None: the signature range is invalid
    | OtherValueDecl

  /** A ValueDecl: its name (empty when it has none), its location if valid, its kind and its Clang node if imported. */
  datatype LocatedDecl = LocatedDecl(name: string, loc: Option<Pos>, shape: DeclShape, clangNode: Option<ClangNode>)

  /**
   * getLocationInfoForClangNode: an Objective-C method is located from its
   * selector to the end of its declarator, any other node by the one token at
   * its location;
   * the outputs are assigned only when the locator finds a file location.
   */
  method GetLocationInfoForClangNode(node: ClangNode, locate: ClangLocator,
                                     declarationLoc0: Option<(nat, nat)>, filename0: string)
    returns (declarationLoc: Option<(nat, nat)>, filename: string)
    ensures var sr := if node.objcMethod.Some?
                      then Span(node.objcMethod.value.selectorStart, node.objcMethod.value.declaratorEnd)
                      else Span(node.location, node.location);
            match locate(sr)
            case None => declarationLoc == declarationLoc0 && filename == filename0
            case Some(l) => declarationLoc == Some((l.offset, l.length)) && filename == l.filename
  {
    declarationLoc, filename := declarationLoc0, filename0;
    var sr := Span(node.location, node.location);
    if node.objcMethod.Some? {
      sr := Span(node.objcMethod.value.selectorStart, node.objcMethod.value.declaratorEnd);
    }
    var found := locate(sr);
    if found.None? {
      return;
    }
    filename := found.value.filename;
    declarationLoc := Some((found.value.offset, found.value.length));
  }

  /**
   * getLocationInfo. With a valid location the declaration is reported in the
   * buffer holding it: offset from the buffer's start, length of the
   * signature for a function (nothing at all when the signature range is
   * invalid), of the name for a named declaration, else of the one token at
   * the location. Without one, an imported declaration is located through
   * Clang; otherwise nothing is assigned.
   */
  method GetLocationInfo(sm: SourceManager, locate: ClangLocator, vd: LocatedDecl,
                         declarationLoc0: Option<(nat, nat)>, filename0: string)
    returns (declarationLoc: Option<(nat, nat)>, filename: string)
    requires BuffersDisjoint(sm)
    requires vd.loc.Some? ==> exists i :: 0 <= i < |sm.buffers| && InBuffer(sm.buffers[i], vd.loc.value)
    ensures vd.loc.None? && vd.clangNode.None? ==>
              declarationLoc == declarationLoc0 && filename == filename0
    ensures vd.loc.Some? && vd.shape == AbstractFunction(None) ==>
              declarationLoc == declarationLoc0 && filename == filename0
    ensures vd.loc.Some? && vd.shape != AbstractFunction(None) ==>
              declarationLoc.Some? &&
              forall id :: 0 <= id < |sm.buffers| && InBuffer(sm.buffers[id], vd.loc.value) ==>
                           filename == sm.buffers[id].identifier &&
                           sm.buffers[id].base + declarationLoc.value.0 == vd.loc.value &&
                           declarationLoc.value.0 <= |sm.buffers[id].text|
    ensures vd.loc.Some? && vd.shape.AbstractFunction? && vd.shape.signature.Some? ==>
              declarationLoc.Some? && declarationLoc.value.1 == CharLength(sm, vd.shape.signature.value)
    ensures vd.loc.Some? && vd.shape.OtherValueDecl? && vd.name != [] ==>
              declarationLoc.Some? && declarationLoc.value.1 == ToUnsigned(|vd.name|)
    ensures vd.loc.Some? && vd.shape.OtherValueDecl? && vd.name == [] ==>
              declarationLoc.Some? && declarationLoc.value.1 == CharLength(sm, Span(vd.loc.value, vd.loc.value))
    ensures vd.loc.None? && vd.clangNode.Some? ==>
              var node := vd.clangNode.value;
              var sr := if node.objcMethod.Some?
                        then Span(node.objcMethod.value.selectorStart, node.objcMethod.value.declaratorEnd)
                        else Span(node.location, node.location);
              match locate(sr)
              case None => declarationLoc == declarationLoc0 && filename == filename0
              case Some(l) => declarationLoc == Some((l.offset, l.length)) && filename == l.filename
  {
    declarationLoc, filename := declarationLoc0, filename0;
    if vd.loc.Some? {
      var loc := vd.loc.value;
      var nameLen: nat;
      match vd.shape {
        case AbstractFunction(signature) =>
          if signature.None? {
            return;
          }
          nameLen := CharLength(sm, signature.value);
        case OtherValueDecl =>
          if vd.name != [] {
            nameLen := ToUnsigned(|vd.name|);
          } else {
            nameLen := CharLength(sm, Span(loc, loc));
          }
      }
      var declBufId := FindBufferContainingLoc(sm, loc);
      declarationLoc := Some((loc - sm.buffers[declBufId].base, nameLen));
      filename := sm.buffers[declBufId].identifier;
    } else if vd.clangNode.Some? {
      declarationLoc, filename := GetLocationInfoForClangNode(vd.clangNode.value, locate, declarationLoc, filename);
    }
  }

  // ---------------------------------------------------------------------------
  // Properties

  /**
   * Inside one buffer of less than 4 GiB, getCharLength is the length of the
   * text the range covers, up to the end of its last token.
   */
  lemma CharLengthIsTextLength(sm: SourceManager, b: Buffer, r: Span)
    requires b.base <= r.start <= EndOfToken(sm, r.end) <= b.base + |b.text|
    requires |b.text| < UINT32_LIMIT
    ensures CharLength(sm, r) == |TextBetween(b, r.start, EndOfToken(sm, r.end))|
  {
  }

  /**
   * The text a RangeResolver reports for a selection is exactly getCharLength
   * of the selection long, when the file's buffer is under 4 GiB.
   */
  lemma SelectedTextHasCharLength(sm: SourceManager, file: Ast.SourceFile, start: Pos, end: Pos, decls: seq<Ast.Node>)
    requires ContentAvailable(sm, file, start, end)
    requires |sm.buffers[file.bufferId].text| < UINT32_LIMIT
    ensures var b := sm.buffers[file.bufferId];
            |Resolution(start, end, TextBetween(b, start, EndOfToken(sm, end)), decls).content| ==
            CharLength(sm, Span(start, end))
  {
    var b := sm.buffers[file.bufferId];
    var content := TextBetween(b, start, EndOfToken(sm, end));
    var r := WalkForest(start, end, content, None, decls).result;
    if r.Some? {
      RangeResolutionProofs.ResolutionSound(start, end, content, decls);
    }
  }
}
