# SwiftSourceDocInfo in Dafny

A model of the cursor-information core of the Swift IDE library,
`lib/IDE/SwiftSourceDocInfo.cpp`. It has four parts:

- **`parseLineCol`** (module `LineCol`) reads a `"<line>:<column>"` position.
  - Both halves are read as base-10 `unsigned` values, following LLVM's `StringRef::getAsInteger`.
  - Lines and columns start at 1.
- **`SemaLocResolver`** (modules `PointResolution`, `PointResolutionProofs`) walks a source file to find the semantic token at one location. The token is one of:
  - a declaration's name;
  - a reference, including subscript brackets;
  - a call-argument label;
  - a module reference.

  The resolver is a class with the source's mutable fields `locToResolve`, `semaTok` and `containerType`. One method stands for each walker callback. Its `Walk`/`Resolve` methods are proved equal to the pure functions `WalkNode`/`WalkForest`/`ResolveState`, and the properties are proved about those functions.
- **`RangeResolver`** (modules `RangeResolution`, `RangeResolutionProofs`) resolves a selected token range to the one expression or statement it covers exactly, or to `Invalid`.
  - The public class and its private `Implementation` are merged into one Dafny class.
  - The state is the optional `result`.
- **`getCharLength` / `getLocationInfo`** (module `LocationInfo`) compute a declaration's `(offset, length)` in its buffer and the buffer's name. When the declaration has no native location, Clang is asked instead.

Shared modules:
- `SourceModel`:
  - source locations are integers;
  - a token range `Span(start, end)` ends at the start of its last token;
  - `isBeforeInBuffer` is `<`;
  - each buffer has an identifier, a base location and its text;
  - the lexer is an opaque token-length function.
- `Ast`: declarations, statements and expressions, each with a range and children, plus the leaf reference sites that the walker reports through its `visit*` callbacks.
- `Wrappers`: `Option`.

The walker (`SourceEntityWalker` over `ASTWalker`) is modelled as follows:
- A pre-callback that answers false skips the node's children and its post-callback.
- A post-callback or a reference callback that answers false ends the whole walk.
- Children are visited in order.

Behaviour worth noting:

- Containment is checked before the `ExtensionDecl` early return (lines 95-99). An extension that does not contain the target is therefore pruned like any other declaration. Completeness is proved with this pruning.
- In `RangeResolver`, a recorded match does not stop the walk at once. The matched node's later siblings still reach `walkToExprPre`/`walkToStmtPre`. A sibling with exactly the same range replaces the result before the parent's post-callback ends the walk. `LaterSiblingWithSameRangeReplacesMatch` exhibits this. The soundness lemma therefore says that the result is *an* exact match, not the first one.
- `resolve` does not reset `ContainerType` (lines 86-92).
  - Resolving the same location twice still gives the same token (`ResolveIdempotent`, `ResolveTwice`).
  - A resolve at another location can report the receiver type left by an earlier call. In `let x = a.y`, after resolving `y` just past the dot, resolving the declared name `x` reports the type of `a`; a fresh resolver reports none (`StaleContainerTypeExample`).

## Model

| member | source | states |
|---|---|---|
| LineCol.Find | lib/IDE/SwiftSourceDocInfo.cpp:25 | `find(':')`: None exactly when there is no ':'; otherwise the index of the first ':' |
| LineCol.ParseLineCol | lib/IDE/SwiftSourceDocInfo.cpp:22-45 | no ':' gives None; a parsed line and column are both in 1 .. 2^32-1 |
| LineCol.GetAsUnsigned | lib/IDE/SwiftSourceDocInfo.cpp:30 | `getAsInteger(10, unsigned&)`: an empty text fails, and a value read fits in 32 bits |
| LineCol.ConsumeDigitsValue | lib/IDE/SwiftSourceDocInfo.cpp:30 | the digit loop yields the decimal value of the text when it is all digits and fits in 64 bits, otherwise fails |
| LineCol.GetAsUnsignedCorrect | lib/IDE/SwiftSourceDocInfo.cpp:30-37 | `getAsInteger(10, unsigned&)` succeeds exactly on a non-empty all-digit text whose value fits in 32 bits, and returns that value |
| LineCol.ParseLineColCharacterization | lib/IDE/SwiftSourceDocInfo.cpp:22-45 | parseLineCol gives (line, col) if and only if the text splits at a ':' into two unsigned numerals of values line and col, both at least 1 |
| LineCol.ParseLineColRoundTrip | lib/IDE/SwiftSourceDocInfo.cpp:22-45 | every line and column in 1 .. 2^32-1, printed as "L:C", parses back to (L, C) |
| LineCol.MalformedPositionsRejected | lib/IDE/SwiftSourceDocInfo.cpp:25-42 | "5", "abc", "5:", ":5", "1:2:3", "0:5" and "5:0" are all rejected |
| PointResolution.SemaLocResolver.TryResolve | lib/IDE/SwiftSourceDocInfo.cpp:60-70 | the token is overwritten, and true returned, exactly when the declaration has a name and the location is the target; otherwise the token is unchanged |
| PointResolution.SemaLocResolver.TryResolveModuleRef | lib/IDE/SwiftSourceDocInfo.cpp:72-78 | a module token is recorded, and true returned, exactly when the location is the target |
| PointResolution.SemaLocResolver.VisitSubscriptReference | lib/IDE/SwiftSourceDocInfo.cpp:80-84 | either bracket behaves as a reference to the subscript with no constructor type and a null type |
| PointResolution.SemaLocResolver.Resolve | lib/IDE/SwiftSourceDocInfo.cpp:86-92 | sets the target, resets the token (not the container type), and leaves the state that the walk function gives from there; returns the token |
| PointResolution.SemaLocResolver.WalkToDeclPre | lib/IDE/SwiftSourceDocInfo.cpp:94-106 | a declaration not containing the target is pruned; a containing extension or non-value declaration is entered; a value declaration's name at the target is recorded with IsRef false and stops the descent |
| PointResolution.SemaLocResolver.WalkToDeclPost | lib/IDE/SwiftSourceDocInfo.cpp:108-114 | the walk goes on exactly when nothing is found and the target is not before the declaration's start |
| PointResolution.SemaLocResolver.WalkToStmtPre | lib/IDE/SwiftSourceDocInfo.cpp:116-122 | a statement is entered exactly when it is implicit or contains the target |
| PointResolution.SemaLocResolver.WalkToStmtPost | lib/IDE/SwiftSourceDocInfo.cpp:124-133 | the walk goes on exactly when nothing is found and the statement is implicit or the target is not before its start |
| PointResolution.SemaLocResolver.VisitDeclReference | lib/IDE/SwiftSourceDocInfo.cpp:135-140 | once found, the walk stops; otherwise a named reference at the target is recorded with IsRef true and stops the walk |
| PointResolution.SemaLocResolver.WalkToExprPre | lib/IDE/SwiftSourceDocInfo.cpp:142-156 | never prunes; while searching, takes the base type as container type when a self-application's callee starts at the target or a member reference's dot is just before it |
| PointResolution.SemaLocResolver.VisitCallArgName | lib/IDE/SwiftSourceDocInfo.cpp:158-166 | a matched argument label is recorded as a reference with IsKeywordArgument set, and stops the walk |
| PointResolution.SemaLocResolver.VisitModuleReference | lib/IDE/SwiftSourceDocInfo.cpp:168-175 | once found the walk stops; the builtin module is ignored and the walk goes on; another module at the target is recorded |
| PointResolution.SemaLocResolver.Walk | lib/IDE/SwiftSourceDocInfo.cpp:94-175 | the callbacks, composed as the walker calls them, change the state exactly as the walk function of one node says |
| PointResolution.SemaLocResolver.WalkChildren | lib/IDE/SwiftSourceDocInfo.cpp:90 | walking children in order until one stops the walk equals the walk function of the sequence |
| PointResolutionProofs.ResolveSound | lib/IDE/SwiftSourceDocInfo.cpp:60-175 | a found token comes from a site at the target (a named value or a non-builtin module) and has that site's shape; a value token's container type is the previous one or a base type captured at the target |
| PointResolutionProofs.ResolvedTokenFlags | lib/IDE/SwiftSourceDocInfo.cpp:60-175 | a token lies at the target; IsRef is false only for a declaration's own name; IsKeywordArgument only for an argument label, which is a reference; a module token never names the builtin module |
| PointResolutionProofs.MemberRefGivesReceiverType | lib/IDE/SwiftSourceDocInfo.cpp:148-152 | resolving just after a member reference's dot, while searching, makes the base's type the container type, and a value token found inside carries it |
| PointResolutionProofs.SelfApplyGivesReceiverType | lib/IDE/SwiftSourceDocInfo.cpp:144-147 | resolving at the callee of a self-application, while searching, makes the base's type the container type, and a value token found inside carries it |
| PointResolutionProofs.StaleContainerTypeExample | lib/IDE/SwiftSourceDocInfo.cpp:86-92 | the container type left by one resolve is carried by the token of a later resolve at another location; a fresh resolver gives the null type there |
| PointResolutionProofs.WalkNodeStopsOnlyWhenDone | lib/IDE/SwiftSourceDocInfo.cpp:108-133 | the walk of a node stops only once a token is found: the post-callbacks' "target before the start" test never ends the walk, as their pre-callbacks already saw the target inside the range |
| PointResolutionProofs.ResolveFindsIffMatchingSite | lib/IDE/SwiftSourceDocInfo.cpp:94-133 | on a well-formed tree, resolve finds a token if and only if some site matches the target, despite the pruning |
| PointResolutionProofs.ResolveIdempotent | lib/IDE/SwiftSourceDocInfo.cpp:86-92 | resolving a location again, with the container type left by the first call, gives the same token |
| PointResolutionProofs.ResolveTwice | lib/IDE/SwiftSourceDocInfo.cpp:86-92 | two calls of resolve at one location on one resolver return the same token |
| RangeResolution.IsRangeMatch | lib/IDE/SwiftSourceDocInfo.cpp:185-187 | a range matches exactly when it is the selection itself |
| RangeResolution.ShouldEnter | lib/IDE/SwiftSourceDocInfo.cpp:189-196 | an exact match of a well-ordered selection always passes shouldEnter |
| RangeResolution.RangeResolver.constructor | lib/IDE/SwiftSourceDocInfo.cpp:214-215 | stores the file and the selection, with no result recorded |
| RangeResolution.RangeResolver.HasResult | lib/IDE/SwiftSourceDocInfo.cpp:198-200 | a result is recorded exactly when `result` is set |
| RangeResolution.RangeResolver.GetContent | lib/IDE/SwiftSourceDocInfo.cpp:208-211 | the text from the selection's start to the end of its last token, character by character |
| RangeResolution.RangeResolver.GetResult | lib/IDE/SwiftSourceDocInfo.cpp:202-206 | the recorded result, or Invalid with a null type and the selected text |
| RangeResolution.RangeResolver.WalkToExprPre | lib/IDE/SwiftSourceDocInfo.cpp:219-227 | an expression outside the selection is skipped; an exact match is recorded as Expression with its type; it is entered exactly when nothing is recorded |
| RangeResolution.RangeResolver.WalkToStmtPre | lib/IDE/SwiftSourceDocInfo.cpp:229-237 | the same for statements, recorded as SingleStatement with no type |
| RangeResolution.RangeResolver.WalkToDeclPre | lib/IDE/SwiftSourceDocInfo.cpp:240-242 | a declaration is entered exactly when it overlaps the selection, and is never recorded |
| RangeResolution.RangeResolver.WalkToExprPost | lib/IDE/SwiftSourceDocInfo.cpp:244-246 | the walk goes on exactly while nothing is recorded |
| RangeResolution.RangeResolver.WalkToStmtPost | lib/IDE/SwiftSourceDocInfo.cpp:248-250 | the walk goes on exactly while nothing is recorded |
| RangeResolution.RangeResolver.WalkToDeclPost | lib/IDE/SwiftSourceDocInfo.cpp:252-254 | the walk goes on exactly while nothing is recorded |
| RangeResolution.RangeResolver.Walk | lib/IDE/SwiftSourceDocInfo.cpp:219-254 | the callbacks, composed as the walker calls them, change the result exactly as the walk function of one node says |
| RangeResolution.RangeResolver.WalkChildren | lib/IDE/SwiftSourceDocInfo.cpp:257 | walking children in order until one stops the walk equals the walk function of the sequence |
| RangeResolution.RangeResolver.Resolve | lib/IDE/SwiftSourceDocInfo.cpp:256-260 | on a fresh resolver the answer is the Resolution of the selection; in general it is the result left by the walk, or Invalid with the selected text |
| RangeResolutionProofs.ShouldEnterIffOverlap | lib/IDE/SwiftSourceDocInfo.cpp:189-196 | shouldEnter holds if and only if the node's span and the selection share a location (touching ends count) |
| RangeResolutionProofs.ResolutionSound | lib/IDE/SwiftSourceDocInfo.cpp:219-260 | the answer always carries the selected text; a structured kind is an expression (with its type) or statement (no type) whose range is exactly the selection; with no exact match the answer is Invalid with a null type |
| RangeResolutionProofs.ResolutionFindsIffExactMatch | lib/IDE/SwiftSourceDocInfo.cpp:219-260 | when ranges nest, the answer is structured if and only if some expression or statement spans exactly the selection |
| RangeResolutionProofs.LaterSiblingWithSameRangeReplacesMatch | lib/IDE/SwiftSourceDocInfo.cpp:219-227 | of two sibling expressions with the selection's exact range, the later one is the answer |
| LocationInfo.ToUnsigned | lib/IDE/SwiftSourceDocInfo.cpp:296-297 | conversion to `unsigned`: below 2^32, and the value itself when it fits |
| LocationInfo.CharLength | lib/IDE/SwiftSourceDocInfo.cpp:295-298 | getCharLength is below 2^32 and, when it fits, the distance from the range's start to the end of its last token |
| LocationInfo.CharLengthIsTextLength | lib/IDE/SwiftSourceDocInfo.cpp:295-298 | inside one buffer under 4 GiB, getCharLength is the length of the text the range covers |
| LocationInfo.SelectedTextHasCharLength | lib/IDE/SwiftSourceDocInfo.cpp:208-211 | the text a RangeResolver reports is exactly getCharLength of the selection long |
| LocationInfo.GetLocationInfoForClangNode | lib/IDE/SwiftSourceDocInfo.cpp:262-293 | an Objective-C method is located from selector start to declarator end, any other node by the one token at its location (its name); outputs are assigned only when the location is found in a file |
| LocationInfo.GetLocationInfo | lib/IDE/SwiftSourceDocInfo.cpp:300-334 | with a valid location, the buffer holding it is named and the offset leads back from that buffer's start to the location; the length is the signature's character length for a function (outputs untouched when the signature range is invalid), else the name's length when named, else one token's length; with no location, the Clang locator decides; with neither, outputs untouched |

## Left out

- The `llvm::errs()` diagnostics of `parseLineCol` are output only; the model keeps the `None` result.
- `XMLEscapingPrinter::printText`/`printXML` forward to an XML-escaping routine that is not part of this model.
- `SemaLocResolver::getSourceMgr` is an accessor. The point resolver needs no source manager in the model: `isBeforeInBuffer` is `<` and containment is `InSpan`.
- The `assert(Loc.isValid())` in `resolve`: every modelled location is valid.
- The `RangeResolver` constructor's `new`/`delete` of its `Implementation` is memory management. The two classes are merged.
- `SourceEntityWalker`/`ASTWalker` are not part of this model; the walker is simplified as described above.
  - Only the callbacks the two resolvers override are modelled.
  - A non-overridden callback keeps its default of continuing.
- The Swift type system is not modelled: a type is an opaque identifier or the null type.
- Locations and buffers are simplified:
  - `SourceManager` buffers are a sequence of (identifier, base, text).
  - `Lexer::getLocForEndOfToken` is an opaque token length.
  - `isBeforeInBuffer` is `<` on integer locations.
- LLVM's code for `StringRef::getAsInteger` is not part of this model. `GetAsUnsigned` stands for it, with its decimal behaviour, the 64-bit overflow check and the 32-bit range check.
- Text is UTF-8 bytes, one Dafny `char` per byte. The name length and the buffer offsets therefore count bytes, as `Identifier::getLength` and the SourceManager do. The model does not relate these bytes to Unicode characters.
- LocationInfo.GetLocationInfo: the registered buffers are assumed disjoint (`BuffersDisjoint`). Swift's SourceManager is not part of this model, so the model does not say which buffer the program picks when buffers do share a location.
- LocationInfo.GetLocationInfoForClangNode: the Clang `makeFileCharRange`, `getDecomposedLoc` and file-entry lookup are a caller-supplied locator. The model does not capture how the Clang length is computed, which is an `unsigned` difference of two file offsets.
- LocationInfo.GetLocationInfo: `getLocOffsetInBuffer` is taken as the exact difference of the location and the buffer's start. The model does not reduce it modulo 2^32, since buffers are assumed smaller than 4 GiB.
- PointResolutionProofs.ResolveFindsIffMatchingSite: completeness is proved only for well-formed trees, where the sites under a declaration or non-implicit statement lie in its range. Without this the containment pruning can skip a matching site, and only soundness holds.
- The simplified walker asks `walkToDeclPre` about every declaration and `walkToStmtPre` about every statement. So the post-callbacks' abort once the target lies before a declaration's or statement's start (lines 111-112, 129-131) is modelled but never exercised (`WalkNodeStopsOnlyWhenDone`). Declarations the real walker enters without consulting the callback are not modelled.
- RangeResolution.RangeResolver.Resolve: the selection is assumed readable. Its start must lie in the file's buffer, not after the end of the last token, and that token must end inside the buffer. The constructor accepts any selection, and the source does not check the selection when it reads the text.
- RangeResolutionProofs.ResolutionFindsIffExactMatch: completeness is proved only for trees whose child ranges nest inside their parents' ranges. Otherwise an overlapping check can prune an exact match.
