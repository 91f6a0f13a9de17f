/**
 * What the resolvers need from the compiler's SourceManager and Lexer.
 *
 * A source location is an integer position (the SourceManager hands out
 * locations that are pointers into the memory of its buffers);
 * `isBeforeInBuffer` is `<` on positions. Text is UTF-8: a `string` here
 * holds one `char` per byte, so lengths and offsets count bytes.
 * Token boundaries are not computed here: the lexer is an opaque function that
 * says how long the token starting at a position is.
 */
module SourceModel {
  type Pos = int

  /** A SourceRange: `start` is the first token's location, `end` the LAST token's location (not one past it). */
  datatype Span = Span(start: Pos, end: Pos)

  /** `rangeContainsLoc`: the token location `p` lies inside the token range `r` (both ends inclusive). */
  predicate InSpan(r: Span, p: Pos) {
    r.start <= p <= r.end
  }

  /** SourceManager::isBeforeInBuffer. */
  predicate IsBeforeInBuffer(a: Pos, b: Pos) {
    a < b
  }

  /** One memory buffer: its identifier (the file name), the location of its first byte, and its bytes. */
  datatype Buffer = Buffer(identifier: string, base: Pos, text: string)

  /** A location belongs to a buffer from its first byte up to and including its end. */
  predicate InBuffer(b: Buffer, p: Pos) {
    b.base <= p <= b.base + |b.text|
  }

  /**
   * The SourceManager: the registered buffers (the buffer ID is the index) and
   * the lexer's token length at each location.
   */
  datatype SourceManager = SourceManager(buffers: seq<Buffer>, tokenLength: Pos -> nat)

  /** Lexer::getLocForEndOfToken: the location just past the token that starts at `p`. */
  function EndOfToken(sm: SourceManager, p: Pos): (q: Pos)
    ensures p <= q
  {
    p + sm.tokenLength(p)
  }

  /**
   * The registered buffers are assumed not to share a location, not even the
   * location just past a buffer's last byte; which buffer is found where they
   * overlap is not modelled.
   */
  predicate BuffersDisjoint(sm: SourceManager) {
    forall i, j :: 0 <= i < j < |sm.buffers| ==>
      sm.buffers[i].base + |sm.buffers[i].text| < sm.buffers[j].base ||
      sm.buffers[j].base + |sm.buffers[j].text| < sm.buffers[i].base
  }

  /** SourceManager::findBufferContainingLoc: the one registered buffer that holds `p`. */
  function FindBufferContainingLoc(sm: SourceManager, p: Pos): (id: nat)
    requires BuffersDisjoint(sm)
    requires exists i :: 0 <= i < |sm.buffers| && InBuffer(sm.buffers[i], p)
    ensures id < |sm.buffers| && InBuffer(sm.buffers[id], p)
    ensures forall j :: 0 <= j < |sm.buffers| && InBuffer(sm.buffers[j], p) ==> j == id
  {
    FindBufferFrom(sm.buffers, p, 0)
  }

  function FindBufferFrom(buffers: seq<Buffer>, p: Pos, from: nat): (id: nat)
    requires from <= |buffers|
    requires exists i :: from <= i < |buffers| && InBuffer(buffers[i], p)
    ensures from <= id < |buffers| && InBuffer(buffers[id], p)
    ensures forall j :: from <= j < id ==> !InBuffer(buffers[j], p)
    decreases |buffers| - from
  {
    if InBuffer(buffers[from], p) then from else FindBufferFrom(buffers, p, from + 1)
  }

  /** CharSourceRange(SM, from, to).str(): the bytes of `b` from location `from` up to (excluding) `to`. */
  function TextBetween(b: Buffer, from: Pos, to: Pos): (s: string)
    requires b.base <= from <= to <= b.base + |b.text|
    ensures |s| == to - from
    ensures forall k :: 0 <= k < |s| ==> s[k] == b.text[from - b.base + k]
  {
    b.text[from - b.base .. to - b.base]
  }
}
