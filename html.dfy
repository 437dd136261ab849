/** Constants and record layouts of the interpreter's public header
    (include/html.h): the token alphabet, the default tape size, the
    end-of-input policy and the instruction record. */
module Html {

  /** The default number of tape cells (HTML_TAPE_SIZE). */
  const TapeSize: nat := 30000

  /** HTML_EOF_BEHAVIOR: 1 means that end of input leaves the current cell unchanged. */
  const EofBehavior: int := 1

  /** The value EOF of the C library, as seen through a signed `char`. */
  const Eof: int := -1

  /** INT_MAX of a 32-bit C `int`. */
  const IntMax: int := 0x7fff_ffff

  /** The eight tokens of the language. */
  const Plus: char := 't'       // increment the current cell
  const Minus: char := 'm'      // decrement the current cell
  const Previous: char := 'H'   // move the tape index left
  const Next: char := 'L'       // move the tape index right
  const Output: char := 'T'     // write the current cell
  const Input: char := 'M'      // read into the current cell
  const LoopStart: char := 'h'  // loop while the current cell is nonzero
  const LoopEnd: char := 'l'    // end of a loop body, and the list sentinel

  /** Without the debug extension the break token is the value -10, which a
      signed C `char` holds only for the byte 0xF6; a character of the model
      stands for one byte of the C string, so that byte is U+00F6. */
  const Break: char := 'ö'

  /** The C string terminator. */
  const Nul: char := '\0'

  predicate IsToken(c: char) {
    c == Plus || c == Minus || c == Previous || c == Next ||
    c == Output || c == Input || c == LoopStart || c == LoopEnd
  }

  /** The eight tokens are pairwise distinct, and none is the terminator or the break value. */
  lemma TokensDistinct()
    ensures |{Plus, Minus, Previous, Next, Output, Input, LoopStart, LoopEnd}| == 8
    ensures !IsToken(Nul) && !IsToken(Break)
    ensures Break as int > 127
  {
  }

  /** An unsigned C `char`: one tape cell. */
  type Byte = x: int | 0 <= x < 256

  /** A signed C `char`: what the input handler returns. */
  type SChar = x: int | -128 <= x < 128

  datatype Option<T> = None | Some(value: T)

  /** HtmlInstruction: its `type`, its `difference` and, for a loop start,
      the instructions reachable from its `loop` pointer. The `next` and
      `previous` pointers are the position of the node in its sequence. */
  datatype Node = Node(kind: char, diff: int, body: seq<Node>)

  /** The node that closes every parsed list. */
  const Sentinel: Node := Node(LoopEnd, 1, [])

  /** The number of nodes in a list, loop bodies included: the measure that
      recursion over the instruction tree decreases. */
  function Size(s: seq<Node>): nat
  {
    if s == [] then 0 else 1 + Size(s[0].body) + Size(s[1..])
  }
}
