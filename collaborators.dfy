/** The code the parser calls but does not contain, taken as parameters:
    the iconv-lite charset converter, Node's `Buffer` base64 reader, and the
    regular-expression passes of the HTML transcoder that are not modelled
    here. Every property proved in this project holds for every choice of
    these functions. */
module Collaborators {
  import opened Wrappers

  newtype byte = x: int | 0 <= x < 256

  datatype Env = Env(
    /** `iconv.decode(buffer, charset)`; `Err` when it throws (an encoding
        name iconv does not recognise). */
    decode: (seq<byte>, string) -> Result<string>,
    /** `iconv.encodingExists(charset)`. */
    encodingExists: string -> bool,
    /** `Buffer.from(text, 'base64')`, which never throws. */
    base64Bytes: string -> seq<byte>,
    /** The transcoder passes before the table pass: document structure,
        title, meta, script and style removal, and headings. */
    passesBeforeTables: string -> string,
    /** The transcoder passes between the table pass and the final tag
        stripping: emphasis, links, images, pre, div, p, br, lists and
        blockquotes. */
    passesAfterTables: string -> string)

  /** The byte `Buffer.from` stores for a character code: its low 8 bits. */
  function LowByte(c: char): byte {
    ((c as int) % 256) as byte
  }
}
