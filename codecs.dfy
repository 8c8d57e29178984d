/** The foreign libraries the engine calls, as parameters: text decoding of an
    archive entry, XML parsing and serialisation (xmldom) and JSON text
    (`JSON.parse` / `JSON.stringify`). Nothing is assumed about them unless a
    lemma says so in its requires clause. */
module Codecs {
  import opened Wrappers
  import opened Xml
  import opened JsonModel

  newtype byte = x: int | 0 <= x < 256

  type Bytes = seq<byte>

  datatype Library = Library(
    decodeText: Bytes -> string,
    parseXml: string -> Document,
    serializeXml: Document -> string,
    parseJson: string -> Option<Json>,
    stringifyJson: Json -> string)
}
