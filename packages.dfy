/** The decoded message the writer consumes. Decoding itself is not part of this model. */
module Packages {

  /** A field value as the decoder yields it: a number, a flag or a text. */
  datatype Value = Int(i: int) | Real(r: real) | Bool(b: bool) | Text(s: string)

  /** A named group of fields: `subpackage_name` and `subpackage_variables`,
      the latter as a map from field name to value. */
  datatype Subpackage = Subpackage(name: string, fields: map<string, Value>)

  /** A decoded package: its type code, its subpackages in order, and the text
      `str(package)` renders, which the type's log stores verbatim. */
  datatype Package = Package(typeCode: int, subpackages: seq<Subpackage>, text: string)
}
