/** Small wrapper types shared by the modules of this model. */
module Wrappers {

  /** The conventional Some/None datatype: a Go value that may be nil. */
  datatype Option<+T> = None | Some(value: T)
}

/** Go's value types as the handlers and the log masking see them. */
module GoValues {

  /** One byte of a Go string. */
  newtype byte = b: int | 0 <= b < 256

  /** A Go `string` is a sequence of bytes; `len(s)` is its length in bytes. */
  type GoString = seq<byte>

  /** A value of Go type `interface{}` as produced by decoding JSON.
      Numbers are carried as integers: nothing modelled here inspects them. */
  datatype Value =
    | Str(s: GoString)
    | Num(n: int)
    | Bool(b: bool)
    | Null
    | Array(items: seq<Value>)
    | Object(members: map<GoString, Value>)

  /** A Go `map[string]interface{}`. */
  type Fields = map<GoString, Value>
}
