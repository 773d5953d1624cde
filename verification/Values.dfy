/** The values that parameters exchange, and the library calls on real numbers that stay abstract. */
module Values {
  import opened Bytes
  import opened Numerals

  type long = i: int | IsLongLong(i) witness 0

  datatype Scalar =
    | Boolean(b: bool)
    | Integer(i: long)
    | Real(r: real)
    | String(s: seq<byte>)
    | Binary(bytes: seq<byte>)

  datatype Value =
    | Single(x: Scalar)
    | Sequence(xs: seq<Scalar>)
    | Tuple(xs: seq<Scalar>)

  /** `std::stod`, None where it throws, and the text a stream prints for a double with 17 digits. */
  datatype Library = Library(stod: seq<byte> -> Option<real>, realText: real -> seq<byte>)
}
