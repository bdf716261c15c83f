/** The values json.c builds (json.h:23-49), the errors it raises, and the
    sizes and limits it checks, for an LP64 target. */
module JsonTypes {
  import opened Unicode

  /** SIZE_MAX of a 64-bit size_t. */
  const SizeMax: nat := 0xFFFF_FFFF_FFFF_FFFF
  /** INT_MAX of a 32-bit int. */
  const IntMax: nat := 0x7FFF_FFFF
  /** sizeof(struct alloc): the two list links in front of every block. */
  const AllocHeader: nat := 16
  /** sizeof(struct json_value). */
  const ValueSize: nat := 24
  /** sizeof(void *) and sizeof(struct json_value *). */
  const AddressSize: nat := 8
  /** sizeof of one object property: the addresses of a name and a value. */
  const PropertySize: nat := 16
  /** The size parse_raw_string first allocates for a string. */
  const InitialStringAlloc: nat := 16
  /** The member count at which parse_object and parse_array give up:
      INT_MAX / sizeof(void *). */
  const MaxItems: nat := IntMax / AddressSize

  /** A JSON value.  A number keeps the text strtod converts instead of the
      double it makes of it; a string is its UTF-8 bytes. */
  datatype Value =
    | Null
    | Boolean(b: bool)
    | Number(literal: seq<char>)
    | String(text: seq<Byte>)
    | Array(values: seq<Value>)
    | Object(properties: seq<Property>)

  datatype Property = Property(name: seq<Byte>, value: Value)

  /** The errors parse_error reports, without their message text. */
  datatype Error =
    | UnexpectedEnd                          // "unexpected end of input"
    | UnexpectedToken(found: char)           // "unexpected token %s"
    | Expected(found: char, wanted: char)    // "unexpected token %s, expected %s"
    | TooLargeAllocation                     // "too large allocation"
    | TooLongString                          // "too long string"
    | TooBigObject                           // "too big object"
    | TooBigArray                            // "too big array"
    | ConversionFailed                       // "strtod failed: %s"

  /** The outcome of scanning from a position: a value and the position the
      cursor is left at, or an error and the position it was raised at. */
  datatype Scan<T> = Parsed(value: T, next: nat) | Failed(error: Error, at: nat)
  {
    predicate IsFailure()
    {
      Failed?
    }

    function PropagateFailure<U>(): Scan<U>
      requires Failed?
    {
      Failed(error, at)
    }

    function Extract(): (T, nat)
      requires Parsed?
    {
      (value, next)
    }
  }

  /** A value, or the error that stopped the computation of it. */
  datatype Result<T, E> = Ok(value: T) | Err(error: E)

  /** What a parsing routine hands back: its value, or the error it raised
      with longjmp. */
  type Outcome<T> = Result<T, Error>

  /** The two arguments json_parse passes to its error callback. */
  datatype Report = Report(line: int, error: Error)

  datatype Option<T> = None | Some(value: T)
}
