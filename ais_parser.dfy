/**
 * What every AIS message parser shares: the outcome of a decode, and the
 * size envelope a parser checks on the whole payload before it reads any
 * field.
 */
module AisParser {

  /** Why a payload was refused. */
  datatype ParseError =
    | LengthError(bitLength: nat, minBits: nat, maxBits: nat)

  /** A decoded value, or the reason there is none. */
  datatype Result<T> = Ok(value: T) | Err(error: ParseError)

  /**
   * The envelope check of the parser base class: a payload of `bitLength`
   * bits is accepted exactly when it lies within `[minBits, maxBits]`;
   * otherwise the error records the length and the envelope it missed.
   */
  function CheckLength(bitLength: nat, minBits: nat, maxBits: nat): (r: Result<nat>)
    ensures r.Ok? <==> minBits <= bitLength <= maxBits
    ensures r.Ok? ==> r.value == bitLength
    ensures r.Err? ==> r.error == LengthError(bitLength, minBits, maxBits)
  {
    if bitLength < minBits || maxBits < bitLength then Err(LengthError(bitLength, minBits, maxBits))
    else Ok(bitLength)
  }
}
