/** Shared types of the encoder and the decoder (types.h). */
module Types {

  /** One `char` of the C program, as its 8-bit pattern: a byte of a file or of a name. */
  type byte = bv8

  /** The return code of every stage (types.h): `failure` or `success`. */
  datatype Status = Failure | Success

  /** A value that may be absent: a NULL `argv` entry, or `strrchr` finding nothing. */
  datatype Option<T> = None | Some(value: T)
}
