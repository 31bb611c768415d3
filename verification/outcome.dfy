/** Failure-carrying datatypes shared by every part of the library model. */
module Outcome {

  datatype Option<+T> = None | Some(value: T)

  /** The validation errors the library reports to the operator. Each one aborts
      only the current operation and leaves every collection as it was.
      HasLoans is reported only by the corrected deregistration of the Findings module. */
  datatype Error =
    | DuplicateKey     // "ISBN ya registrado" / "ID ya registrado"
    | NotFound         // "ISBN no encontrado" / "Usuario no encontrado"
    | UnknownMember    // "Usuario no registrado"
    | AlreadyLoaned    // "Libro se encuentra prestado"
    | UnknownBook      // "Libro no encontrado"
    | NotBorrowed      // "El usuario no tiene prestado ese libro"
    | HasLoans

  datatype Result<+T> = Ok(value: T) | Err(error: Error)
}
