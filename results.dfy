/** Failure values of the decomposition routines. Every hard failure of the
    source (a thrown exception) is an `Err` carrying one `Error`; the text of
    the exception message is not modelled. */
module Results {

  datatype Error =
    | NonPolynomial            // an expression that must be a polynomial is not
    | NonLinear                // total degree above one where an affine form is required
    | ConstantInLinear         // a constant term where a linear form is required
    | NonConstantCoefficient   // a monomial coefficient that is not a number
    | DegreeAboveTwo           // a monomial of degree above two in the quadratic extractor
    | UnknownVariable          // a variable missing from the variable-to-index map
    | SizeMismatch             // output buffers whose sizes disagree
    | UnfactorableMixedTerm    // a term mixing parameters and non-parameters non-multiplicatively
    | UnimplementedFactorablePower  // a mixed power with a constant exponent

  datatype Result<T> = Ok(value: T) | Err(error: Error)

  datatype Outcome = Pass | Fail(error: Error)
}
