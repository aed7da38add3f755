/** The failures gabiel.py can run into on the paths this model covers. */
module Results {

  /** Python exceptions raised by the modelled code. */
  datatype Error =
    | ZeroDivisionError  // `image.width // slice_amt` with `slice_amt == 0`
    | IndexError         // `split(".")[-2]` on a name without a dot

  /** Either the value an operation returns or the exception it raises. */
  datatype Result<+T> = Ok(value: T) | Err(error: Error)
}
