/** The error values the driver's operations return. */
module Errors {

  /** `NoError` is Go's nil error.  `NegativePosition` is the cursor's
      "negative position" error, `EOF` is io.EOF (the cursor has run past the
      last cell), and `Stall` stands for a receive that finds no matching
      report among the reports the device has delivered. */
  datatype Error = NoError | NegativePosition | EOF | Stall
}
