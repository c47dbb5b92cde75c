/** The ways one call into the feature pipeline can fail. */
module Faults {

  datatype Fault =
      /** SepFrame's overlap check printed its message and exited the process. */
    | InvalidOverlap
      /** Start-offset generation never ends because the frame shift is zero. */
    | Diverges
      /** Python's ZeroDivisionError: an integer division by zero. */
    | ZeroDivision
      /**
        A NumPy floating-point warning from dividing by zero (1.0 / 0 is a
        divide-by-zero warning, 0.0 / 0 an invalid-value warning), raised
        because warnings are errors.
      */
    | FloatDivideByZero
      /** log10 of a zero or negative energy, raised because warnings are errors. */
    | LogOfNonPositive
      /** Python's IndexError: a frame is shorter than the coefficient index read from it. */
    | IndexOutOfRange
      /** ChoiceFeature was given a mode it does not know; it exits the process. */
    | UnknownFeatureMode
}
