/**
 * Scalar column types. None of them is ever inspected by the application
 * rules; they are stored and handed back unchanged.
 */
module Scalars {

  /** A `DateTime` column or field, as an abstract instant. */
  type Timestamp = int

  /** A `Time` column (a cooperative's opening or closing hour), as an abstract value. */
  type TimeOfDay = int

  /** A `Float` latitude or longitude column; no arithmetic is done on it. */
  type Coordinate = real
}
