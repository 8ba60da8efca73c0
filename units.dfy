/** Physical results as the circuit functions return them: a number and its unit
    (the functions return the two as one formatted string), or the exception they
    raise. */
module Units {
  datatype Unit = Volt | Ampere | Watt | Ohm

  datatype Quantity = Quantity(value: real, unit: Unit)

  /** A result, a `ValueError` raised by one of the functions' own guards, or the
      `ZeroDivisionError` raised by Python's float division by zero. */
  datatype Outcome = Ok(q: Quantity) | ValueError(message: string) | ZeroDivisionError
}
