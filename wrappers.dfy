/** Result types shared by the whole model, and the exceptions the modelled code raises. */
module Wrappers {

  datatype Option<T> = None | Some(value: T)

  /** One constructor per exception the modelled Python code can raise. */
  datatype Error =
    | LengthMismatch        // ValueError: crossover on genomes of different lengths
    | NegativeRounds        // ValueError: a negative number of mutation rounds
    | EmptyRange            // ValueError: randrange(0), a mutation round on an empty genome
    | SampleLargerThanPool  // ValueError: random.sample(pool, k=2) on fewer than two entries
    | IndexOutOfRange       // IndexError: a list index or pop past the end
    | NotInList             // ValueError: list.index on a genome that is absent
    | ZeroDivision          // ZeroDivisionError: 4 / num_notes with num_notes == 0, or % len(scale) of an empty scale
    | NegativeShift         // ValueError: 1 << n with n < 0
    | InvalidLiteral        // ValueError: int(field, 16) on a malformed field

  datatype Result<T> = Ok(value: T) | Err(error: Error)

  /** The result of an operation that works by side effect. */
  datatype Outcome = Pass | Fail(error: Error)
}
