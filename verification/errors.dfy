/**
 * The failures the du front end can run into, and the Result and Option
 * wrappers that carry them instead of Python exceptions.
 */
module Errors {

  /** One constructor per exception the pipeline can raise. */
  datatype Error =
    | PercentOutOfRange          // ValueError raised by percent_to_graph
    | ZeroDivision               // ZeroDivisionError in size / total_size
    | InvalidSize(token: string) // ValueError raised by int() on the size token
    | NoDuOutput                 // IndexError on du_output[-1] when du printed nothing
    | MissingKey(path: string)   // KeyError on dir_dict[target_dir]

  datatype Result<+T> = Ok(value: T) | Err(error: Error)

  datatype Option<+T> = None | Some(value: T)
}
