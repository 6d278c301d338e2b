/** Values shared by every part of the model: the error taxonomy of
    src/error.rs (only the variants the modelled code can produce), the
    crate-wide `Result` alias of src/result.rs, and paths as sequences of
    components. */
module Common {

  datatype Option<+T> = None | Some(value: T)

  /** The variants of `error::Error` that the modelled code produces. */
  datatype Error =
    | NoValue            // Error::None(): an Option was empty (result::get, a line that is not UTF-8)
    | Io                 // Error::IO: an operating-system failure (an unreadable directory entry, a failed read)
    | RegexError         // Error::Regex: a pattern given on the command line does not compile
    | NotInRepo          // Error::RelativeToRepo(): no enclosing repository was found
    | UnableToParseStatus

  datatype Result<+T> = Ok(value: T) | Err(error: Error)

  /** A path as the sequence of its components; `["."]` is the current
      directory, `[]` is the empty path. */
  type Path = seq<string>

  /** `Path::to_str` of a path made of the given components: the components
      joined with '/'. */
  function Display(p: Path): string
    decreases |p|
  {
    if p == [] then []
    else if |p| == 1 then p[0]
    else Display(p[..|p| - 1]) + "/" + p[|p| - 1]
  }
}
