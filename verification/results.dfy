/** Optional values and the failures the aggregator can report.

    The program signals failure with exceptions; each exception it raises
    in the modelled core is one constructor of `Error` here. */
module Results {

  datatype Option<+T> = None | Some(value: T)

  datatype Error =
    /** A measure group or topic name that is not in the static table. */
    | UnknownGroup(name: string)
    /** The access command was given no group names at all. */
    | NoAccessGroups
    /** The access command was given names outside every access table. */
    | UnknownAccessGroups(names: seq<string>)
    /** A sort key that `float()` cannot read. */
    | NotNumeric(text: string)
    /** A merge-key field missing from a fetched row (a `KeyError`). */
    | MissingField(field: string)

  datatype Result<+T> = Ok(value: T) | Err(error: Error)
}
