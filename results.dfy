/** Failure values of the library database: add, delete, edit and the password update
    raise one of the exceptions below before changing anything; a failed load leaves
    the list emptied or partly refilled. */
module Results {

  datatype Option<+T> = None | Some(value: T)

  /** A value-returning operation: its value, or the exception it raised. */
  datatype Result<+T> = Ok(value: T) | Err(error: Error)

  /** An operation that returns nothing in the source: it completed, or it raised. */
  datatype Outcome = Done | Raised(error: Error)

  /** Why a `ValueError` was raised. */
  datatype Reason =
    | EmptyLibraryField       // add: a name, city or address is empty
    | DuplicateName           // add: a record already has this name
    | DuplicateAddress        // add: a record already has this city and address
    | EmptyEditParameter      // edit: the name, the edit type or the new value is empty
    | InvalidEditType         // edit: the edit type is not name, city or address
    | NameTakenByOther        // edit: another record already has the new name
    | AddressTakenInCity      // edit: another record in the same city has the new address
    | LibraryNotFound         // edit: no record has the given name
    | EmptyPassword           // update_admin_password("")
    | MalformedCredential     // verify: more than one '$' (two-way unpacking fails)
    | NonHexadecimal          // verify: a credential half is not hexadecimal text

  /** The exception classes the source raises. */
  datatype Error =
    | ValueError(reason: Reason)
    | LibraryMissingOnDelete          // DatabaseException raised by delete
    | InvalidDatabaseStructure        // InvalidDatabaseStructureError: a key is missing
    | DatabaseLoadFailure             // DatabaseLoadError: any other failure while loading

  /** The outcome of an operation whose only result is `r`'s success or failure. */
  function OutcomeOf<T>(r: Result<T>): Outcome
  {
    match r
    case Ok(_) => Done
    case Err(e) => Raised(e)
  }
}
