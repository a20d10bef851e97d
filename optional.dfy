/** The conventional Some/None datatype, used for the optional fields of an
    account, optional request values and lookups that may find nothing. */
module Optional {

  datatype Option<+T> = None | Some(value: T)

}
