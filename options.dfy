/** The optional value used for `UserData | null` and for the results of
    parsing that may fail (`NaN` in JavaScript). */
module Options {

  datatype Option<+T> = None | Some(value: T)
}
