/** The optional value returned by Swift's `firstIndex(where:)` and used for
    the optional thumbnail of an asset. */
module Options {

  datatype Option<+T> = None | Some(value: T)

}
