/** An optional value, used where the source signals "nothing found" with a sentinel
    (`nearest = -1`), `NaN`, or an exception. */
module Options {

  datatype Option<+T> = None | Some(value: T)
}
