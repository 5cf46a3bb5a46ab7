/** An optional value, used where the estimator's arithmetic would yield NaN. */
module Options {

  datatype Option<+T> = None | Some(value: T)

}
