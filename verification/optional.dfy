/** The conventional Some/None datatype, used where the source produces a
    missing value (pandas' NaN quantile of an empty column, an unparsable
    month name). */
module Optional {

  datatype Option<+T> = None | Some(value: T)
}
