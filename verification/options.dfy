/** The optional value used for the metric extractor's "no result" and for
    reports that may be absent. */
module Options {

  datatype Option<+T> = None | Some(value: T)

}
