/** A value that may be absent: a missing document field, a failed lookup,
    a random stream that ran dry. */
module Optional {

  datatype Option<+T> = None | Some(value: T)

}
