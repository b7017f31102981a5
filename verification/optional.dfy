/** The Some/None datatype used wherever the binding holds a value that may be absent:
    the native channel pointer once it has been released, a decoding that can fail. */
module Optional {

  datatype Option<+T> = None | Some(value: T)
}
