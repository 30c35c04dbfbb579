/** The "absent or present" result every container operation returns
    (Swift's `T?`). */
module Optional {

  datatype Option<+T> = None | Some(value: T)

}
