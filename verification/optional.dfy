/**
 * A value that may be absent. The analyzer starts with no start time and no
 * device address; `None` stands for that absence and `Some` for a recorded value.
 */
module Optional {

  datatype Option<+T> = None | Some(value: T)
}
