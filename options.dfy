/** The Option type used where the Java code returns a nullable reference. */
module Options {

  datatype Option<+T> = None | Some(value: T)
}
