/** The optional value used for every `field?: T | null` of the source's records. */
module Options {

  datatype Option<+T> = None | Some(value: T)

}
