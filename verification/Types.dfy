/** Datatypes several modules share. */
module Types {

  datatype Option<T> = None | Some(value: T)

  /** A device as kubelet sees it. */
  datatype ApiDevice = ApiDevice(id: string, healthy: bool)
}
