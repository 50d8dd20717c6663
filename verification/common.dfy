/** Small wrapper datatypes shared by the widget models. */
module Common {

  /** A value that may be absent (`null`/`undefined` in the widgets). */
  datatype Option<+T> = None | Some(value: T)

  /** The outcome of an awaited `fetchJson` call: the parsed body, or a rejected promise. */
  datatype Response<+T> = Received(body: T) | Rejected
}
