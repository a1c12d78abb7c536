/** Values shared by every part of the bus. */
module Types {

  /** One octet of a link-layer frame. */
  newtype byte = x: int | 0 <= x < 256

  /** The envelope a publisher broadcasts and a subscriber receives:
      the topic it is published under and its textual payload. */
  datatype Message = Message(topic: string, payload: string)

  datatype Option<T> = None | Some(value: T)
}
