/** Values shared by every part of the store model. */
module Types {

  /** Present or absent; `None` stands for the `null` the store hands to its callbacks. */
  datatype Option<T> = None | Some(value: T)

  /** A versioned flag or segment record. The store only looks at `key`, `version` and
      `deleted`; `body` stands for every other field, which it passes through untouched.
      Records are stored as they are: the JSON encoding is the identity here. */
  datatype Item = Item(key: string, version: int, deleted: bool, body: string)

  /** The contents of one Redis hash: record key to record. */
  type Collection = map<string, Item>

  /** How a single Redis request came back: the model does not look inside the transport,
      so whether a request fails is a parameter. */
  datatype Reply = Ok | Err(message: string)
}
