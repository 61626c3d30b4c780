/** Names shared by the buffer manager and the heap file. */
module Global {

  /** A disk page number; page identifiers compare by value. */
  type PageId = int

  /** The reserved "no page" identifier that ends the directory list.
      Its value lives in a constants file that is not part of this model;
      the model only relies on it being one fixed integer. */
  const INVALID_PAGEID: PageId := -1

  datatype Option<T> = None | Some(value: T)
}
