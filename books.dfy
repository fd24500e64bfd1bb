/**
  The record kept in the reading list: a catalog entry together with the
  stage of reading it is in.
 */
module Books {

  datatype Option<T> = None | Some(value: T)

  /** The three stages a saved book can be in; no other value is valid. */
  datatype Status = Done | InProgress | Backlog

  /**
    `number_of_pages_median` is optional and nullable: the field may be
    missing, present with the value null, or present with a number.
   */
  datatype PageCount = Absent | Null | Pages(count: int)

  /**
    A book. Only `key` and `status` are ever inspected by the store; the
    other fields are carried along unchanged.
   */
  datatype Book = Book(
    key: string,
    title: string,
    authorName: Option<seq<string>>,
    firstPublishYear: Option<int>,
    numberOfPagesMedian: PageCount,
    status: Status)
}
