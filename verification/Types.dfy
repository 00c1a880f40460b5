/** Types shared by the storage, index, executor and transaction models. */
module Types {

  datatype Option<+T> = None | Some(value: T)

  /** A page number of a page file (`page_id_t`); -1 stands for "no page". */
  type PageId = int

  const INVALID_PAGE: PageId := -1

  const PAGE_SIZE: nat := 4096

  /** The address of a record: page number and slot within that page. */
  datatype RecordId = RecordId(page: PageId, slot: nat)

  /** The status codes the engine returns; messages are not modelled. */
  datatype Status =
    | Ok
    | NotFound
    | InvalidArgument
    | OutOfSpace
    | IOError
    | Corruption
    | AlreadyExists
    | Conflict

  /** A value, or the status of the failed operation. */
  datatype Result<+T> = Success(value: T) | Failure(status: Status)
}
