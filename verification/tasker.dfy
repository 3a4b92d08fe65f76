/**
 * The `ds_tasker` table through which a remote client and the worker talk
 * (app/scheduler/ds.py:22-35): the client queues a request as a waiting
 * row, the worker marks it complete or error and stores the result.
 */
module Tasker {
  import opened JsonData

  /** The `status` column; the worker writes only the last two. */
  datatype Status = Waiting | Complete | Error

  /**
   * One row. `paramConn` and `paramQuery` hold the encrypted, encoded
   * parameters as text; `result` is the JSON column, JNull while empty;
   * `createdAt` counts seconds on the database clock.
   */
  datatype Task = Task(
    id: nat,
    status: Status,
    typeQuery: string,
    paramConn: string,
    paramQuery: string,
    result: Json,
    createdAt: int)

  /** A row the client may read back: the worker is done with it. */
  predicate Finished(t: Task) {
    t.status == Complete || t.status == Error
  }

  /** A row the worker still has to pick up. */
  predicate Pending(t: Task) {
    t.status == Waiting
  }
}
