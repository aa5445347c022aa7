/** The records the remote REST API returns (3/api.js), as far as the query
    functions of 3/orderFunctions.js and 3/userFunctions.js read them. A
    fetch that fails is an `Err` carrying the error's message. */
module Api {
  import opened Common

  datatype Post = Post(id: int, userId: int, title: string, body: string)

  /** A user record; `phone` and `website` stand for the fields the
      projections of userFunctions.js drop. */
  datatype User = User(id: int, name: string, username: string, email: string, phone: string, website: string)

  type Fetched<T> = Result<seq<T>>
}
