/** The kinds of error the action cache reports. Message texts are not modelled. */
module Status {

  datatype Error =
    | InvalidArgument   // a required field is missing or malformed
    | NotFound          // a cache miss, or a result with a blob its existence check covers missing
    | Internal          // the store broke its own contract (an incomplete ContainsMulti answer)
    | DecodeError       // stored bytes that do not decode as the expected message
    | StoreError        // any other failure reported by the backing store
}
