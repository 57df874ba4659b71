/** Values that may be absent, and calls that may never come back. */
module Options {
  datatype Option<+T> = None | Some(value: T)

  datatype Call<+T> = NeverReturns | Returns(result: T)
}
