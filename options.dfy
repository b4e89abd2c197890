/** Optional values: `None` stands for JavaScript's `null`, `undefined`,
    `NaN` or a thrown exception, depending on the operation. */
module Options {
  datatype Option<+T> = None | Some(value: T)
}
