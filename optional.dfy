/** An optional value: the model of a TypeScript property declared with `?`
    (absent, i.e. `undefined`, or present with a value). */
module Optional {
  datatype Option<+T> = None | Some(value: T)
}
