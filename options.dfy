/** An optional value: the persisted "quizScore" entry is either absent or holds a number. */
module Options {
  datatype Option<+T> = None | Some(value: T)
}
