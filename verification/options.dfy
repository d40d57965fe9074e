/** The optional-value datatype shared by every module of the model: Python's
    `None`-or-value results (a parsed integer, a located line) are written as
    `Option` values. */
module Options {

  datatype Option<+T> = None | Some(value: T)
}
