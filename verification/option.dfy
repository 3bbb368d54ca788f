/**
 * The nullable pointer of the C++ sources: `None` is `nullptr`/`NULL`,
 * `Some(h)` a pointer to the object with handle `h`.
 */
module Maybe {

  datatype Option<+T> = None | Some(value: T)

}
