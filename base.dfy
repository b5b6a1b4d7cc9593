/** Value types shared by the whole model: optional values, results, Go
    slices (which distinguish nil from empty) and Go error values. */
module Base {

  datatype Option<+T> = None | Some(value: T)

  datatype Result<+R, +E> = Ok(value: R) | Err(error: E)

  /** A Go slice: `Nil` is the nil slice, `Slice(elems)` a non-nil one
      (possibly empty). The two are told apart by Go's deep equality. */
  datatype Slice<+T> = Nil | Slice(elems: seq<T>) {
    /** The elements, none for the nil slice. */
    function Elems(): seq<T>
    {
      if Nil? then [] else elems
    }
  }

  /** A Go `error` value, known to the model by its message (`err.Error()`). */
  datatype Error = Error(msg: string)
}
