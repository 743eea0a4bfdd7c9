/** The boundary to the embedded `ql` engine. Nothing here executes SQL: the
    engine is an oracle whose answer to a statement is an input of the model. */
module Engine {

  /** A column value. Only integers are ever looked at by the library (the count
      of CountWhere); every other value travels through unexamined. */
  datatype Value = Int(i: int) | Opaque(repr: string)

  type Row = seq<Value>

  /** What `Pool.Run` hands back: an engine error, or a list of result sets, each
      a list of rows of type `R`. */
  datatype Answer<R> = Failed(cause: string) | Sets(sets: seq<seq<R>>)

  /** One statement as sent to the engine: its text and its positional arguments. */
  datatype Call = Call(query: string, args: seq<Value>)

  /** `rs.FirstRow()`: the first row, or the empty row when there is none. */
  function FirstRow<R>(rows: seq<seq<R>>): (row: seq<R>)
    ensures |rows| > 0 ==> row == rows[0]
    ensures |rows| == 0 ==> row == []
  {
    if |rows| == 0 then [] else rows[0]
  }
}
