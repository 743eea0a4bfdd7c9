/** Every error the library returns, one constructor per distinct `errors.New`,
    wrapped engine error or sentinel. Message formatting is not modelled; each
    constructor keeps the values its message is built from. */
module Errors {
  import DataTypes

  datatype Error =
      /** a field without a `ql` tag */
    | MissingQlTag(field: string)
      /** field 0 is not tagged `id` or is not an int64 */
    | FirstFieldNotId
      /** a `ql` tag that differs from its snake-case form */
    | NotSnakeCase(field: string)
      /** the field's type has no column type */
    | FieldType(field: string, typeError: DataTypes.TypeError)
      /** an index tag the query-string parser rejects */
    | InvalidIndexTag(column: string, tag: string)
      /** an index option other than `unique`/`uniq` */
    | UnsupportedIndexKey(column: string, key: string)
      /** a declared column whose base type differs from the catalog's */
    | TypeDrift(column: string, localType: string, remoteType: string)
      /** a declared index whose uniqueness differs from the catalog's */
    | UniqueDrift(index: string, localUnique: bool, remoteUnique: bool)
      /** an engine error returned as it is */
    | Engine(cause: string)
      /** an engine error wrapped with the text of the statement that caused it */
    | EngineAt(cause: string, query: string)
      /** `sql.ErrNoRows` */
    | NoRows
      /** a record of another type handed to Insert or InsertAll */
    | WrongInsertType(got: string, table: string)
      /** InsertAll called with something that is not a slice */
    | NotASlice(got: string)
}
