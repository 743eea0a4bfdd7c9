/** Field types as the Go reflection layer reports them, and the mapping from a
    field's type to the column type string of the embedded `ql` engine
    (datatypes.go, `ToQlType`). */
module DataTypes {
  import opened Results
  import opened Strings

  /** The numeric reflection kinds the mapper accepts. */
  datatype NumKind =
    | Int | Int8 | Int16 | Int32 | Int64
    | Uint | Uint8 | Uint16 | Uint32 | Uint64
    | Float32 | Float64

  /** A field's static type. `Numeric` carries the type's printed name, which is
      the kind's own name (`int64`) for a predeclared type and `pkg.Name` for a
      named one; `Struct` carries the printed struct name (`sql.NullString`);
      `Other` is any kind the mapper has no case for (map, array, chan, ...). */
  datatype FieldType =
    | Numeric(kind: NumKind, name: string)
    | Text
    | Boolean
    | Slice(elem: FieldType)
    | Struct(name: string)
    | Pointer(target: FieldType)
    | Other(kindName: string)

  datatype TypeError =
    | IdNotInt64
    | Unsupported(ty: FieldType)

  /** Reflection's `Kind() == reflect.Int64`: a named int64 type qualifies, a pointer does not. */
  predicate IsInt64Kind(t: FieldType) {
    t.Numeric? && t.kind == Int64
  }

  /** Printed type names have no blanks; the reconciler's first-token comparison relies on it. */
  predicate WellNamed(t: FieldType) {
    match t
    case Numeric(_, name) => |name| > 0 && ' ' !in name
    case Pointer(u) => WellNamed(u)
    case _ => true
  }

  const NotNullZero := " not null default 0"
  const NotNullEmpty := " not null default ''"
  const NotNullFalse := " not null default false"

  /** The `sql.Null*` wrappers and the bare engine type each one stands for. */
  function NullWrapperType(name: string): Option<string> {
    if name == "sql.NullString" then Some("string")
    else if name == "sql.NullBool" then Some("bool")
    else if name == "sql.NullInt32" then Some("int32")
    else if name == "sql.NullInt64" then Some("int64")
    else if name == "sql.NullFloat64" then Some("float64")
    else None
  }

  /** `ToQlType(t, dbTag)`: the column type for a field, or why there is none. A
      field tagged `id` maps to the empty type when it is an int64 kind. */
  function ToQlType(t: FieldType, dbTag: string): (r: Result<string, TypeError>)
    ensures dbTag == "id" ==> (r == Ok("") <==> IsInt64Kind(t))
    ensures dbTag == "id" && r.Err? ==> r.error == IdNotInt64
    ensures r.Err? && dbTag != "id" ==> r.error.Unsupported?
  {
    if dbTag == "id" then
      if IsInt64Kind(t) then Ok("") else Err(IdNotInt64)
    else
      var isPtr := t.Pointer?;
      var u := if isPtr then t.target else t;
      match u
      case Numeric(_, name) => Ok(if isPtr then name else name + NotNullZero)
      case Text => Ok(if isPtr then "string" else "string" + NotNullEmpty)
      case Boolean => Ok(if isPtr then "bool" else "bool" + NotNullFalse)
      case Slice(e) =>
        if e.Numeric? && e.kind == Uint8 then Ok("blob") else Err(Unsupported(u))
      case Struct(name) =>
        if NullWrapperType(name).Some? then Ok(NullWrapperType(name).value) else Err(Unsupported(u))
      case _ => Err(Unsupported(u))
  }

  /** Reference mapping, written per type rather than per branch: the bare engine
      type of a supported field (what the engine's catalog reports for it). A
      pointer stands for the same column as its target, one level deep only. */
  function EngineType(t: FieldType): Option<string> {
    match t
    case Pointer(u) => if u.Pointer? then None else ValueEngineType(u)
    case _ => ValueEngineType(t)
  }

  function ValueEngineType(t: FieldType): Option<string>
    requires !t.Pointer?
  {
    match t
    case Numeric(_, name) => Some(name)
    case Text => Some("string")
    case Boolean => Some("bool")
    case Slice(e) => if e.Numeric? && e.kind == Uint8 then Some("blob") else None
    case Struct(name) => NullWrapperType(name)
    case Other(_) => None
  }

  /** The `not null default` clause each non-pointer scalar's zero value gives
      its column; every other supported field has none. */
  function DefaultClause(t: FieldType): string {
    match t
    case Numeric(_, _) => NotNullZero
    case Text => NotNullEmpty
    case Boolean => NotNullFalse
    case _ => ""
  }

  /** A non-`id` field is supported exactly when it has an engine type, and then
      its column type is that engine type followed by the default clause of its
      kind: `0` for numbers, `''` for strings, `false` for bools, and none for
      pointers, blobs and the `sql.Null*` wrappers. */
  lemma ToQlTypeAgreesWithEngineType(t: FieldType, dbTag: string)
    requires dbTag != "id"
    ensures ToQlType(t, dbTag).Ok? <==> EngineType(t).Some?
    ensures ToQlType(t, dbTag).Ok? ==> ToQlType(t, dbTag).value == EngineType(t).value + DefaultClause(t)
  {
  }

  /** The value the reconciler compares against the remote catalog, the first
      blank-separated token of the column type, is the bare engine type. */
  lemma {:induction false} FirstTokenIsEngineType(t: FieldType, dbTag: string)
    requires dbTag != "id" && WellNamed(t)
    requires ToQlType(t, dbTag).Ok?
    ensures FirstToken(ToQlType(t, dbTag).value) == EngineType(t).value
  {
    ToQlTypeAgreesWithEngineType(t, dbTag);
    var q := ToQlType(t, dbTag).value;
    var base := EngineType(t).value;
    EngineTypeIsOneWord(t);
    if DefaultClause(t) != "" {
      var clause := DefaultClause(t);
      assert clause[0] == ' ';
      assert q == base + " " + clause[1..];
      FirstTokenBeforeBlank(base, clause[1..]);
    } else {
      FirstTokenOfWord(base);
    }
  }

  /** An engine type is a single non-empty word. */
  lemma EngineTypeIsOneWord(t: FieldType)
    requires WellNamed(t) && EngineType(t).Some?
    ensures EngineType(t).value != "" && ' ' !in EngineType(t).value
  {
    var u := if t.Pointer? then t.target else t;
    assert EngineType(t) == ValueEngineType(u);
    match u
    case Numeric(_, name) =>
    case Struct(name) => NullWrapperHasNoBlank(name);
    case _ =>
  }

  lemma NullWrapperHasNoBlank(name: string)
    requires NullWrapperType(name).Some?
    ensures NullWrapperType(name).value != "" && ' ' !in NullWrapperType(name).value
  {
  }

  /** A pointer to a pointer is never mapped. */
  lemma PointerToPointerUnsupported(t: FieldType, dbTag: string)
    requires dbTag != "id"
    ensures ToQlType(Pointer(Pointer(t)), dbTag) == Err(Unsupported(Pointer(t)))
  {
  }
}
