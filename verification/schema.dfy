/**
 The entities the connection-argument builder reads: tables and their columns
 (owned by the data-source layer, read-only here) and the schema types it
 hands out.
 */
module Schema {

  /** Object identities: two tables or columns are the same exactly when their ids are. */
  type TableId = nat
  type ColumnId = nat
  /** The identity of one constructed ordering-enum instance. */
  type EnumId = nat

  /** The schema types this builder uses or passes through. */
  datatype SchemaType =
    | IntType
    | BooleanType
    | CursorType
    | OrderingEnumType(id: EnumId)
    | ScalarType(name: string)
    | ListType(ofType: SchemaType)
    | NonNullType(ofType: SchemaType)

  /** A non-null wrapper never wraps another non-null wrapper. */
  predicate WellFormedType(t: SchemaType) {
    match t
    case NonNullType(inner) => !inner.NonNullType? && WellFormedType(inner)
    case ListType(inner) => WellFormedType(inner)
    case _ => true
  }

  /** The nullable variant of a type: the type itself, unwrapped when it is non-null. */
  function GetNullableType(t: SchemaType): (r: SchemaType)
    ensures WellFormedType(t) ==> WellFormedType(r) && !r.NonNullType?
    ensures r == t || t == NonNullType(r)
  {
    if t.NonNullType? then t.ofType else t
  }

  /**
   A column. `fieldName` and `markdownFieldName` are what the column's
   `getFieldName()` and `getMarkdownFieldName()` return, and `columnType` is
   what the column-type resolver gives for it.
   */
  datatype Column = Column(
    id: ColumnId,
    name: string,
    fieldName: string,
    markdownFieldName: string,
    description: string,
    columnType: SchemaType)

  /**
   A table: its columns in order and the columns of its primary key, in key
   order (what `getPrimaryKeyColumns()` returns). `typeName` is what
   `getTypeName()` returns.
   */
  datatype Table = Table(
    id: TableId,
    typeName: string,
    columns: seq<Column>,
    primaryKeyColumns: seq<Column>)
}
