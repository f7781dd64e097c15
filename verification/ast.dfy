/**
  The part of a SQL parser's abstract syntax that the storage engine
  inspects. The parser itself is an external collaborator: statements
  arrive already parsed, and every shape the engine does not look at is
  folded into an `Other...` alternative.
 */
module Ast {

  import opened Wrappers

  /** An identifier with its optional quote character. */
  datatype Ident = Ident(value: string, quoteStyle: QuoteStyle)

  datatype QuoteStyle = Unquoted | Quoted(quote: char)

  /** A possibly qualified name `a.b.c`, as its list of parts. */
  datatype ObjectName = ObjectName(parts: seq<Ident>)

  /** Literal values. */
  datatype Value =
    | Number(digits: string)
    | SingleQuotedString(text: string)
    | Boolean(b: bool)
    | Null
    | OtherValue(text: string)

  datatype BinaryOperator = And | Or | Eq | OtherOperator(symbol: string)

  /** Expressions: only the shapes a WHERE clause of the engine may use are spelled out. */
  datatype Expr =
    | Identifier(ident: Ident)
    | Literal(value: Value)
    | BinaryOp(left: Expr, op: BinaryOperator, right: Expr)
    | Nested(inner: Expr)
    | OtherExpr(text: string)

  datatype SelectItem = UnnamedExpr(expr: Expr) | Wildcard | OtherSelectItem

  datatype TableFactor = Table(name: ObjectName) | OtherTableFactor

  datatype TableWithJoins = TableWithJoins(relation: TableFactor)

  datatype OrderByExpr = OrderByExpr(expr: Expr, asc: AscOption)

  /** The optional ASC/DESC keyword of an ORDER BY item. */
  datatype AscOption = Unspecified | Asc | Desc

  datatype Select = Select(projection: seq<SelectItem>, from: seq<TableWithJoins>, selection: Option<Expr>)

  datatype SetExpr =
    | SelectBody(select: Select)
    | ValuesBody(rows: seq<seq<Expr>>)
    | OtherSetExpr

  datatype Query = Query(body: SetExpr, orderBy: seq<OrderByExpr>, limit: Option<Expr>)

  /** Column data types named in CREATE TABLE. */
  datatype SqlDataType = Int | Text | Bool | Float | OtherDataType(name: string)

  /** Column options of a column definition. */
  datatype ColumnOption =
    | NotNullOption
    | UniqueOption(isPrimary: bool)
    | DefaultOption(expr: Expr)
    | OtherColumnOption(text: string)

  datatype ColumnDef = ColumnDef(name: Ident, dataType: SqlDataType, options: seq<ColumnOption>)

  datatype SchemaName = Simple(name: ObjectName) | OtherSchemaName

  datatype TableConstraint =
    | ForeignKeyConstraint(name: Option<Ident>, columns: seq<Ident>, foreignTable: ObjectName, referredColumns: seq<Ident>)
    | OtherTableConstraint(text: string)

  datatype AlterTableOperation =
    | AddColumn(columnDef: ColumnDef)
    | DropColumn(columnName: Ident)
    | ChangeColumn(oldName: Ident, newName: Ident)
    | RenameColumn(oldName: Ident, newName: Ident)
    | AddConstraint(constraint: TableConstraint)
    | OtherAlterOperation(text: string)

  datatype TriggerPeriod = Before | After | InsteadOf

  datatype TriggerEvent = Insert | Update(columns: seq<Ident>) | Delete | Truncate

  datatype TriggerExecBodyType = Function | Procedure

  datatype TriggerExecBody = TriggerExecBody(execType: TriggerExecBodyType)
}
