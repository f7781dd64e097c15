/**
  The on-disk directory convention (database_navigator.rs). The database
  root directory is a build-time constant of the source; here it is the
  parameter `root`.
 */
module Navigator {

  function DatabaseConfigurationPath(root: string): string {
    root + "/configuration/configuration.json"
  }

  function SchemasDirPath(root: string): string {
    root + "/schemas"
  }

  function SchemaPath(root: string, schemaName: string): string {
    SchemasDirPath(root) + "/" + schemaName
  }

  function SchemaConfigurationPath(root: string, schemaName: string): (p: string)
    ensures p == root + "/schemas/" + schemaName + "/configuration/configuration.json"
  {
    SchemaPath(root, schemaName) + "/configuration/configuration.json"
  }

  function TablesDirPath(root: string, schemaName: string): string {
    SchemaPath(root, schemaName) + "/tables"
  }

  /** `<root>/schemas/<schema>/tables/<table>`: the directory holding everything of one table. */
  function TablePath(root: string, schemaName: string, tableName: string): (p: string)
    ensures p == root + "/schemas/" + schemaName + "/tables/" + tableName
  {
    TablesDirPath(root, schemaName) + "/" + tableName
  }

  function TableSchemaDirPath(root: string, schemaName: string, tableName: string): string {
    TablePath(root, schemaName, tableName) + "/table_schema"
  }

  function TableSchemaPath(root: string, schemaName: string, tableName: string): (p: string)
    ensures p == TablePath(root, schemaName, tableName) + "/table_schema/" + tableName + ".schema.json"
  {
    TableSchemaDirPath(root, schemaName, tableName) + "/" + tableName + ".schema.json"
  }

  function TableDataDirPath(root: string, schemaName: string, tableName: string): string {
    TablePath(root, schemaName, tableName) + "/data"
  }

  function TableDataPath(root: string, schemaName: string, tableName: string): (p: string)
    ensures p == TablePath(root, schemaName, tableName) + "/data/" + tableName + ".csv"
  {
    TableDataDirPath(root, schemaName, tableName) + "/" + tableName + ".csv"
  }

  function TableIndexesDirPath(root: string, schemaName: string, tableName: string): string {
    TablePath(root, schemaName, tableName) + "/indexes"
  }

  function TableIndexPath(root: string, schemaName: string, tableName: string, columnName: string): (p: string)
    ensures p == TablePath(root, schemaName, tableName) + "/indexes/" + columnName + ".index.json"
  {
    TableIndexesDirPath(root, schemaName, tableName) + "/" + columnName + ".index.json"
  }

  function TableRowIndexPath(root: string, schemaName: string, tableName: string): string {
    TableIndexesDirPath(root, schemaName, tableName) + "/" + "row_offsets" + ".index.json"
  }

  /** The row index lives where a column index of the reserved name `row_offsets` would. */
  lemma RowIndexPathIsReservedColumnPath(root: string, schemaName: string, tableName: string)
    ensures TableRowIndexPath(root, schemaName, tableName) == TableIndexPath(root, schemaName, tableName, "row_offsets")
  {
  }

  /** Every file of a table lies under the table's directory. */
  lemma TableFilesUnderTablePath(root: string, schemaName: string, tableName: string, columnName: string)
    ensures TablePath(root, schemaName, tableName) <= TableSchemaPath(root, schemaName, tableName)
    ensures TablePath(root, schemaName, tableName) <= TableDataPath(root, schemaName, tableName)
    ensures TablePath(root, schemaName, tableName) <= TableIndexPath(root, schemaName, tableName, columnName)
    ensures TablePath(root, schemaName, tableName) <= TableRowIndexPath(root, schemaName, tableName)
  {
  }

  /** Distinct columns of one table get distinct index files. */
  lemma IndexPathInjective(root: string, schemaName: string, tableName: string, c1: string, c2: string)
    requires TableIndexPath(root, schemaName, tableName, c1) == TableIndexPath(root, schemaName, tableName, c2)
    ensures c1 == c2
  {
    var dir := TablePath(root, schemaName, tableName) + "/indexes/";
    var p1 := TableIndexPath(root, schemaName, tableName, c1);
    var p2 := TableIndexPath(root, schemaName, tableName, c2);
    assert p1 == dir + c1 + ".index.json";
    assert p2 == dir + c2 + ".index.json";
    assert |c1| == |c2|;
    assert c1 == p1[|dir|..|dir| + |c1|];
    assert c2 == p2[|dir|..|dir| + |c2|];
  }
}
