/**
  CREATE SCHEMA (create/create_schema.rs): the schema's name, its empty
  configuration, and the database configuration with the name added.
  Creating the directories and writing the files is not part of this
  model; the configurations written are.
 */
module CreateSchema {

  import opened Wrappers
  import opened Types
  import Ast

  /** `get_schema_name_string`: the first identifier of a plain schema name. */
  function GetSchemaNameString(schemaName: Ast.SchemaName): (r: Result<string>)
    ensures r.Ok? <==> schemaName.Simple? && |schemaName.name.parts| > 0
    ensures r.Ok? ==> r.value == schemaName.name.parts[0].value
    ensures r.Err? ==> r.error == GenericUnsupported
  {
    match schemaName
    case Simple(objectName) => if |objectName.parts| > 0 then Ok(objectName.parts[0].value) else Err(GenericUnsupported)
    case _ => Err(GenericUnsupported)
  }

  /**
    `create_schema`: the new schema starts without tables, and the
    database configuration gets the name appended at the end — with no
    check that it is not there already.
   */
  function CreateSchema(schemaName: Ast.SchemaName, config: DatabaseConfiguration): (r: Result<(string, SchemaConfiguration, DatabaseConfiguration)>)
    ensures r.Ok? <==> GetSchemaNameString(schemaName).Ok?
    ensures r.Err? ==> r.error == GenericUnsupported
    ensures r.Ok? ==>
      && r.value.0 == GetSchemaNameString(schemaName).value
      && r.value.1.tables == []
      && |r.value.2.schemas| == |config.schemas| + 1
      && r.value.2.schemas[..|config.schemas|] == config.schemas
      && r.value.2.schemas[|config.schemas|] == r.value.0
      && r.value.2.defaultSchema == config.defaultSchema
  {
    var name :- GetSchemaNameString(schemaName);
    Ok((name, SchemaConfiguration([]), config.(schemas := config.schemas + [name])))
  }
}
