/**
  DROP SCHEMA (delete/delete_schema.rs): the schema's name and the
  database configuration without it. Removing the schema's directory is
  not part of this model.
 */
module DeleteSchema {

  import opened Wrappers
  import opened Types
  import Ast
  import Seqs
  import CreateSchema
  import DeleteTable

  /**
    `get_schema_name`: the first identifier of the first name; anything
    less is reported as a missing table name. Its text is that of
    `get_table_name`, so it is that function.
   */
  function GetSchemaName(names: seq<Ast.ObjectName>): (r: Result<string>)
    ensures r.Ok? <==> |names| > 0 && |names[0].parts| > 0
    ensures r.Ok? ==> r.value == names[0].parts[0].value
    ensures r.Err? ==> r.error == MissingTableName
  {
    DeleteTable.GetTableName(names)
  }

  /**
    The database configuration with every entry naming the schema dropped;
    the default schema is left as it was, even when it is the one dropped.
   */
  function DropFromConfiguration(config: DatabaseConfiguration, schemaName: string): (r: DatabaseConfiguration)
    ensures schemaName !in r.schemas
    ensures forall s :: s != schemaName ==> (s in r.schemas <==> s in config.schemas)
    ensures r.defaultSchema == config.defaultSchema
  {
    config.(schemas := Seqs.RemoveAll(config.schemas, schemaName))
  }

  /** `delete_schema` on the configuration: the name, then the configuration without it. */
  function DeleteSchema(names: seq<Ast.ObjectName>, config: DatabaseConfiguration): (r: Result<(string, DatabaseConfiguration)>)
    ensures r.Ok? <==> GetSchemaName(names).Ok?
    ensures r.Err? ==> r.error == MissingTableName
    ensures r.Ok? ==> r.value.0 == GetSchemaName(names).value && r.value.1 == DropFromConfiguration(config, r.value.0)
  {
    var schemaName :- GetSchemaName(names);
    Ok((schemaName, DropFromConfiguration(config, schemaName)))
  }

  /** Dropping a schema that was just created under a fresh name restores the configuration. */
  lemma DropUndoesCreate(schemaName: Ast.SchemaName, config: DatabaseConfiguration)
    requires CreateSchema.CreateSchema(schemaName, config).Ok?
    requires CreateSchema.CreateSchema(schemaName, config).value.0 !in config.schemas
    ensures var (name, _, created) := CreateSchema.CreateSchema(schemaName, config).value;
      DropFromConfiguration(created, name) == config
  {
    var (name, _, created) := CreateSchema.CreateSchema(schemaName, config).value;
    assert created.schemas == config.schemas + [name];
    Seqs.RemoveAllAppend(config.schemas, [name], name);
    Seqs.RemoveAllKeepsOthers(config.schemas, name);
    assert Seqs.RemoveAll([name], name) == [];
  }
}
