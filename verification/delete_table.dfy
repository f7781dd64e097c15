/**
  DROP TABLE (delete/delete_table.rs): the table's name and the default
  schema's configuration without it. Removing the table's directory and
  reloading the schema are not part of this model.
 */
module DeleteTable {

  import opened Wrappers
  import opened Types
  import Ast
  import Seqs

  /** `get_table_name`: the first identifier of the first name; anything less is a missing table name. */
  function GetTableName(names: seq<Ast.ObjectName>): (r: Result<string>)
    ensures r.Ok? <==> |names| > 0 && |names[0].parts| > 0
    ensures r.Ok? ==> r.value == names[0].parts[0].value
    ensures r.Err? ==> r.error == MissingTableName
  {
    if |names| > 0 && |names[0].parts| > 0 then Ok(names[0].parts[0].value) else Err(MissingTableName)
  }

  /** The schema configuration with every entry naming the table dropped. */
  function DropFromConfiguration(config: SchemaConfiguration, tableName: string): (r: SchemaConfiguration)
    ensures tableName !in r.tables
    ensures forall t :: t != tableName ==> (t in r.tables <==> t in config.tables)
    ensures forall t :: t != tableName ==> multiset(r.tables)[t] == multiset(config.tables)[t]
  {
    var tables := Seqs.RemoveAll(config.tables, tableName);
    CountsOfOthersKept(config.tables, tableName);
    SchemaConfiguration(tables)
  }

  /** Removal of one name keeps the count of every other name. */
  lemma {:induction false} CountsOfOthersKept(s: seq<string>, x: string)
    ensures forall t :: t != x ==> multiset(Seqs.RemoveAll(s, x))[t] == multiset(s)[t]
  {
    if |s| > 0 {
      CountsOfOthersKept(s[1..], x);
      assert s == [s[0]] + s[1..];
      if s[0] != x {
        assert Seqs.RemoveAll(s, x) == [s[0]] + Seqs.RemoveAll(s[1..], x);
      }
    }
  }

  /** `delete_table` on the configuration: the name, then the configuration without it. */
  function DeleteTable(names: seq<Ast.ObjectName>, config: SchemaConfiguration): (r: Result<(string, SchemaConfiguration)>)
    ensures r.Ok? <==> GetTableName(names).Ok?
    ensures r.Err? ==> r.error == MissingTableName
    ensures r.Ok? ==> r.value.0 == GetTableName(names).value && r.value.1 == DropFromConfiguration(config, r.value.0)
  {
    var tableName :- GetTableName(names);
    Ok((tableName, DropFromConfiguration(config, tableName)))
  }

  /**
    The other tables keep their order: dropping a table from a list is
    dropping it from each part of the list; dropping it again changes
    nothing.
   */
  lemma DropKeepsOrder(before: seq<string>, after: seq<string>, tableName: string)
    ensures DropFromConfiguration(SchemaConfiguration(before + after), tableName).tables
      == DropFromConfiguration(SchemaConfiguration(before), tableName).tables + DropFromConfiguration(SchemaConfiguration(after), tableName).tables
    ensures var once := DropFromConfiguration(SchemaConfiguration(before), tableName);
      DropFromConfiguration(once, tableName) == once
  {
    Seqs.RemoveAllAppend(before, after, tableName);
    Seqs.RemoveAllKeepsOthers(DropFromConfiguration(SchemaConfiguration(before), tableName).tables, tableName);
  }

  /** A table that was listed once is simply cut out of the list. */
  lemma DropOfListedTable(before: seq<string>, tableName: string, after: seq<string>)
    requires tableName !in before && tableName !in after
    ensures DropFromConfiguration(SchemaConfiguration(before + [tableName] + after), tableName).tables == before + after
  {
    Seqs.RemoveAllCutsOut(before, tableName, after);
  }
}
