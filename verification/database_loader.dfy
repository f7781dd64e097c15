/**
  Loading and reloading the in-memory catalog (database/database_loader.rs).
  The catalog is read from JSON files: the database configuration lists
  the schemas, each schema configuration lists its tables, and each table
  has a schema file. A schema or table whose file cannot be read is
  skipped. The files are a parameter (`Files`); the global lock becomes a
  flag saying whether it is poisoned, and each operation gives back the
  catalog it leaves behind.
 */
module DatabaseLoader {

  import opened Wrappers
  import opened Types
  import Seqs
  import Catalog

  /** What the catalog's JSON files hold: each read either yields its record or fails. */
  datatype Files = Files(
    databaseConfiguration: Result<DatabaseConfiguration>,
    schemaConfiguration: string -> Result<SchemaConfiguration>,
    tableSchema: (string, string) -> Result<TableSchema>)

  // ---------------------------------------------------------------------------
  // Loading
  // ---------------------------------------------------------------------------

  /**
    The loop shared by the two loaders: every key is loaded in order, a
    successful load is kept and a failed one is skipped.
   */
  function Successes<K, V>(keys: seq<K>, load: K -> Result<V>): (r: seq<V>)
    ensures |r| <= |keys|
  {
    if |keys| == 0 then []
    else
      match load(keys[0])
      case Ok(v) => [v] + Successes(keys[1..], load)
      case Err(_) => Successes(keys[1..], load)
  }

  /** Nothing is invented: every kept value is what some key loaded to. */
  lemma {:induction false} SuccessesComeFromKeys<K, V>(keys: seq<K>, load: K -> Result<V>)
    ensures forall i :: 0 <= i < |Successes(keys, load)| ==>
      exists k :: 0 <= k < |keys| && load(keys[k]) == Ok(Successes(keys, load)[i])
  {
    if |keys| > 0 {
      var rest := Successes(keys[1..], load);
      SuccessesComeFromKeys(keys[1..], load);
      forall i | 0 <= i < |Successes(keys, load)|
        ensures exists k :: 0 <= k < |keys| && load(keys[k]) == Ok(Successes(keys, load)[i])
      {
        var r := Successes(keys, load);
        if load(keys[0]).Ok? && i == 0 {
          assert load(keys[0]) == Ok(r[0]);
        } else {
          var i' := if load(keys[0]).Ok? then i - 1 else i;
          assert r[i] == rest[i'];
          var k' :| 0 <= k' < |keys[1..]| && load(keys[1..][k']) == Ok(rest[i']);
          assert load(keys[k' + 1]) == Ok(r[i]);
        }
      }
    } else {
      assert Successes(keys, load) == [];
    }
  }

  /** Nothing is lost when every load succeeds: the values come back one per key, in order. */
  lemma {:induction false} SuccessesWhenAllLoad<K, V>(keys: seq<K>, load: K -> Result<V>)
    ensures (forall k :: 0 <= k < |keys| ==> load(keys[k]).Ok?) ==>
      |Successes(keys, load)| == |keys| && forall k :: 0 <= k < |keys| ==> Ok(Successes(keys, load)[k]) == load(keys[k])
  {
    if |keys| > 0 && forall k :: 0 <= k < |keys| ==> load(keys[k]).Ok? {
      assert forall k :: 1 <= k < |keys| ==> keys[k] == keys[1..][k - 1];
      SuccessesWhenAllLoad(keys[1..], load);
    }
  }

  /** Failed loads leave no trace: a list of failures yields nothing. */
  lemma {:induction false} SuccessesWhenNoneLoads<K, V>(keys: seq<K>, load: K -> Result<V>)
    requires forall k :: 0 <= k < |keys| ==> load(keys[k]).Err?
    ensures Successes(keys, load) == []
  {
    if |keys| > 0 {
      assert forall k :: 1 <= k < |keys| ==> keys[k] == keys[1..][k - 1];
      SuccessesWhenNoneLoads(keys[1..], load);
    }
  }

  /** The loop keeps the order of the keys: loading a concatenation concatenates the loads. */
  lemma {:induction false} SuccessesAppend<K, V>(a: seq<K>, b: seq<K>, load: K -> Result<V>)
    ensures Successes(a + b, load) == Successes(a, load) + Successes(b, load)
  {
    if |a| == 0 {
      assert a + b == b;
    } else {
      SuccessesAppend(a[1..], b, load);
      assert (a + b)[1..] == a[1..] + b;
      assert (a + b)[0] == a[0];
    }
  }

  /** `load_table`, for the tables of one schema. */
  function TableLoader(files: Files, schemaName: string): string -> Result<TableSchema> {
    (tableName: string) => files.tableSchema(schemaName, tableName)
  }

  /**
    `load_schema`: the schema's configuration must be readable; its tables
    are loaded in the listed order, skipping those that fail.
   */
  function LoadSchema(schemaName: string, files: Files): (r: Result<Schema>)
    ensures files.schemaConfiguration(schemaName).Err? ==> r == Err(files.schemaConfiguration(schemaName).error)
    ensures r.Ok? <==> files.schemaConfiguration(schemaName).Ok?
    ensures r.Ok? ==>
      var config := files.schemaConfiguration(schemaName).value;
      && r.value.name == schemaName
      && r.value.configuration == config
      && r.value.tables == Successes(config.tables, TableLoader(files, schemaName))
      && |r.value.tables| <= |config.tables|
      && (forall i :: 0 <= i < |r.value.tables| ==>
            exists k :: 0 <= k < |config.tables| && files.tableSchema(schemaName, config.tables[k]) == Ok(r.value.tables[i]))
      && ((forall k :: 0 <= k < |config.tables| ==> files.tableSchema(schemaName, config.tables[k]).Ok?) ==>
            |r.value.tables| == |config.tables|
            && forall k :: 0 <= k < |config.tables| ==> Ok(r.value.tables[k]) == files.tableSchema(schemaName, config.tables[k]))
  {
    var config :- files.schemaConfiguration(schemaName);
    SuccessesComeFromKeys(config.tables, TableLoader(files, schemaName));
    SuccessesWhenAllLoad(config.tables, TableLoader(files, schemaName));
    Ok(Schema(schemaName, Successes(config.tables, TableLoader(files, schemaName)), config))
  }

  /** `load_schema`, for the schemas of the database. */
  function SchemaLoader(files: Files): string -> Result<Schema> {
    (schemaName: string) => LoadSchema(schemaName, files)
  }

  /** `schema` carries the name of a listed schema whose configuration could be read. */
  predicate ListedAndConfigured(files: Files, names: seq<string>, schema: Schema) {
    exists k :: 0 <= k < |names| && names[k] == schema.name && files.schemaConfiguration(names[k]).Ok?
  }

  /** Every schema kept by the loader names a listed schema whose configuration could be read. */
  lemma LoadedSchemasAreConfigured(files: Files, names: seq<string>)
    ensures forall i :: 0 <= i < |Successes(names, SchemaLoader(files))| ==>
      ListedAndConfigured(files, names, Successes(names, SchemaLoader(files))[i])
  {
    var schemas := Successes(names, SchemaLoader(files));
    SuccessesComeFromKeys(names, SchemaLoader(files));
    forall i | 0 <= i < |schemas|
      ensures ListedAndConfigured(files, names, schemas[i])
    {
      var k :| 0 <= k < |names| && SchemaLoader(files)(names[k]) == Ok(schemas[i]);
      assert LoadSchema(names[k], files) == Ok(schemas[i]);
    }
  }

  /**
    `load_database`: the database configuration must be readable and the
    lock sound; the schemas are loaded in the listed order, skipping those
    whose configuration cannot be read, and they replace the whole catalog.
   */
  function LoadDatabase(files: Files, lockPoisoned: bool): (r: Result<Database>)
    ensures files.databaseConfiguration.Err? ==> r == Err(files.databaseConfiguration.error)
    ensures files.databaseConfiguration.Ok? && lockPoisoned ==> r == Err(FailedDatabaseLoading)
    ensures r.Ok? <==> files.databaseConfiguration.Ok? && !lockPoisoned
    ensures r.Ok? ==>
      var config := files.databaseConfiguration.value;
      && r.value.configuration == config
      && r.value.schemas == Successes(config.schemas, SchemaLoader(files))
      && (forall i :: 0 <= i < |r.value.schemas| ==> ListedAndConfigured(files, config.schemas, r.value.schemas[i]))
      && ((forall k :: 0 <= k < |config.schemas| ==> files.schemaConfiguration(config.schemas[k]).Ok?) ==>
            |r.value.schemas| == |config.schemas|
            && forall k :: 0 <= k < |config.schemas| ==> r.value.schemas[k].name == config.schemas[k])
  {
    var config :- files.databaseConfiguration;
    var schemas := Successes(config.schemas, SchemaLoader(files));
    if lockPoisoned then Err(FailedDatabaseLoading)
    else
      LoadedSchemasAreConfigured(files, config.schemas);
      SuccessesWhenAllLoad(config.schemas, SchemaLoader(files));
      Ok(Database(schemas, config))
  }

  /** `get_database`: a copy of the catalog as it stands, unless the lock is poisoned. */
  function GetDatabase(db: Database, lockPoisoned: bool): (r: Result<Database>)
    ensures lockPoisoned <==> r == Err(FailedDatabaseLoading)
    ensures !lockPoisoned ==> r == Ok(db)
  {
    if lockPoisoned then Err(FailedDatabaseLoading) else Ok(db)
  }

  /** What a sound load stores is what the next read of the catalog returns. */
  lemma LoadedCatalogIsRead(files: Files)
    requires files.databaseConfiguration.Ok?
    ensures GetDatabase(LoadDatabase(files, false).value, false).Ok?
    ensures GetDatabase(LoadDatabase(files, false).value, false).value.configuration == files.databaseConfiguration.value
  {
  }

  // ---------------------------------------------------------------------------
  // Replacing by name
  // ---------------------------------------------------------------------------

  function NameOfSchema(s: Schema): string { s.name }

  function NameOfTable(t: TableSchema): string { t.name }

  /** `i` is the first position of `s` whose key is `k`. */
  predicate FirstWithKey<T>(s: seq<T>, key: T -> string, k: string, i: int) {
    0 <= i < |s| && key(s[i]) == k && forall j :: 0 <= j < i ==> key(s[j]) != k
  }

  /**
    `iter_mut().find(..)` followed by an assignment or a push: the first
    element whose key is `k` is replaced by `x`; when there is none, `x` is
    appended.
   */
  function ReplaceOrAppend<T>(s: seq<T>, key: T -> string, k: string, x: T): (r: seq<T>)
    ensures (forall j :: 0 <= j < |s| ==> key(s[j]) != k) ==> r == s + [x]
    ensures forall i :: FirstWithKey(s, key, k, i) ==> r == s[i := x]
  {
    match Seqs.FirstIndex(s, (y: T) => key(y) == k)
    case None => s + [x]
    case Some(i) =>
      assert FirstWithKey(s, key, k, i);
      assert forall i' :: FirstWithKey(s, key, k, i') ==> i' == i;
      s[i := x]
  }

  /** Replacing twice with the same element is replacing once, when the element carries the key. */
  lemma ReplaceOrAppendIsIdempotent<T>(s: seq<T>, key: T -> string, k: string, x: T)
    requires key(x) == k
    ensures ReplaceOrAppend(ReplaceOrAppend(s, key, k, x), key, k, x) == ReplaceOrAppend(s, key, k, x)
  {
    var r := ReplaceOrAppend(s, key, k, x);
    if i :| FirstWithKey(s, key, k, i) {
      assert FirstWithKey(r, key, k, i);
      assert r[i := x] == r;
    } else {
      NoFirstNoKey(s, key, k);
      assert FirstWithKey(r, key, k, |s|);
      assert r[|s| := x] == r;
    }
  }

  /** A position whose key is `k` has a first such position at or before it. */
  lemma {:induction false} FirstKeyExists<T>(s: seq<T>, key: T -> string, k: string, j: int)
    requires 0 <= j < |s| && key(s[j]) == k
    ensures exists i :: 0 <= i <= j && FirstWithKey(s, key, k, i)
  {
    if !FirstWithKey(s, key, k, j) {
      var j' :| 0 <= j' < j && key(s[j']) == k;
      FirstKeyExists(s, key, k, j');
    }
  }

  /** The key looked up for lands on `x`, when `x` carries it. */
  lemma ReplaceOrAppendFindsIt<T>(s: seq<T>, key: T -> string, k: string, x: T)
    requires key(x) == k
    ensures exists i :: FirstWithKey(ReplaceOrAppend(s, key, k, x), key, k, i)
    ensures forall i :: FirstWithKey(ReplaceOrAppend(s, key, k, x), key, k, i) ==> ReplaceOrAppend(s, key, k, x)[i] == x
  {
    var r := ReplaceOrAppend(s, key, k, x);
    if i' :| FirstWithKey(s, key, k, i') {
      assert r == s[i' := x];
      assert FirstWithKey(r, key, k, i');
      assert forall i :: FirstWithKey(r, key, k, i) ==> i == i';
    } else {
      NoFirstNoKey(s, key, k);
      assert r == s + [x];
      assert FirstWithKey(r, key, k, |s|);
      assert forall i :: FirstWithKey(r, key, k, i) ==> i == |s|;
    }
  }

  /** Without a first position carrying `k`, no position carries it. */
  lemma NoFirstNoKey<T>(s: seq<T>, key: T -> string, k: string)
    requires forall i :: !FirstWithKey(s, key, k, i)
    ensures forall j :: 0 <= j < |s| ==> key(s[j]) != k
  {
    forall j | 0 <= j < |s| && key(s[j]) == k
      ensures false
    {
      FirstKeyExists(s, key, k, j);
    }
  }

  /**
    A lookup of any other key sees what it saw before, unless `x` itself
    carries that key: the same first position, holding the same element.
   */
  lemma ReplaceOrAppendKeepsOthers<T>(s: seq<T>, key: T -> string, k: string, x: T, n: string)
    requires n != k && n != key(x)
    ensures forall i :: FirstWithKey(ReplaceOrAppend(s, key, k, x), key, n, i) <==> FirstWithKey(s, key, n, i)
    ensures forall i :: FirstWithKey(s, key, n, i) ==> ReplaceOrAppend(s, key, k, x)[i] == s[i]
  {
    var r := ReplaceOrAppend(s, key, k, x);
    if i' :| FirstWithKey(s, key, k, i') {
      assert r == s[i' := x];
    } else {
      NoFirstNoKey(s, key, k);
      assert r == s + [x];
    }
    assert |r| >= |s|;
    assert forall j :: 0 <= j < |s| ==> (key(r[j]) == n <==> key(s[j]) == n);
    assert forall j :: |s| <= j < |r| ==> key(r[j]) != n;
    assert forall j :: 0 <= j < |s| && key(s[j]) == n ==> r[j] == s[j];
  }

  /** `Catalog.FindTable` is the lookup of the first table carrying the name. */
  lemma FindTableIsFirst(tables: seq<TableSchema>, n: string)
    ensures (forall i :: !FirstWithKey(tables, NameOfTable, n, i)) ==> Catalog.FindTable(tables, n).None?
    ensures forall i :: FirstWithKey(tables, NameOfTable, n, i) ==> Catalog.FindTable(tables, n) == Some(tables[i])
  {
    var found := Catalog.FindTable(tables, n);
    if found.Some? {
      var i :| 0 <= i < |tables| && tables[i] == found.value && found.value.name == n
        && forall i' :: 0 <= i' < i ==> tables[i'].name != n;
      assert FirstWithKey(tables, NameOfTable, n, i);
      assert forall i' :: FirstWithKey(tables, NameOfTable, n, i') ==> i' == i;
    } else {
      assert forall i :: !FirstWithKey(tables, NameOfTable, n, i);
    }
  }

  /** `Catalog.FindDatabaseSchema` is the lookup of the first schema carrying the name. */
  lemma FindSchemaIsFirst(db: Database, n: string)
    ensures (forall i :: !FirstWithKey(db.schemas, NameOfSchema, n, i)) ==> Catalog.FindDatabaseSchema(db, n).None?
    ensures forall i :: FirstWithKey(db.schemas, NameOfSchema, n, i) ==> Catalog.FindDatabaseSchema(db, n) == Some(db.schemas[i])
  {
    var found := Catalog.FindDatabaseSchema(db, n);
    if found.Some? {
      var i :| 0 <= i < |db.schemas| && db.schemas[i] == found.value && found.value.name == n
        && forall i' :: 0 <= i' < i ==> db.schemas[i'].name != n;
      assert FirstWithKey(db.schemas, NameOfSchema, n, i);
      assert forall i' :: FirstWithKey(db.schemas, NameOfSchema, n, i') ==> i' == i;
    } else {
      assert forall i :: !FirstWithKey(db.schemas, NameOfSchema, n, i);
    }
  }

  /** After the replacement the schema is found under its name as loaded, and every other schema as before. */
  lemma SchemaLookupsAfterReplace(db: Database, schemaName: string, x: Schema)
    requires x.name == schemaName
    ensures var after := db.(schemas := ReplaceOrAppend(db.schemas, NameOfSchema, schemaName, x));
      && Catalog.FindDatabaseSchema(after, schemaName) == Some(x)
      && (forall n :: n != schemaName ==> Catalog.FindDatabaseSchema(after, n) == Catalog.FindDatabaseSchema(db, n))
      && (Catalog.FindDatabaseSchema(db, schemaName).Some? ==> |after.schemas| == |db.schemas|)
      && (Catalog.FindDatabaseSchema(db, schemaName).None? ==> |after.schemas| == |db.schemas| + 1)
  {
    var after := db.(schemas := ReplaceOrAppend(db.schemas, NameOfSchema, schemaName, x));
    ReplaceOrAppendFindsIt(db.schemas, NameOfSchema, schemaName, x);
    FindSchemaIsFirst(after, schemaName);
    FindSchemaIsFirst(db, schemaName);
    if i :| FirstWithKey(db.schemas, NameOfSchema, schemaName, i) {
      assert after.schemas == db.schemas[i := x];
    } else {
      NoFirstNoKey(db.schemas, NameOfSchema, schemaName);
      assert after.schemas == db.schemas + [x];
    }
    forall n | n != schemaName
      ensures Catalog.FindDatabaseSchema(after, n) == Catalog.FindDatabaseSchema(db, n)
    {
      ReplaceOrAppendKeepsOthers(db.schemas, NameOfSchema, schemaName, x, n);
      FindSchemaIsFirst(after, n);
      FindSchemaIsFirst(db, n);
    }
  }

  /** After the replacement the table is found under its name, when it carries it, and every other table as before. */
  lemma TableLookupsAfterReplace(tables: seq<TableSchema>, tableName: string, x: TableSchema)
    ensures var after := ReplaceOrAppend(tables, NameOfTable, tableName, x);
      && (x.name == tableName ==> Catalog.FindTable(after, tableName) == Some(x))
      && forall n :: n != tableName && n != x.name ==> Catalog.FindTable(after, n) == Catalog.FindTable(tables, n)
  {
    var after := ReplaceOrAppend(tables, NameOfTable, tableName, x);
    if x.name == tableName {
      ReplaceOrAppendFindsIt(tables, NameOfTable, tableName, x);
      FindTableIsFirst(after, tableName);
    }
    forall n | n != tableName && n != x.name
      ensures Catalog.FindTable(after, n) == Catalog.FindTable(tables, n)
    {
      ReplaceOrAppendKeepsOthers(tables, NameOfTable, tableName, x, n);
      FindTableIsFirst(after, n);
      FindTableIsFirst(tables, n);
    }
  }

  // ---------------------------------------------------------------------------
  // Reloading
  // ---------------------------------------------------------------------------

  /**
    `reload_schema`: the schema is loaded afresh, then the lock is taken;
    the first schema of that name is replaced, or the schema is added when
    the catalog has none.
   */
  function ReloadSchema(db: Database, lockPoisoned: bool, schemaName: string, files: Files): (r: Result<Database>)
    ensures files.schemaConfiguration(schemaName).Err? ==> r == Err(files.schemaConfiguration(schemaName).error)
    ensures files.schemaConfiguration(schemaName).Ok? && lockPoisoned ==> r == Err(FailedDatabaseLoading)
    ensures r.Ok? <==> files.schemaConfiguration(schemaName).Ok? && !lockPoisoned
    ensures r.Ok? ==>
      && r.value.configuration == db.configuration
      && Catalog.FindDatabaseSchema(r.value, schemaName) == Some(LoadSchema(schemaName, files).value)
      && (forall n :: n != schemaName ==> Catalog.FindDatabaseSchema(r.value, n) == Catalog.FindDatabaseSchema(db, n))
      && (Catalog.FindDatabaseSchema(db, schemaName).Some? ==> |r.value.schemas| == |db.schemas|)
      && (Catalog.FindDatabaseSchema(db, schemaName).None? ==> |r.value.schemas| == |db.schemas| + 1)
  {
    var updated :- LoadSchema(schemaName, files);
    if lockPoisoned then Err(FailedDatabaseLoading)
    else
      SchemaLookupsAfterReplace(db, schemaName, updated);
      Ok(db.(schemas := ReplaceOrAppend(db.schemas, NameOfSchema, schemaName, updated)))
  }

  /** Reloading a schema twice from the same files leaves the catalog as reloading it once. */
  lemma ReloadSchemaIsIdempotent(db: Database, schemaName: string, files: Files)
    requires ReloadSchema(db, false, schemaName, files).Ok?
    ensures ReloadSchema(ReloadSchema(db, false, schemaName, files).value, false, schemaName, files)
      == ReloadSchema(db, false, schemaName, files)
  {
    var updated := LoadSchema(schemaName, files).value;
    ReplaceOrAppendIsIdempotent(db.schemas, NameOfSchema, schemaName, updated);
  }

  /** A replacement that keeps the key keeps every first position. */
  lemma UpdateKeepingKey<T>(s: seq<T>, key: T -> string, i: int, y: T, n: string)
    requires 0 <= i < |s| && key(y) == key(s[i])
    ensures forall j :: FirstWithKey(s[i := y], key, n, j) <==> FirstWithKey(s, key, n, j)
  {
    assert forall j :: 0 <= j < |s| ==> key(s[i := y][j]) == key(s[j]);
  }

  /** The schema at its first position rewritten under the same name: found as rewritten, the others as before. */
  lemma SchemaLookupsAfterUpdate(db: Database, i: int, y: Schema)
    requires FirstWithKey(db.schemas, NameOfSchema, y.name, i)
    ensures var after := db.(schemas := db.schemas[i := y]);
      && Catalog.FindDatabaseSchema(after, y.name) == Some(y)
      && forall n :: n != y.name ==> Catalog.FindDatabaseSchema(after, n) == Catalog.FindDatabaseSchema(db, n)
  {
    var after := db.(schemas := db.schemas[i := y]);
    UpdateKeepingKey(db.schemas, NameOfSchema, i, y, y.name);
    FindSchemaIsFirst(after, y.name);
    forall n | n != y.name
      ensures Catalog.FindDatabaseSchema(after, n) == Catalog.FindDatabaseSchema(db, n)
    {
      UpdateKeepingKey(db.schemas, NameOfSchema, i, y, n);
      FindSchemaIsFirst(after, n);
      FindSchemaIsFirst(db, n);
    }
  }

  /**
    `reload_table_schema`: the table's schema file is read afresh, then the
    lock is taken; the schema must be in the catalog, and in it the first
    table of that name is replaced, or the table is added when it has none.
   */
  function ReloadTableSchema(db: Database, lockPoisoned: bool, schemaName: string, tableName: string, files: Files): (r: Result<Database>)
    ensures files.tableSchema(schemaName, tableName).Err? ==> r == Err(files.tableSchema(schemaName, tableName).error)
    ensures files.tableSchema(schemaName, tableName).Ok? && lockPoisoned ==> r == Err(FailedDatabaseLoading)
    ensures files.tableSchema(schemaName, tableName).Ok? && !lockPoisoned && Catalog.FindDatabaseSchema(db, schemaName).None? ==>
      r == Err(SchemaDoesNotExist(schemaName))
    ensures r.Ok? <==> files.tableSchema(schemaName, tableName).Ok? && !lockPoisoned && Catalog.FindDatabaseSchema(db, schemaName).Some?
    ensures r.Ok? ==>
      var updated := files.tableSchema(schemaName, tableName).value;
      var before := Catalog.FindDatabaseSchema(db, schemaName).value;
      var after := Catalog.FindDatabaseSchema(r.value, schemaName);
      && r.value.configuration == db.configuration
      && |r.value.schemas| == |db.schemas|
      && after.Some?
      && after.value.name == schemaName
      && after.value.configuration == before.configuration
      && (updated.name == tableName ==> Catalog.FindTable(after.value.tables, tableName) == Some(updated))
      && (forall n :: n != tableName && n != updated.name ==>
            Catalog.FindTable(after.value.tables, n) == Catalog.FindTable(before.tables, n))
      && (forall n :: n != schemaName ==> Catalog.FindDatabaseSchema(r.value, n) == Catalog.FindDatabaseSchema(db, n))
  {
    var updated :- files.tableSchema(schemaName, tableName);
    if lockPoisoned then Err(FailedDatabaseLoading)
    else
      FindSchemaIsFirst(db, schemaName);
      match Seqs.FirstIndex(db.schemas, (s: Schema) => NameOfSchema(s) == schemaName)
      case None => Err(SchemaDoesNotExist(schemaName))
      case Some(i) =>
        assert FirstWithKey(db.schemas, NameOfSchema, schemaName, i);
        var schema := db.schemas[i];
        var rewritten := schema.(tables := ReplaceOrAppend(schema.tables, NameOfTable, tableName, updated));
        SchemaLookupsAfterUpdate(db, i, rewritten);
        TableLookupsAfterReplace(schema.tables, tableName, updated);
        Ok(db.(schemas := db.schemas[i := rewritten]))
  }

  /** Reloading a table twice from the same files leaves the catalog as reloading it once, when the file names that table. */
  lemma ReloadTableSchemaIsIdempotent(db: Database, schemaName: string, tableName: string, files: Files)
    requires ReloadTableSchema(db, false, schemaName, tableName, files).Ok?
    requires files.tableSchema(schemaName, tableName).value.name == tableName
    ensures ReloadTableSchema(ReloadTableSchema(db, false, schemaName, tableName, files).value, false, schemaName, tableName, files)
      == ReloadTableSchema(db, false, schemaName, tableName, files)
  {
    var updated := files.tableSchema(schemaName, tableName).value;
    var once := ReloadTableSchema(db, false, schemaName, tableName, files).value;
    var i := Seqs.FirstIndex(db.schemas, (s: Schema) => NameOfSchema(s) == schemaName).value;
    var schema := db.schemas[i];
    var tables := ReplaceOrAppend(schema.tables, NameOfTable, tableName, updated);
    assert once.schemas == db.schemas[i := schema.(tables := tables)];
    UpdateKeepingKey(db.schemas, NameOfSchema, i, schema.(tables := tables), schemaName);
    assert FirstWithKey(once.schemas, NameOfSchema, schemaName, i);
    var i' := Seqs.FirstIndex(once.schemas, (s: Schema) => NameOfSchema(s) == schemaName);
    assert FirstWithKey(once.schemas, NameOfSchema, schemaName, i'.value);
    assert i'.value == i;
    ReplaceOrAppendIsIdempotent(schema.tables, NameOfTable, tableName, updated);
    assert once.schemas[i := once.schemas[i].(tables := ReplaceOrAppend(tables, NameOfTable, tableName, updated))] == once.schemas;
  }
}
