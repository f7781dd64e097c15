/**
  CREATE TRIGGER (trigger/create_trigger.rs): the statement translated
  into the catalog's trigger record and appended to the table's triggers.
  Triggers are stored only; nothing in the engine fires them. Reading and
  writing the table's schema file are parameters.
 */
module CreateTrigger {

  import opened Wrappers
  import opened Types
  import Ast

  function PeriodOf(period: Ast.TriggerPeriod): TriggerPeriod {
    match period
    case Before => Before
    case After => After
    case InsteadOf => InsteadOf
  }

  function SyntaxPeriodOf(period: TriggerPeriod): Ast.TriggerPeriod {
    match period
    case Before => Ast.Before
    case After => Ast.After
    case InsteadOf => Ast.InsteadOf
  }

  /** The column identifiers an UPDATE event lists, with their quoting. */
  function CustomIdents(ids: seq<Ast.Ident>): (r: seq<CustomIdent>)
    ensures |r| == |ids|
    ensures forall i :: 0 <= i < |ids| ==> r[i] == CustomIdent(ids[i].value, ids[i].quoteStyle)
  {
    seq(|ids|, i requires 0 <= i < |ids| => CustomIdent(ids[i].value, ids[i].quoteStyle))
  }

  function SyntaxIdents(ids: seq<CustomIdent>): (r: seq<Ast.Ident>)
    ensures |r| == |ids|
    ensures forall i :: 0 <= i < |ids| ==> r[i] == Ast.Ident(ids[i].value, ids[i].quoteStyle)
  {
    seq(|ids|, i requires 0 <= i < |ids| => Ast.Ident(ids[i].value, ids[i].quoteStyle))
  }

  function EventOf(event: Ast.TriggerEvent): TriggerEvent {
    match event
    case Insert => Insert
    case Update(ids) => Update(CustomIdents(ids))
    case Delete => Delete
    case Truncate => Truncate
  }

  function SyntaxEventOf(event: TriggerEvent): Ast.TriggerEvent {
    match event
    case Insert => Ast.Insert
    case Update(ids) => Ast.Update(SyntaxIdents(ids))
    case Delete => Ast.Delete
    case Truncate => Ast.Truncate
  }

  function ExecTypeOf(execType: Ast.TriggerExecBodyType): TriggerExecBodyType {
    match execType
    case Function => Function
    case Procedure => Procedure
  }

  function SyntaxExecTypeOf(execType: TriggerExecBodyType): Ast.TriggerExecBodyType {
    match execType
    case Function => Ast.Function
    case Procedure => Ast.Procedure
  }

  /**
    The translation loses nothing: the period, every event (an UPDATE
    event's columns and their quoting included) and the body type are
    recovered from the stored record, and every stored value comes from
    some statement.
   */
  lemma TranslationRoundTrip(period: Ast.TriggerPeriod, event: Ast.TriggerEvent, execType: Ast.TriggerExecBodyType,
                             stored: TriggerEvent)
    ensures SyntaxPeriodOf(PeriodOf(period)) == period
    ensures SyntaxEventOf(EventOf(event)) == event
    ensures SyntaxExecTypeOf(ExecTypeOf(execType)) == execType
    ensures EventOf(SyntaxEventOf(stored)) == stored
  {
    if event.Update? {
      assert SyntaxIdents(CustomIdents(event.columns)) == event.columns;
    }
    if stored.Update? {
      assert CustomIdents(SyntaxIdents(stored.columns)) == stored.columns;
    }
  }

  /** The events of the statement, translated one by one in order. */
  function EventsOf(events: seq<Ast.TriggerEvent>): (r: seq<TriggerEvent>)
    ensures |r| == |events|
    ensures forall i :: 0 <= i < |events| ==> r[i] == EventOf(events[i])
  {
    seq(|events|, i requires 0 <= i < |events| => EventOf(events[i]))
  }

  /**
    `validate_create_trigger`: the trigger's name is checked before the
    table's; the record carries both first identifiers, the translated
    period, events and body type, and an empty function name.
   */
  function ValidateCreateTrigger(name: Ast.ObjectName, tableName: Ast.ObjectName, period: Ast.TriggerPeriod,
                                 events: seq<Ast.TriggerEvent>, execBody: Ast.TriggerExecBody): (r: Result<Trigger>)
    ensures |name.parts| == 0 ==> r == Err(MissingTriggerName)
    ensures |name.parts| > 0 && |tableName.parts| == 0 ==> r == Err(MissingTableName)
    ensures r.Ok? <==> |name.parts| > 0 && |tableName.parts| > 0
    ensures r.Ok? ==>
      && r.value.name == name.parts[0].value
      && r.value.tableName == tableName.parts[0].value
      && SyntaxPeriodOf(r.value.period) == period
      && |r.value.events| == |events|
      && (forall i :: 0 <= i < |events| ==> SyntaxEventOf(r.value.events[i]) == events[i])
      && SyntaxExecTypeOf(r.value.execBodyType) == execBody.execType
      && r.value.action.functionName == ""
  {
    if |name.parts| == 0 then Err(MissingTriggerName)
    else if |tableName.parts| == 0 then Err(MissingTableName)
    else
      TranslationsRoundTrip(period, events, execBody.execType);
      Ok(Trigger(name.parts[0].value, tableName.parts[0].value, PeriodOf(period), EventsOf(events),
                 TriggerAction(""), ExecTypeOf(execBody.execType)))
  }

  lemma TranslationsRoundTrip(period: Ast.TriggerPeriod, events: seq<Ast.TriggerEvent>, execType: Ast.TriggerExecBodyType)
    ensures SyntaxPeriodOf(PeriodOf(period)) == period
    ensures forall i :: 0 <= i < |events| ==> SyntaxEventOf(EventsOf(events)[i]) == events[i]
    ensures SyntaxExecTypeOf(ExecTypeOf(execType)) == execType
  {
    forall i | 0 <= i < |events|
      ensures SyntaxEventOf(EventsOf(events)[i]) == events[i]
    {
      TranslationRoundTrip(period, events[i], execType, Insert);
    }
    TranslationRoundTrip(period, Ast.Insert, execType, Insert);
  }

  /** The table schema with the trigger appended; nothing else about the table changes. */
  function AddTrigger(table: TableSchema, trigger: Trigger): (r: TableSchema)
    ensures r.name == table.name && r.columns == table.columns && r.foreignKeys == table.foreignKeys
    ensures |r.triggers| == |table.triggers| + 1
    ensures r.triggers[..|table.triggers|] == table.triggers && r.triggers[|table.triggers|] == trigger
  {
    table.(triggers := table.triggers + [trigger])
  }

  /**
    `create_trigger`: validate, then read the table's schema file from the
    default schema of the loaded catalog, append the trigger, and give back
    the schema to be written. `loaded` stands for the catalog lock and
    `readSchema` for the read of the schema file.
   */
  function CreateTrigger(name: Ast.ObjectName, tableName: Ast.ObjectName, period: Ast.TriggerPeriod,
                         events: seq<Ast.TriggerEvent>, execBody: Ast.TriggerExecBody, loaded: Result<Database>,
                         readSchema: (string, string) -> Result<TableSchema>): (r: Result<TableSchema>)
    ensures ValidateCreateTrigger(name, tableName, period, events, execBody).Err? ==>
      r == Err(ValidateCreateTrigger(name, tableName, period, events, execBody).error)
    ensures ValidateCreateTrigger(name, tableName, period, events, execBody).Ok? && loaded.Err? ==> r == Err(loaded.error)
    ensures r.Ok? ==>
      var trigger := ValidateCreateTrigger(name, tableName, period, events, execBody).value;
      var stored := readSchema(loaded.value.configuration.defaultSchema, trigger.tableName);
      && trigger.tableName == tableName.parts[0].value
      && stored.Ok?
      && r.value == AddTrigger(stored.value, trigger)
  {
    var trigger :- ValidateCreateTrigger(name, tableName, period, events, execBody);
    var db :- loaded;
    var table :- readSchema(db.configuration.defaultSchema, trigger.tableName);
    Ok(AddTrigger(table, trigger))
  }
}
