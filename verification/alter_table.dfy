/**
  ALTER TABLE dispatch (alter_table/alter_table_dispatcher.rs): the
  operations are split into bulk ones (column additions, drops and
  changes), which this dispatcher leaves alone, and the others, of which
  only foreign-key constraints are supported. The foreign-key handler is a
  parameter: its code is not part of this model.
 */
module AlterTable {

  import opened Wrappers
  import opened Types
  import Ast
  import Seqs

  const AlteredMessage: string := "Success: the table has been altered successfully."

  /** `bulk_operation_strategy`: column additions, drops and changes are bulk operations; renames, constraints and the rest are not. */
  function BulkOperationStrategy(operation: Ast.AlterTableOperation): (bulk: bool)
    ensures bulk <==> !(operation.RenameColumn? || operation.AddConstraint? || operation.OtherAlterOperation?)
  {
    match operation
    case AddColumn(_) => true
    case DropColumn(_) => true
    case ChangeColumn(_, _) => true
    case _ => false
  }

  /** The two filters of the dispatcher: bulk operations and the others, each in statement order. */
  function Partition(operations: seq<Ast.AlterTableOperation>): (parts: (seq<Ast.AlterTableOperation>, seq<Ast.AlterTableOperation>))
    ensures forall i :: 0 <= i < |parts.0| ==> BulkOperationStrategy(parts.0[i])
    ensures forall i :: 0 <= i < |parts.1| ==> !BulkOperationStrategy(parts.1[i])
  {
    (Seqs.Filter(operations, BulkOperationStrategy), Seqs.Filter(operations, (op: Ast.AlterTableOperation) => !BulkOperationStrategy(op)))
  }

  /** The partition loses and invents nothing: together the two parts hold every operation exactly as often as the statement does. */
  lemma {:induction false} PartitionIsComplete(operations: seq<Ast.AlterTableOperation>)
    ensures multiset(Partition(operations).0) + multiset(Partition(operations).1) == multiset(operations)
    ensures |Partition(operations).0| + |Partition(operations).1| == |operations|
  {
    if |operations| > 0 {
      PartitionIsComplete(operations[1..]);
      assert operations == [operations[0]] + operations[1..];
    }
  }

  /**
    `dispatch_add_constraint_statement`: a foreign key goes to its handler;
    any other table constraint is unsupported, reported under the table's
    name.
   */
  function DispatchAddConstraint(tableName: string, constraint: Ast.TableConstraint,
                                 handleForeignKey: Ast.TableConstraint -> Outcome): (r: Outcome)
    ensures constraint.ForeignKeyConstraint? ==> r == handleForeignKey(constraint)
    ensures !constraint.ForeignKeyConstraint? ==> r == Fail(UnsupportedConstraint(tableName, TableConstraintSyntax(constraint)))
  {
    match constraint
    case ForeignKeyConstraint(_, _, _, _) => handleForeignKey(constraint)
    case _ => Fail(UnsupportedConstraint(tableName, TableConstraintSyntax(constraint)))
  }

  /** The outcome of one non-bulk operation: only ADD CONSTRAINT is supported. */
  function OtherOperation(tableName: string, operation: Ast.AlterTableOperation,
                          handleForeignKey: Ast.TableConstraint -> Outcome): (r: Outcome)
    ensures !operation.AddConstraint? ==> r == Fail(NotSupportedUpdateTableOperation)
    ensures operation.AddConstraint? ==> r == DispatchAddConstraint(tableName, operation.constraint, handleForeignKey)
  {
    if operation.AddConstraint? then DispatchAddConstraint(tableName, operation.constraint, handleForeignKey)
    else Fail(NotSupportedUpdateTableOperation)
  }

  /** The loop over the non-bulk operations: the first failure stops it. */
  function HandleOtherOperations(tableName: string, operations: seq<Ast.AlterTableOperation>,
                                 handleForeignKey: Ast.TableConstraint -> Outcome): (r: Outcome)
    ensures r.Pass? <==> forall i :: 0 <= i < |operations| ==> OtherOperation(tableName, operations[i], handleForeignKey).Pass?
    ensures r.Fail? ==> exists i :: (0 <= i < |operations| && OtherOperation(tableName, operations[i], handleForeignKey) == r
      && forall i' :: 0 <= i' < i ==> OtherOperation(tableName, operations[i'], handleForeignKey).Pass?)
  {
    if |operations| == 0 then Pass
    else
      var first := OtherOperation(tableName, operations[0], handleForeignKey);
      if first.Fail? then first
      else
        var rest := HandleOtherOperations(tableName, operations[1..], handleForeignKey);
        assert forall i :: 1 <= i < |operations| ==> operations[i] == operations[1..][i - 1];
        if rest.Fail? then
          var i :| 0 <= i < |operations[1..]| && OtherOperation(tableName, operations[1..][i], handleForeignKey) == rest
            && forall i' :: 0 <= i' < i ==> OtherOperation(tableName, operations[1..][i'], handleForeignKey).Pass?;
          assert OtherOperation(tableName, operations[i + 1], handleForeignKey) == rest;
          rest
        else
          rest
  }

  /**
    `dispatch_alter_table_statement`: a table name is required and the
    catalog must be available (`loaded`); the bulk operations are set aside
    unexecuted, and the others run in order.
   */
  function DispatchAlterTable(name: Ast.ObjectName, operations: seq<Ast.AlterTableOperation>, loaded: Result<Database>,
                              handleForeignKey: Ast.TableConstraint -> Outcome): (r: Result<string>)
    ensures |name.parts| == 0 ==> r == Err(MissingTableName)
    ensures |name.parts| > 0 && loaded.Err? ==> r == Err(loaded.error)
    ensures r.Ok? ==> r.value == AlteredMessage
    ensures r.Ok? <==> (&& |name.parts| > 0
                        && loaded.Ok?
                        && forall i :: 0 <= i < |operations| && !BulkOperationStrategy(operations[i]) ==>
                             operations[i].AddConstraint?
                             && DispatchAddConstraint(name.parts[0].value, operations[i].constraint, handleForeignKey).Pass?)
  {
    if |name.parts| == 0 then Err(MissingTableName)
    else
      var tableName := name.parts[0].value;
      var _ :- loaded;
      var (_, others) := Partition(operations);
      OthersPassExactly(tableName, operations, handleForeignKey);
      var handled := HandleOtherOperations(tableName, others, handleForeignKey);
      if handled.Fail? then Err(handled.error) else Ok(AlteredMessage)
  }

  /** The non-bulk part passes exactly when every non-bulk operation of the statement does. */
  lemma {:induction false} OthersPassExactly(tableName: string, operations: seq<Ast.AlterTableOperation>,
                                             handleForeignKey: Ast.TableConstraint -> Outcome)
    ensures HandleOtherOperations(tableName, Partition(operations).1, handleForeignKey).Pass? <==>
      forall i :: 0 <= i < |operations| && !BulkOperationStrategy(operations[i]) ==> OtherOperation(tableName, operations[i], handleForeignKey).Pass?
  {
    var p := (op: Ast.AlterTableOperation) => !BulkOperationStrategy(op);
    if |operations| > 0 {
      OthersPassExactly(tableName, operations[1..], handleForeignKey);
      assert forall i :: 1 <= i < |operations| ==> operations[i] == operations[1..][i - 1];
      if p(operations[0]) {
        assert Partition(operations).1 == [operations[0]] + Partition(operations[1..]).1;
        assert Partition(operations).1[1..] == Partition(operations[1..]).1;
      }
    }
  }

  /**
    Bulk operations have no effect on the outcome: the statement fares as
    its non-bulk operations alone would, wherever the bulk ones stood.
   */
  lemma BulkOperationsAreIgnored(name: Ast.ObjectName, operations: seq<Ast.AlterTableOperation>, loaded: Result<Database>,
                                 handleForeignKey: Ast.TableConstraint -> Outcome)
    ensures DispatchAlterTable(name, operations, loaded, handleForeignKey)
      == DispatchAlterTable(name, Partition(operations).1, loaded, handleForeignKey)
  {
    var others := Partition(operations).1;
    FilterKeepsAll(others, (op: Ast.AlterTableOperation) => !BulkOperationStrategy(op));
  }

  /** Filtering a list whose every element passes keeps it whole. */
  lemma {:induction false} FilterKeepsAll<T>(s: seq<T>, p: T -> bool)
    requires forall i :: 0 <= i < |s| ==> p(s[i])
    ensures Seqs.Filter(s, p) == s
  {
    if |s| > 0 {
      FilterKeepsAll(s[1..], p);
    }
  }
}
