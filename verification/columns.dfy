/** Columns (column.go): the engine's `__Column` catalog record, how its answer is
    read, and the text of the ALTER TABLE statements that add and drop columns. */
module Columns {
  import opened Results
  import opened Strings
  import opened Errors
  import opened Engine

  /** A row of `__Column`. The ordinal is carried but never used. */
  datatype Column = Column(tableName: string, ordinal: int, name: string, columnType: string)

  /** `DescTable` once the engine has answered. No result set means the table
      does not exist, which is an empty list and not an error. */
  function DescTable(answer: Answer<Column>): (r: Result<seq<Column>, Error>)
    ensures answer.Failed? <==> r.Err?
    ensures answer.Failed? ==> r == Err(Engine(answer.cause))
    ensures answer.Sets? && |answer.sets| == 0 ==> r == Ok([])
    ensures answer.Sets? && |answer.sets| > 0 ==> r == Ok(answer.sets[0])
  {
    match answer
    case Failed(cause) => Err(Engine(cause))
    case Sets(sets) => if |sets| == 0 then Ok([]) else Ok(sets[0])
  }

  /** `addColumn`: the column is added with its full mapped type, default clause included. */
  function AddColumnSQL(table: string, name: string, qlType: string): (r: string)
    ensures HasPrefix(r, "BEGIN TRANSACTION;alter table ") && HasSuffix(r, ";COMMIT;")
  {
    "BEGIN TRANSACTION;alter table " + table + " add " + name + " " + qlType + ";COMMIT;"
  }

  /** `dropColumn`. */
  function DropColumnSQL(table: string, name: string): (r: string)
    ensures HasPrefix(r, "BEGIN TRANSACTION;alter table ") && HasSuffix(r, ";COMMIT;")
  {
    "BEGIN TRANSACTION;alter table " + table + " drop column " + name + ";COMMIT;"
  }

  /** Regrouping the ALTER TABLE concatenations word by word. */
  lemma AddColumnRegroup(b: string, w: string, t: string, a: string, n: string, q: string, c: string,
                         w1: string, w2: string, a1: string)
    requires w == w1 + " " + (w2 + " ") && a == " " + (a1 + " ")
    ensures b + w + t + a + n + " " + q + c
      == b + (w1 + " " + (w2 + " " + (t + " " + (a1 + " " + (n + " " + q))))) + c
  {
  }

  lemma DropColumnRegroup(b: string, w: string, t: string, d: string, n: string, c: string,
                          w1: string, w2: string, d1: string, d2: string)
    requires w == w1 + " " + (w2 + " ") && d == " " + (d1 + " " + (d2 + " "))
    ensures b + w + t + d + n + c
      == b + (w1 + " " + (w2 + " " + (t + " " + (d1 + " " + (d2 + " " + n))))) + c
  {
  }

  /** The ALTER TABLE scripts regrouped word by word inside their transaction frame. */
  lemma AlterTableWords(table: string, name: string, qlType: string)
    ensures AddColumnSQL(table, name, qlType) == "BEGIN TRANSACTION;"
      + ("alter" + " " + ("table" + " " + (table + " " + ("add" + " " + (name + " " + qlType))))) + ";COMMIT;"
    ensures DropColumnSQL(table, name) == "BEGIN TRANSACTION;"
      + ("alter" + " " + ("table" + " " + (table + " " + ("drop" + " " + ("column" + " " + name))))) + ";COMMIT;"
  {
    assert "BEGIN TRANSACTION;alter table " == "BEGIN TRANSACTION;" + "alter table ";
    assert "alter table " == "alter" + " " + ("table" + " ") && " add " == " " + ("add" + " ");
    assert " drop column " == " " + ("drop" + " " + ("column" + " "));
    AddColumnRegroup("BEGIN TRANSACTION;", "alter table ", table, " add ", name, qlType, ";COMMIT;",
                     "alter", "table", "add");
    DropColumnRegroup("BEGIN TRANSACTION;", "alter table ", table, " drop column ", name, ";COMMIT;",
                      "alter", "table", "drop", "column");
  }

  /** Read back at blanks, the wrapped ALTER TABLE statement names its table,
      the column and the whole type, default clause included, in that order. */
  lemma AddColumnSQLReadsBack(table: string, name: string, qlType: string)
    requires ' ' !in table && ' ' !in name
    ensures Split(Transacted(AddColumnSQL(table, name, qlType)), ' ')
      == ["alter", "table", table, "add", name] + Split(qlType, ' ')
  {
    AlterTableWords(table, name, qlType);
    TransactedBody("alter" + " " + ("table" + " " + (table + " " + ("add" + " " + (name + " " + qlType)))));
    SplitFiveWords("alter", "table", table, "add", name, qlType);
  }

  /** Read back at blanks, the wrapped DROP COLUMN statement names its table and the column. */
  lemma DropColumnSQLReadsBack(table: string, name: string)
    requires ' ' !in table
    ensures Split(Transacted(DropColumnSQL(table, name)), ' ')
      == ["alter", "table", table, "drop", "column"] + Split(name, ' ')
  {
    AlterTableWords(table, name, "");
    TransactedBody("alter" + " " + ("table" + " " + (table + " " + ("drop" + " " + ("column" + " " + name)))));
    SplitFiveWords("alter", "table", table, "drop", "column", name);
  }

  /** So two ADD COLUMN scripts are the same text only when they add the same
      column, with the same type, to the same table. */
  lemma AddColumnSQLInjective(t1: string, n1: string, q1: string, t2: string, n2: string, q2: string)
    requires ' ' !in t1 && ' ' !in n1 && ' ' !in t2 && ' ' !in n2
    requires AddColumnSQL(t1, n1, q1) == AddColumnSQL(t2, n2, q2)
    ensures t1 == t2 && n1 == n2 && q1 == q2
  {
    AddColumnSQLReadsBack(t1, n1, q1);
    AddColumnSQLReadsBack(t2, n2, q2);
    var w1 := ["alter", "table", t1, "add", n1] + Split(q1, ' ');
    var w2 := ["alter", "table", t2, "add", n2] + Split(q2, ' ');
    assert w1[2] == w2[2] && w1[4] == w2[4];
    assert Split(q1, ' ') == w1[5..] == w2[5..] == Split(q2, ' ');
    JoinSplit(q1, ' ');
    JoinSplit(q2, ' ');
  }
}
