/** The migrations ledger of MssqlDatabase: the table of applied migration ids, the
    statements that read and write it, and the statement delimiter. */
module Ledger {
  import opened Text
  import opened BatchSplitter

  /** C# long. */
  newtype Int64 = x: int | -0x8000_0000_0000_0000 <= x < 0x8000_0000_0000_0000

  /** A migration script and its id (the script's source reference is not modelled). */
  datatype Migration = Migration(id: Int64, script: string)

  /** One row of the Migrations table: Id, Date, User, Host. The server fills the last
      three from its defaults; Date is kept as an opaque timestamp. */
  datatype LedgerRow = LedgerRow(id: Int64, date: int, user: string, host: string)

  // ---------------------------------------------------------------------------
  // Decimal rendering of an id, as string.Format("{0}", long) writes it

  predicate IsDigit(c: char) { '0' <= c <= '9' }

  predicate AllDigits(t: string) {
    forall i :: 0 <= i < |t| ==> IsDigit(t[i])
  }

  /** Decimal digits of `n`, most significant first, without leading zeros. */
  function DecimalDigits(n: nat): (r: string)
    ensures 0 < |r| && AllDigits(r)
    ensures r[0] == '0' ==> n == 0
  {
    var last := ['0' + (n % 10) as char];
    if n < 10 then last else DecimalDigits(n / 10) + last
  }

  /** The text of a long in an SQL statement: a minus sign for negative ids, then the digits. */
  function FormatInt64(n: Int64): (r: string)
    ensures 0 < |r| && forall i :: 0 <= i < |r| ==> IsDigit(r[i]) || r[i] == '-'
    ensures r[0] == '-' <==> n < 0
  {
    if n < 0 then "-" + DecimalDigits(-(n as int)) else DecimalDigits(n as int)
  }

  /** The value of a string of decimal digits, as the server reads a numeric literal. */
  function DigitsValue(t: string): nat
    requires AllDigits(t)
  {
    if t == [] then 0
    else DigitsValue(t[..|t| - 1]) * 10 + (t[|t| - 1] - '0') as nat
  }

  /** How the server reads an integer literal: an optional minus sign and at least one digit. */
  function ParseInteger(t: string): Option<int> {
    if 0 < |t| && t[0] == '-' then
      if 1 < |t| && AllDigits(t[1..]) then Some(-(DigitsValue(t[1..]) as int)) else None
    else if 0 < |t| && AllDigits(t) then Some(DigitsValue(t))
    else None
  }

  lemma {:induction false} DigitsRoundTrip(n: nat)
    ensures DigitsValue(DecimalDigits(n)) == n
  {
    var last := ['0' + (n % 10) as char];
    if n >= 10 {
      var init := DecimalDigits(n / 10);
      DigitsRoundTrip(n / 10);
      assert (init + last)[..|init + last| - 1] == init;
    }
  }

  /** The server reads back exactly the id that was rendered into the statement. */
  lemma FormatRoundTrip(n: Int64)
    ensures ParseInteger(FormatInt64(n)) == Some(n as int)
  {
    if n < 0 {
      var digits := DecimalDigits(-(n as int));
      DigitsRoundTrip(-(n as int));
      assert ("-" + digits)[1..] == digits;
    } else {
      DigitsRoundTrip(n as int);
    }
  }

  /** Distinct ids render to distinct text. */
  lemma FormatInjective(a: Int64, b: Int64)
    requires FormatInt64(a) == FormatInt64(b)
    ensures a == b
  {
    FormatRoundTrip(a);
    FormatRoundTrip(b);
  }

  // ---------------------------------------------------------------------------
  // Statements on the ledger

  const InsertPrefix := "INSERT INTO Migrations(Id) VALUES("
  const InsertSuffix := ")"
  const DeletePrefix := "DELETE Migrations WHERE Id = "
  const CountPrefix := "SELECT COUNT(*) FROM Migrations WHERE Id = "

  /** The statement that records migration `m` in the ledger: an insert into Migrations
      whose value the server reads as the migration's id. */
  function BuildInsertScript(m: Migration): (r: string)
    ensures StatementId(r, InsertPrefix, InsertSuffix) == Some(m.id as int)
  {
    StatementIdOf(InsertPrefix, m.id, InsertSuffix);
    InsertPrefix + FormatInt64(m.id) + InsertSuffix
  }

  /** The statement that removes migration `m` from the ledger: a delete from Migrations
      whose key the server reads as the migration's id. */
  function BuildDeleteScript(m: Migration): (r: string)
    ensures StatementId(r, DeletePrefix, "") == Some(m.id as int)
  {
    StatementIdOf(DeletePrefix, m.id, "");
    var r := DeletePrefix + FormatInt64(m.id);
    assert r == DeletePrefix + FormatInt64(m.id) + "";
    r
  }

  /** The query IsMigrationPending sends: how many ledger rows carry `m`'s id, read by
      the server as the migration's id. */
  function CountQuery(m: Migration): (r: string)
    ensures StatementId(r, CountPrefix, "") == Some(m.id as int)
  {
    StatementIdOf(CountPrefix, m.id, "");
    var r := CountPrefix + FormatInt64(m.id);
    assert r == CountPrefix + FormatInt64(m.id) + "";
    r
  }

  const CreateTableHead := "CREATE TABLE Migrations("
  const IdColumn := "[Id] BIGINT PRIMARY KEY NOT NULL"
  const DefaultedColumns := ", [Date] DATETIME NOT NULL DEFAULT GETDATE(), [User] NVARCHAR(128) NOT NULL DEFAULT SUSER_NAME(), [Host] NVARCHAR(128) NOT NULL DEFAULT HOST_NAME())"

  /** The fixed statement that creates the ledger table: a table named Migrations whose
      first column, Id, is a 64-bit primary key; the server fills the other columns. */
  function BuildCreateScript(): (r: string)
    ensures |CreateTableHead| + |IdColumn| <= |r|
    ensures r[..|CreateTableHead|] == CreateTableHead
    ensures r[|CreateTableHead|..|CreateTableHead| + |IdColumn|] == IdColumn
  {
    var r := CreateTableHead + IdColumn + DefaultedColumns;
    assert r == CreateTableHead + (IdColumn + DefaultedColumns);
    assert (IdColumn + DefaultedColumns)[..|IdColumn|] == IdColumn;
    r
  }

  /** The id a ledger statement of the shape prefix + literal + suffix refers to, as the
      server reads it. */
  function StatementId(statement: string, prefix: string, suffix: string): Option<int> {
    if |prefix| + |suffix| <= |statement|
       && statement[..|prefix|] == prefix
       && statement[|statement| - |suffix|..] == suffix
    then ParseInteger(statement[|prefix|..|statement| - |suffix|])
    else None
  }

  lemma StatementIdOf(prefix: string, n: Int64, suffix: string)
    ensures StatementId(prefix + FormatInt64(n) + suffix, prefix, suffix) == Some(n as int)
  {
    var t := prefix + FormatInt64(n) + suffix;
    assert t[..|prefix|] == prefix;
    assert t[|t| - |suffix|..] == suffix;
    assert t[|prefix|..|t| - |suffix|] == FormatInt64(n);
    FormatRoundTrip(n);
  }

  /** Insert statements for different ids differ. */
  lemma InsertScriptsDistinguishIds(m1: Migration, m2: Migration)
    requires BuildInsertScript(m1) == BuildInsertScript(m2)
    ensures m1.id == m2.id
  {
  }

  /** A one-line text that starts with a non-white-space character other than G has no
      delimiter line and is not blank. */
  lemma OneLineStatement(t: string)
    requires 0 < |t| && !IsWhiteSpace(t[0]) && !IsLetterG(t[0])
    requires forall k :: 0 <= k < |t| ==> t[k] != '\n'
    ensures !HasDelimiterLine(t) && !IsBlank(t)
  {
    forall i, j | 0 <= i <= j <= |t| && IsLine(t, i, j)
      ensures !IsDelimiterLine(t[i..j])
    {
      assert i == 0 && j == |t|;
      assert t[i..j] == t;
      assert SkipWhiteSpace(t, 0) == 0;
    }
  }

  /** Executing the ledger insert sends it to the server as one batch, unchanged. */
  lemma InsertScriptIsOneBatch(m: Migration)
    ensures Batches(BuildInsertScript(m)) == [BuildInsertScript(m)]
  {
    var t := BuildInsertScript(m);
    var n := FormatInt64(m.id);
    assert t == InsertPrefix + n + InsertSuffix;
    forall k | 0 <= k < |t|
      ensures t[k] != '\n'
    {
      if k < |InsertPrefix| {
        assert t[k] == InsertPrefix[k];
      } else if k < |InsertPrefix| + |n| {
        assert t[k] == n[k - |InsertPrefix|];
      } else {
        assert t[k] == ')';
      }
    }
    OneLineStatement(t);
    SingleBatch(t);
  }

  /** Executing the ledger delete sends it to the server as one batch, unchanged. */
  lemma DeleteScriptIsOneBatch(m: Migration)
    ensures Batches(BuildDeleteScript(m)) == [BuildDeleteScript(m)]
  {
    var t := BuildDeleteScript(m);
    var n := FormatInt64(m.id);
    assert t == DeletePrefix + n;
    forall k | 0 <= k < |t|
      ensures t[k] != '\n'
    {
      if k < |DeletePrefix| {
        assert t[k] == DeletePrefix[k];
      } else {
        assert t[k] == n[k - |DeletePrefix|];
      }
    }
    OneLineStatement(t);
    SingleBatch(t);
  }

  // ---------------------------------------------------------------------------
  // The statement delimiter

  /** Environment.NewLine + "GO"; the line terminator is a parameter. */
  function GetStatementDelimiter(newLine: string): (r: string)
    requires newLine == "\n" || newLine == "\r\n"
    ensures |newLine| < |r| && r[|newLine| - 1] == '\n'
    ensures IsDelimiterLine(r[|newLine|..])
  {
    var r := newLine + "GO";
    assert r[|newLine|..] == "GO";
    assert SkipWhiteSpace("GO", 0) == 0;
    r
  }

  /** Text placed after the delimiter and starting a new line leaves GO on a delimiter
      line, so the splitter removes it. */
  lemma DelimiterMakesDelimiterLine(before: string, newLine: string, after: string)
    requires newLine == "\n" || newLine == "\r\n"
    requires after == [] || after[0] == '\n' || (1 < |after| && after[..2] == "\r\n")
    ensures var s := before + GetStatementDelimiter(newLine) + after;
            OnDelimiterLine(s, |before| + |newLine|)
  {
    var s := before + GetStatementDelimiter(newLine) + after;
    var g := |before| + |newLine|;
    assert s[g - 1] == '\n';
    assert s[g] == 'G' && s[g + 1] == 'O';
    assert LineStart(s, g) == g;
    var le := LineEnd(s, g);
    if after == [] {
      assert le == |s|;
    } else if after[0] == '\n' {
      assert s[g + 2] == '\n';
      assert le == g + 2;
    } else {
      assert s[g + 2] == '\r' && s[g + 3] == '\n';
      assert le == g + 3;
    }
    DelimiterLineFromParts(s, g, g, le);
  }

  // ---------------------------------------------------------------------------
  // Reading the ledger

  /** The Id column of the ledger rows, in the order the reader returns them. */
  function Ids(rows: seq<LedgerRow>): (ids: seq<Int64>)
    ensures |ids| == |rows|
    ensures forall i :: 0 <= i < |rows| ==> ids[i] == rows[i].id
  {
    if rows == [] then [] else Ids(rows[..|rows| - 1]) + [rows[|rows| - 1].id]
  }

  /** GetApplyedMigrations: one id per row read, in read order. */
  method GetAppliedMigrations(rows: seq<LedgerRow>) returns (applied: seq<Int64>)
    ensures applied == Ids(rows)
  {
    applied := [];
    var read := 0;
    while read < |rows|
      invariant read <= |rows|
      invariant applied == Ids(rows[..read])
    {
      assert rows[..read + 1][..read] == rows[..read];
      applied := applied + [rows[read].id];
      read := read + 1;
    }
    assert rows[..read] == rows;
  }

  /** The number of ledger rows whose Id is `id`, the value the count query returns. */
  function CountRowsWithId(rows: seq<LedgerRow>, id: Int64): (n: nat)
    ensures n <= |rows|
  {
    if rows == [] then 0
    else CountRowsWithId(rows[..|rows| - 1], id) + if rows[|rows| - 1].id == id then 1 else 0
  }

  /** IsMigrationPending: the count of ledger rows with the migration's id is below 1. */
  predicate IsMigrationPending(rows: seq<LedgerRow>, m: Migration) {
    CountRowsWithId(rows, m.id) < 1
  }

  /** The count is the number of times the id occurs among the applied ids. */
  lemma {:induction false} CountIsMultiplicity(rows: seq<LedgerRow>, id: Int64)
    ensures CountRowsWithId(rows, id) == multiset(Ids(rows))[id]
  {
    if rows != [] {
      var init := rows[..|rows| - 1];
      CountIsMultiplicity(init, id);
      assert Ids(rows) == Ids(init) + [rows[|rows| - 1].id];
    }
  }

  /** With Id as primary key the count is 0 or 1. */
  lemma {:induction false} CountAtMostOne(rows: seq<LedgerRow>, id: Int64)
    requires UniqueIds(rows)
    ensures CountRowsWithId(rows, id) <= 1
  {
    if rows != [] {
      var init, last := rows[..|rows| - 1], rows[|rows| - 1];
      CountAtMostOne(init, id);
      if last.id == id {
        CountIsMultiplicity(init, id);
        assert id !in Ids(init) by {
          forall i | 0 <= i < |init|
            ensures Ids(init)[i] != id
          {
            assert rows[i].id != rows[|rows| - 1].id;
          }
        }
      }
    }
  }

  /** A migration is pending exactly when its id is not among the applied ids. */
  lemma PendingIffNotApplied(rows: seq<LedgerRow>, m: Migration)
    ensures IsMigrationPending(rows, m) <==> m.id !in Ids(rows)
  {
    CountIsMultiplicity(rows, m.id);
  }

  // ---------------------------------------------------------------------------
  // The ledger table that BuildCreateScript declares, as the server keeps it

  /** What the server fills into the defaulted columns of a new row. */
  datatype Session = Session(now: int, user: string, host: string)

  datatype TableResult = Updated(rows: seq<LedgerRow>) | Rejected(reason: string)

  /** Id is the primary key: no two rows share an id. */
  predicate UniqueIds(rows: seq<LedgerRow>) {
    forall i, j :: 0 <= i < j < |rows| ==> rows[i].id != rows[j].id
  }

  /** The rows whose id differs from `id` (WithoutIdKeepsOtherRows states it row by row). */
  function WithoutId(rows: seq<LedgerRow>, id: Int64): (r: seq<LedgerRow>)
    ensures forall x :: x in Ids(r) <==> x in Ids(rows) && x != id
  {
    if rows == [] then []
    else
      var init, last := rows[..|rows| - 1], rows[|rows| - 1];
      var w := WithoutId(init, id);
      var r := w + if last.id == id then [] else [last];
      assert Ids(rows) == Ids(init) + [last.id];
      assert Ids(r) == if last.id == id then Ids(w) else Ids(w) + [last.id] by {
        if last.id != id {
          assert r[..|r| - 1] == w;
        }
      }
      r
  }

  /** A delete by id keeps exactly the rows with another id. */
  lemma {:induction false} WithoutIdKeepsOtherRows(rows: seq<LedgerRow>, id: Int64)
    ensures forall row :: row in WithoutId(rows, id) <==> row in rows && row.id != id
  {
    if rows != [] {
      var init, last := rows[..|rows| - 1], rows[|rows| - 1];
      WithoutIdKeepsOtherRows(init, id);
      assert rows == init + [last];
      assert WithoutId(rows, id) == WithoutId(init, id) + if last.id == id then [] else [last];
    }
  }

  /** Deleting rows keeps the primary key unique. */
  lemma {:induction false} WithoutIdKeepsKeyUnique(rows: seq<LedgerRow>, id: Int64)
    requires UniqueIds(rows)
    ensures UniqueIds(WithoutId(rows, id))
  {
    if rows != [] {
      var init, last := rows[..|rows| - 1], rows[|rows| - 1];
      WithoutIdKeepsKeyUnique(init, id);
      var w := WithoutId(init, id);
      if last.id != id {
        var r := w + [last];
        assert last.id !in Ids(init) by {
          forall i | 0 <= i < |init|
            ensures Ids(init)[i] != last.id
          {
            assert rows[i].id != rows[|rows| - 1].id;
          }
        }
        forall i, j | 0 <= i < j < |r|
          ensures r[i].id != r[j].id
        {
          if j == |r| - 1 {
            assert Ids(w)[i] == r[i].id;
          }
        }
      }
    }
  }

  /** How the server runs an insert or a delete built by this module on the ledger table:
      an insert of an id already present violates the primary key and changes nothing; a
      new row gets the session's defaults; a delete removes the rows with the id. */
  function RunLedgerStatement(rows: seq<LedgerRow>, statement: string, session: Session): TableResult {
    match StatementId(statement, InsertPrefix, InsertSuffix)
    case Some(v) =>
      if !(-0x8000_0000_0000_0000 <= v < 0x8000_0000_0000_0000) then Rejected("arithmetic overflow")
      else if v as Int64 in Ids(rows) then Rejected("violation of PRIMARY KEY constraint")
      else Updated(rows + [LedgerRow(v as Int64, session.now, session.user, session.host)])
    case None =>
      match StatementId(statement, DeletePrefix, "")
      case Some(v) =>
        if !(-0x8000_0000_0000_0000 <= v < 0x8000_0000_0000_0000) then Updated(rows)
        else Updated(WithoutId(rows, v as Int64))
      case None => Rejected("not a ledger statement")
  }

  /** Whatever ledger statement the server runs, the primary key stays unique. */
  lemma RunLedgerStatementKeepsKey(rows: seq<LedgerRow>, statement: string, session: Session)
    requires UniqueIds(rows)
    ensures var r := RunLedgerStatement(rows, statement, session);
            r.Updated? ==> UniqueIds(r.rows)
  {
    match StatementId(statement, InsertPrefix, InsertSuffix)
    case Some(v) =>
      if -0x8000_0000_0000_0000 <= v < 0x8000_0000_0000_0000 && v as Int64 !in Ids(rows) {
        var row := LedgerRow(v as Int64, session.now, session.user, session.host);
        var r := rows + [row];
        forall i, j | 0 <= i < j < |r|
          ensures r[i].id != r[j].id
        {
          if j == |rows| {
            assert Ids(rows)[i] == r[i].id;
          }
        }
      }
    case None =>
      match StatementId(statement, DeletePrefix, "")
      case Some(v) =>
        if -0x8000_0000_0000_0000 <= v < 0x8000_0000_0000_0000 {
          WithoutIdKeepsKeyUnique(rows, v as Int64);
        }
      case None =>
  }

  /** Running the insert for a migration succeeds exactly when the migration is pending;
      then the ledger's ids gain exactly one occurrence of that id, the key stays unique
      and the migration is no longer pending. The model appends the new row; the read
      order this gives is the model's choice, not a promise of the server. */
  lemma InsertRecordsMigration(rows: seq<LedgerRow>, m: Migration, session: Session)
    requires UniqueIds(rows)
    ensures var r := RunLedgerStatement(rows, BuildInsertScript(m), session);
            && (r.Updated? <==> IsMigrationPending(rows, m))
            && (r.Updated? ==>
                  && multiset(Ids(r.rows)) == multiset(Ids(rows)) + multiset{m.id}
                  && Ids(r.rows) == Ids(rows) + [m.id]
                  && UniqueIds(r.rows)
                  && !IsMigrationPending(r.rows, m))
  {
    PendingIffNotApplied(rows, m);
    var r := RunLedgerStatement(rows, BuildInsertScript(m), session);
    if r.Updated? {
      var rows' := r.rows;
      assert rows' == rows + [LedgerRow(m.id, session.now, session.user, session.host)];
      assert Ids(rows') == Ids(rows) + [m.id];
      assert rows'[|rows|].id == m.id;
      PendingIffNotApplied(rows', m);
    }
  }

  /** Running the delete for a migration makes it pending again, keeps every other id and
      keeps the key unique. */
  lemma DeleteForgetsMigration(rows: seq<LedgerRow>, m: Migration, session: Session)
    ensures var r := RunLedgerStatement(rows, BuildDeleteScript(m), session);
            && r.Updated?
            && IsMigrationPending(r.rows, m)
            && (forall x :: x != m.id ==> (x in Ids(r.rows) <==> x in Ids(rows)))
            && (UniqueIds(rows) ==> UniqueIds(r.rows))
  {
    var t := BuildDeleteScript(m);
    assert t[0] == 'D';
    assert StatementId(t, InsertPrefix, InsertSuffix) == None by {
      if |InsertPrefix| + |InsertSuffix| <= |t| {
        assert t[..|InsertPrefix|][0] != InsertPrefix[0];
      }
    }
    var r := RunLedgerStatement(rows, t, session);
    assert r == Updated(WithoutId(rows, m.id));
    PendingIffNotApplied(r.rows, m);
    if UniqueIds(rows) {
      WithoutIdKeepsKeyUnique(rows, m.id);
    }
  }
}
