/** The transaction handling of the row loop of `etl_process` as it is
    written.  The connection does not commit by itself: the deletes are
    committed before the loop, an accepted row is committed only when its
    number `i + 1` is a multiple of 100, and the rest is committed after the
    loop.  A rejected row (too few cells, or a release year `int()` refuses)
    calls `rollback()`, which undoes every write since the last commit, not
    only the rejected row's.  NetflixTables models the evidently intended
    behaviour, where a rejected row only leaves itself out; the lemmas here
    compare the two. */
module NetflixBatches {
  import opened NetflixRows
  import opened NetflixTables

  /** The state at the last commit and the state the open transaction sees. */
  datatype Transaction = Transaction(committed: Tables, current: Tables)

  /** The outcomes that are followed by `conn.rollback()`. */
  predicate Rejected(o: RowOutcome) {
    o.TooFewColumns? || o.BadReleaseYear?
  }

  /** One iteration of the row loop, transactions included. */
  function StepAsWritten(tx: Transaction, i: nat, row: seq<string>): Transaction {
    match ProcessRow(i, row)
    case SkippedEmpty => tx
    case SkippedHeader => tx
    case TooFewColumns(_) => Transaction(tx.committed, tx.committed)
    case BadReleaseYear(_) => Transaction(tx.committed, tx.committed)
    case Accepted(p) =>
      var next := ImportRow(tx.current, p);
      if (i + 1) % 100 == 0 then Transaction(next, next) else Transaction(tx.committed, next)
  }

  /** The loop over all rows, row `i` being the `i`-th row of the file. */
  function RunAsWritten(tx: Transaction, rows: seq<seq<string>>): Transaction {
    if rows == [] then tx
    else StepAsWritten(RunAsWritten(tx, rows[..|rows| - 1]), |rows| - 1, rows[|rows| - 1])
  }

  /** `etl_process` as written: the committed deletes, the loop, and the
      final commit, which makes the open transaction's state durable. */
  function EtlProcessAsWritten(t: Tables, rows: seq<seq<string>>): Tables {
    var start := BeginImport(t);
    RunAsWritten(Transaction(start, start), rows).current
  }

  lemma RunSnoc(tx: Transaction, rows: seq<seq<string>>, row: seq<string>)
    ensures RunAsWritten(tx, rows + [row]) == StepAsWritten(RunAsWritten(tx, rows), |rows|, row)
  {
    assert (rows + [row])[..|rows|] == rows;
  }

  /** A rejected row brings the tables back to the last commit. */
  lemma RejectedRowRollsBack(tx: Transaction, rows: seq<seq<string>>, row: seq<string>)
    requires Rejected(ProcessRow(|rows|, row))
    ensures RunAsWritten(tx, rows + [row]).current == RunAsWritten(tx, rows).committed
  {
    assert (rows + [row])[..|rows|] == rows;
  }

  /** Without a rejected row the transactions make no difference: every row
      has the effect the per-row model gives it. */
  lemma {:induction false} RunWithoutRejects(tx: Transaction, rows: seq<seq<string>>)
    requires forall i :: 0 <= i < |rows| ==> !Rejected(ProcessRow(i, rows[i]))
    ensures RunAsWritten(tx, rows).current == ApplyRows(tx.current, rows)
  {
    if rows != [] {
      var prefix := rows[..|rows| - 1];
      assert forall i :: 0 <= i < |prefix| ==> prefix[i] == rows[i];
      RunWithoutRejects(tx, prefix);
      StepWithoutReject(RunAsWritten(tx, prefix), |rows| - 1, rows[|rows| - 1]);
    }
  }

  /** A row that is not rejected has, on the open transaction, the effect the
      per-row model gives it. */
  lemma StepWithoutReject(tx: Transaction, i: nat, row: seq<string>)
    requires !Rejected(ProcessRow(i, row))
    ensures StepAsWritten(tx, i, row).current == ApplyRow(tx.current, i, row)
  {
  }

  /** On a file without rejected rows, `etl_process` as written leaves the
      tables the per-row model describes. */
  lemma AsWrittenWithoutRejects(t: Tables, rows: seq<seq<string>>)
    requires forall i :: 0 <= i < |rows| ==> !Rejected(ProcessRow(i, rows[i]))
    ensures EtlProcessAsWritten(t, rows) == EtlProcess(t, rows)
  {
    var start := BeginImport(t);
    RunWithoutRejects(Transaction(start, start), rows);
  }

  /** The discrepancy: an accepted first row followed by a row with too few
      cells.  The per-row model keeps the first row's show; the code as
      written rolls it back together with the rejected row. */
  lemma RejectDiscardsEarlierRow(t: Tables, good: seq<string>, short: seq<string>)
    requires ProcessRow(0, good).Accepted?
    requires 1 <= |short| < ExpectedColumns
    ensures ProcessRow(0, good).parsed.showId in EtlProcess(t, [good, short]).shows
    ensures ProcessRow(0, good).parsed.showId !in EtlProcessAsWritten(t, [good, short]).shows
  {
    PerRowKeepsRow(t, good, short);
    AsWrittenLosesRow(t, good, short);
  }

  lemma PerRowKeepsRow(t: Tables, good: seq<string>, short: seq<string>)
    requires ProcessRow(0, good).Accepted?
    ensures ProcessRow(0, good).parsed.showId in EtlProcess(t, [good, short]).shows
  {
    var id := ProcessRow(0, good).parsed.showId;
    assert RowImports(0, [good, short][0], id);
    EtlShows(t, [good, short], id);
  }

  lemma AsWrittenLosesRow(t: Tables, good: seq<string>, short: seq<string>)
    requires ProcessRow(0, good).Accepted?
    requires 1 <= |short| < ExpectedColumns
    ensures ProcessRow(0, good).parsed.showId !in EtlProcessAsWritten(t, [good, short]).shows
  {
    var start := BeginImport(t);
    assert Rejected(ProcessRow(1, short));
    FirstRowRolledBack(Transaction(start, start), good, short);
    assert start.shows == map[];
  }

  /** A rejected second row undoes the first, uncommitted, row. */
  lemma FirstRowRolledBack(tx: Transaction, good: seq<string>, short: seq<string>)
    requires ProcessRow(0, good).Accepted? && Rejected(ProcessRow(1, short))
    ensures RunAsWritten(tx, [good, short]).current == tx.committed
  {
    RunSnoc(tx, [], good);
    assert [] + [good] == [good];
    AcceptedKeepsCommit(tx, 0, good);
    assert [good] + [short] == [good, short];
    RejectedRowRollsBack(tx, [good], short);
  }

  /** An accepted row that is not a hundredth row leaves the last commit where
      it was. */
  lemma AcceptedKeepsCommit(tx: Transaction, i: nat, row: seq<string>)
    requires ProcessRow(i, row).Accepted? && (i + 1) % 100 != 0
    ensures StepAsWritten(tx, i, row).committed == tx.committed
    ensures StepAsWritten(tx, i, row).current == ImportRow(tx.current, ProcessRow(i, row).parsed)
  {
  }
}
