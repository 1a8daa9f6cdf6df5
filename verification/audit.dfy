/** The audit file both snapshot-deletion scripts write: one row per
    snapshot record they visit, with the account-access and deletion
    statuses, and the rows written when an account's role cannot be used. */
module Audit {
  import opened Outcomes
  import opened Seqs
  import opened Accounts
  import opened SnapshotRecords

  datatype Status = Success | Failed | NotApplicable

  function StatusText(s: Status): string
  {
    match s
    case Success => "Success"
    case Failed => "Failed"
    case NotApplicable => "N/A"
  }

  /** The status of a call that either returned or raised. */
  function Outcome(ok: bool): (s: Status)
    ensures s == Success <==> ok
    ensures s != NotApplicable
  {
    if ok then Success else Failed
  }

  /** An audit row: the snapshot record it reports on and the two statuses. */
  datatype AuditRow = AuditRow(record: SnapshotRow, access: Status, deletion: Status)

  function RecordOf(a: AuditRow): SnapshotRow { a.record }

  const AuditHeader: seq<string> :=
    ["AcctID", "Region", "SnapshotID", "AcctAccessStatus", "DeletionStatus", "Owner", "Cost"]

  /** Reads a status cell back. */
  function StatusOf(text: string): (s: Option<Status>)
    ensures s.Some? ==> StatusText(s.value) == text
  {
    if text == "Success" then Some(Success)
    else if text == "Failed" then Some(Failed)
    else if text == "N/A" then Some(NotApplicable)
    else None
  }

  /** Every status is written as a text that reads back as that status. */
  lemma StatusRoundTrip(s: Status)
    ensures StatusOf(StatusText(s)) == Some(s)
  {
  }

  /** The row as written under `AuditHeader`; the record's AMI field is not
      written. */
  function Cells(a: AuditRow): (cells: seq<string>)
    ensures |cells| == |AuditHeader|
    ensures StatusOf(cells[3]) == Some(a.access) && StatusOf(cells[4]) == Some(a.deletion)
  {
    StatusRoundTrip(a.access);
    StatusRoundTrip(a.deletion);
    [a.record.accountId, a.record.region, a.record.snapshotId,
     StatusText(a.access), StatusText(a.deletion), a.record.owner, a.record.cost]
  }

  /** Two rows agree on everything the audit file shows of them. */
  predicate SameWritten(a: AuditRow, b: AuditRow)
  {
    && a.record.accountId == b.record.accountId
    && a.record.region == b.record.region
    && a.record.snapshotId == b.record.snapshotId
    && a.record.owner == b.record.owner
    && a.record.cost == b.record.cost
    && a.access == b.access
    && a.deletion == b.deletion
  }

  /** Two rows are written alike exactly when they agree on everything but
      the AMI field: the written cells determine both statuses. */
  lemma CellsInjective(a: AuditRow, b: AuditRow)
    ensures Cells(a) == Cells(b) <==> SameWritten(a, b)
  {
    if Cells(a) == Cells(b) {
      assert Cells(a)[3] == Cells(b)[3] && Cells(a)[4] == Cells(b)[4];
    }
  }

  function AuthFailureRow(r: SnapshotRow): AuditRow { AuditRow(r, Failed, NotApplicable) }

  /** The rows written for an account whose role could not be validated:
      every record of the account, in record order, marked `Failed` / `N/A`. */
  function AuthFailureRows(e: AccountEntry): (rows: seq<AuditRow>)
    requires e.Aligned()
    ensures Project(RecordOf, rows) == e.Rows()
    ensures forall i :: 0 <= i < |rows| ==> rows[i].access == Failed && rows[i].deletion == NotApplicable
  {
    Project(AuthFailureRow, e.Rows())
  }

  /** What visiting one account produced: the role ARN assumed (`None` when
      the account was skipped) and the rows written. */
  datatype Visit = Visit(roleArn: Option<string>, rows: seq<AuditRow>)

  /** The audit file body: the rows of every visit, visit after visit. */
  function AllRows(vs: seq<Visit>): seq<AuditRow>
  {
    if |vs| == 0 then [] else vs[0].rows + AllRows(vs[1..])
  }

  /** The role ARNs assumed, in visit order. */
  function RoleArnsOf(vs: seq<Visit>): (arns: seq<string>)
    ensures |arns| <= |vs|
  {
    if |vs| == 0 then []
    else (if vs[0].roleArn.Some? then [vs[0].roleArn.value] else []) + RoleArnsOf(vs[1..])
  }

  /** A role ARN is listed exactly when some visit assumed it. */
  lemma {:induction false} RoleArnsOfMember(vs: seq<Visit>, arn: string)
    ensures arn in RoleArnsOf(vs) <==> exists i :: 0 <= i < |vs| && vs[i].roleArn == Some(arn)
  {
    if |vs| > 0 {
      RoleArnsOfMember(vs[1..], arn);
      if arn in RoleArnsOf(vs) && vs[0].roleArn != Some(arn) {
        var j :| 0 <= j < |vs[1..]| && vs[1..][j].roleArn == Some(arn);
        assert vs[j + 1] == vs[1..][j];
      }
      if i :| 0 < i < |vs| && vs[i].roleArn == Some(arn) {
        assert vs[1..][i - 1] == vs[i];
      }
    }
  }

  /** The rows of account `a`, in order. */
  function RowsOf(rows: seq<AuditRow>, a: string): (r: seq<AuditRow>)
    ensures forall i :: 0 <= i < |r| ==> r[i].record.accountId == a && r[i] in rows
  {
    if |rows| == 0 then []
    else (if rows[0].record.accountId == a then [rows[0]] else []) + RowsOf(rows[1..], a)
  }

  lemma {:induction false} RowsOfConcat(xs: seq<AuditRow>, ys: seq<AuditRow>, a: string)
    ensures RowsOf(xs + ys, a) == RowsOf(xs, a) + RowsOf(ys, a)
  {
    if |xs| > 0 {
      assert (xs + ys)[1..] == xs[1..] + ys;
      RowsOfConcat(xs[1..], ys, a);
    } else {
      assert xs + ys == ys;
    }
  }

  lemma {:induction false} RowsOfHomogeneous(rows: seq<AuditRow>, b: string, a: string)
    requires forall i :: 0 <= i < |rows| ==> rows[i].record.accountId == b
    ensures RowsOf(rows, a) == if a == b then rows else []
  {
    if |rows| > 0 {
      RowsOfHomogeneous(rows[1..], b, a);
      if a == b {
        assert [rows[0]] + rows[1..] == rows;
      }
    }
  }

  /** The rows of one account in a file written account by account, each
      account once, are exactly the rows written while visiting it. */
  lemma {:induction false} RowsOfAllRows(vs: seq<Visit>, ids: seq<string>, a: string)
    requires |vs| == |ids| && NoDuplicates(ids)
    requires forall i, k :: 0 <= i < |vs| && 0 <= k < |vs[i].rows| ==> vs[i].rows[k].record.accountId == ids[i]
    ensures RowsOf(AllRows(vs), a) == if a in ids then vs[IndexOf(ids, a)].rows else []
  {
    if |vs| > 0 {
      var rest := ids[1..];
      NoDuplicatesTail(ids);
      forall i, k | 0 <= i < |vs[1..]| && 0 <= k < |vs[1..][i].rows|
        ensures vs[1..][i].rows[k].record.accountId == rest[i]
      {
        assert vs[1..][i] == vs[i + 1];
      }
      RowsOfAllRows(vs[1..], rest, a);
      var tail := AllRows(vs[1..]);
      assert AllRows(vs) == vs[0].rows + tail;
      RowsOfConcat(vs[0].rows, tail, a);
      RowsOfHomogeneous(vs[0].rows, ids[0], a);
      if a == ids[0] {
        assert RowsOf(tail, a) == [];
        assert RowsOf(vs[0].rows, a) + [] == vs[0].rows;
      } else {
        assert RowsOf(vs[0].rows, a) == [];
        assert a in ids <==> a in rest;
        if a in rest {
          var k := IndexOf(rest, a);
          assert IndexOf(ids, a) == k + 1;
          assert vs[1..][k] == vs[k + 1];
        }
      }
    }
  }
}
