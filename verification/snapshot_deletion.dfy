/** `delete_snapshots.py`: every snapshot of the input file is deleted, one
    audit row per snapshot, except in the accounts of a fixed exclusion list,
    which are skipped without assuming their role. */
module SnapshotDeletion {
  import opened Outcomes
  import opened Seqs
  import opened Grouping
  import opened Accounts
  import opened SnapshotRecords
  import opened Ec2
  import opened Audit

  /** The accounts `main` skips. */
  const ExcludedAccounts: seq<string> := [
    "394698187765", "549323063936", "584428860865", "346482298435",
    "767090234737", "663870315360", "847806613433"]

  function DeletionRow(r: SnapshotRow, ok: bool): AuditRow
  {
    AuditRow(r, Success, Outcome(ok))
  }

  /** The rows `delete_snapshots` writes for one region record: one per
      snapshot in record order, deletion `Success` exactly when the
      `delete_snapshot` call returned. */
  function DeleteRegion(accountId: string, r: RegionEntry, ec2: Ec2Region): (rows: seq<AuditRow>)
    requires r.Aligned()
    ensures Project(RecordOf, rows) == r.Rows(accountId)
    ensures forall i :: 0 <= i < |rows| ==>
      rows[i].access == Success && rows[i].deletion == Outcome(ec2.deleteSnapshotOk(rows[i].record.snapshotId))
  {
    var records := r.Rows(accountId);
    var rows := seq(|records|, i requires 0 <= i < |records| =>
      DeletionRow(records[i], ec2.deleteSnapshotOk(records[i].snapshotId)));
    assert forall i :: 0 <= i < |rows| ==> rows[i] == DeletionRow(records[i], ec2.deleteSnapshotOk(records[i].snapshotId));
    assert Project(RecordOf, rows) == records;
    rows
  }

  /** The deletion status written for record `r`: the outcome of its
      `delete_snapshot` call, made in the record's own account and region,
      when the account's role validated; `N/A` when it did not. */
  function DeletionStatus(validated: bool, ec2: (string, string) -> Ec2Region, r: SnapshotRow): Status
  {
    if validated then Outcome(ec2(r.accountId, r.region).deleteSnapshotOk(r.snapshotId)) else NotApplicable
  }

  /** `delete_snapshots`: the region records one after another, each with
      the EC2 client of its region. */
  function DeleteSnapshots(accountId: string, regions: seq<RegionEntry>, ec2: (string, string) -> Ec2Region)
    : (rows: seq<AuditRow>)
    requires AllAligned(regions)
    ensures Project(RecordOf, rows) == RegionRecords(regions, accountId)
    ensures forall i :: 0 <= i < |rows| ==>
      && rows[i].record.accountId == accountId
      && rows[i].access == Success
      && rows[i].deletion == Outcome(ec2(accountId, rows[i].record.region).deleteSnapshotOk(rows[i].record.snapshotId))
  {
    if |regions| == 0 then []
    else
      var here := DeleteRegion(accountId, regions[0], ec2(accountId, regions[0].region));
      assert forall i :: 0 <= i < |here| ==>
        here[i].record == regions[0].Rows(accountId)[i];
      assert AllAligned(regions[1..]) by {
        forall i | 0 <= i < |regions[1..]| ensures regions[1..][i].Aligned() {
          assert regions[1..][i] == regions[i + 1];
        }
      }
      var rest := DeleteSnapshots(accountId, regions[1..], ec2);
      ProjectConcat(RecordOf, here, rest);
      here + rest
  }

  /** One pass of `main`'s account loop: an excluded account is skipped;
      otherwise its role is assumed and validated, and either its snapshots
      are deleted region by region or its records are reported as not
      accessible. */
  function VisitAccount(e: AccountEntry, validates: string -> bool, ec2: (string, string) -> Ec2Region): (v: Visit)
    requires e.Aligned()
    ensures v.roleArn.None? <==> e.accountId in ExcludedAccounts
    ensures v.roleArn.None? ==> v.rows == []
    ensures v.roleArn.Some? ==> v.roleArn.value == RoleArn(e.accountId)
    ensures v.roleArn.Some? && validates(RoleArn(e.accountId)) ==>
      Project(RecordOf, v.rows) == RegionRecords(RegionalSnapshots(e), e.accountId)
    ensures v.roleArn.Some? && !validates(RoleArn(e.accountId)) ==> Project(RecordOf, v.rows) == e.Rows()
    ensures v.roleArn.Some? && !validates(RoleArn(e.accountId)) ==> v.rows == AuthFailureRows(e)
    ensures forall i :: 0 <= i < |v.rows| ==>
      && v.rows[i].record.accountId == e.accountId
      && v.rows[i].access == (if validates(RoleArn(e.accountId)) then Success else Failed)
      && v.rows[i].deletion == DeletionStatus(validates(RoleArn(e.accountId)), ec2, v.rows[i].record)
  {
    if e.accountId in ExcludedAccounts then Visit(None, [])
    else
      var arn := RoleArn(e.accountId);
      if validates(arn) then
        RegionalSpec(e);
        Visit(Some(arn), DeleteSnapshots(e.accountId, RegionalSnapshots(e), ec2))
      else
        var rows := AuthFailureRows(e);
        assert forall i :: 0 <= i < |rows| ==> rows[i].record == e.Rows()[i];
        Visit(Some(arn), rows)
  }

  /** A visited account's rows report exactly its records, one row each. */
  lemma VisitAccountRecords(e: AccountEntry, validates: string -> bool, ec2: (string, string) -> Ec2Region)
    requires e.Aligned() && e.accountId !in ExcludedAccounts
    ensures multiset(Project(RecordOf, VisitAccount(e, validates, ec2).rows)) == multiset(e.Rows())
    ensures |VisitAccount(e, validates, ec2).rows| == |e.snapshotIds|
  {
    RegionalSpec(e);
  }

  /** The visits of `main`, one per account record. */
  function Visits(es: seq<AccountEntry>, validates: string -> bool, ec2: (string, string) -> Ec2Region)
    : (vs: seq<Visit>)
    requires forall i :: 0 <= i < |es| ==> es[i].Aligned()
    ensures |vs| == |es|
    ensures forall i :: 0 <= i < |es| ==> vs[i] == VisitAccount(es[i], validates, ec2)
  {
    seq(|es|, i requires 0 <= i < |es| => VisitAccount(es[i], validates, ec2))
  }

  /** What a run leaves behind: the role ARNs assumed and the audit rows. */
  datatype Run = Run(roleArns: seq<string>, rows: seq<AuditRow>)

  /** `main`: the snapshot file's rows grouped into account records, then
      each account visited in turn. `validates(arn)` is whether the
      validation call made with the role succeeds. */
  function DeleteRun(snapshotRows: seq<SnapshotRow>, validates: string -> bool, ec2: (string, string) -> Ec2Region)
    : (r: Run)
  {
    AcctListSpec(snapshotRows);
    var vs := Visits(AcctList(snapshotRows), validates, ec2);
    Run(RoleArnsOf(vs), AllRows(vs))
  }

  /** The role ARNs of the visits are those of the accounts not skipped. */
  lemma RoleArnsOfVisits(es: seq<AccountEntry>, validates: string -> bool, ec2: (string, string) -> Ec2Region,
                         arn: string)
    requires forall i :: 0 <= i < |es| ==> es[i].Aligned()
    ensures arn in RoleArnsOf(Visits(es, validates, ec2)) <==>
      exists i :: 0 <= i < |es| && es[i].accountId !in ExcludedAccounts && arn == RoleArn(es[i].accountId)
  {
    var vs := Visits(es, validates, ec2);
    RoleArnsOfMember(vs, arn);
    if arn in RoleArnsOf(vs) {
      var i :| 0 <= i < |vs| && vs[i].roleArn == Some(arn);
      assert vs[i] == VisitAccount(es[i], validates, ec2);
    }
    if i :| 0 <= i < |es| && es[i].accountId !in ExcludedAccounts && arn == RoleArn(es[i].accountId) {
      assert vs[i] == VisitAccount(es[i], validates, ec2);
    }
  }

  /** A role is assumed exactly for the accounts of the file that are not
      excluded. */
  lemma DeleteRunRoles(snapshotRows: seq<SnapshotRow>, validates: string -> bool, ec2: (string, string) -> Ec2Region,
                       a: string)
    ensures RoleArn(a) in DeleteRun(snapshotRows, validates, ec2).roleArns <==>
      a in Project(AccountOf, snapshotRows) && a !in ExcludedAccounts
  {
    AcctListRecords(snapshotRows);
    AcctListAccounts(snapshotRows);
    var es := AcctList(snapshotRows);
    assert DeleteRun(snapshotRows, validates, ec2).roleArns == RoleArnsOf(Visits(es, validates, ec2));
    RoleArnsOfVisits(es, validates, ec2, RoleArn(a));
    RoleOfAccount(es, a);
  }

  /** An account's role ARN is that of a listed account exactly when the
      account is listed. */
  lemma RoleOfAccount(es: seq<AccountEntry>, a: string)
    ensures (exists i :: 0 <= i < |es| && es[i].accountId !in ExcludedAccounts && RoleArn(a) == RoleArn(es[i].accountId))
      <==> a in AccountIds(es) && a !in ExcludedAccounts
  {
    var ids := AccountIds(es);
    if i :| 0 <= i < |es| && es[i].accountId !in ExcludedAccounts && RoleArn(a) == RoleArn(es[i].accountId) {
      RoleArnInjective(a, es[i].accountId);
      assert ids[i] == a;
    }
    if a in ids && a !in ExcludedAccounts {
      var i :| 0 <= i < |ids| && ids[i] == a;
      assert es[i].accountId == a;
    }
  }

  /** The run's rows for one account are the rows of that account's visit,
      or none when the file has no record of the account. */
  lemma DeleteRunRowsOf(snapshotRows: seq<SnapshotRow>, validates: string -> bool, ec2: (string, string) -> Ec2Region,
                        a: string)
    ensures var es := AcctList(snapshotRows);
      && (forall i :: 0 <= i < |es| ==> es[i].Aligned())
      && (a in AccountIds(es) ==>
            && es[IndexOf(AccountIds(es), a)].accountId == a
            && RowsOf(DeleteRun(snapshotRows, validates, ec2).rows, a) ==
               VisitAccount(es[IndexOf(AccountIds(es), a)], validates, ec2).rows)
      && (a !in AccountIds(es) ==>
            && RowsOf(DeleteRun(snapshotRows, validates, ec2).rows, a) == []
            && Select(snapshotRows, AccountOf, a) == [])
  {
    AcctListRecords(snapshotRows);
    AcctListAccounts(snapshotRows);
    var es := AcctList(snapshotRows);
    var ids := AccountIds(es);
    var vs := Visits(es, validates, ec2);
    forall i, k | 0 <= i < |vs| && 0 <= k < |vs[i].rows| ensures vs[i].rows[k].record.accountId == ids[i] {
      assert vs[i] == VisitAccount(es[i], validates, ec2);
    }
    assert DeleteRun(snapshotRows, validates, ec2).rows == AllRows(vs);
    RowsOfAllRows(vs, ids, a);
    if a !in ids {
      SelectAbsent(snapshotRows, AccountOf, a);
    }
  }

  /** The rows the run writes for any one account: none for an excluded
      account; otherwise exactly that account's records of the input file,
      with access status `Success` if its role validated and `Failed` (then
      in record order) if not; deletion status the outcome of the record's
      `delete_snapshot` call in the first case and `N/A` in the second. */
  lemma DeleteRunAccount(snapshotRows: seq<SnapshotRow>, validates: string -> bool, ec2: (string, string) -> Ec2Region,
                         a: string)
    ensures a in ExcludedAccounts ==> RowsOf(DeleteRun(snapshotRows, validates, ec2).rows, a) == []
    ensures a !in ExcludedAccounts ==>
      multiset(Project(RecordOf, RowsOf(DeleteRun(snapshotRows, validates, ec2).rows, a))) ==
      multiset(Select(snapshotRows, AccountOf, a))
    ensures a !in ExcludedAccounts && !validates(RoleArn(a)) ==>
      Project(RecordOf, RowsOf(DeleteRun(snapshotRows, validates, ec2).rows, a)) == Select(snapshotRows, AccountOf, a)
    ensures forall row :: row in RowsOf(DeleteRun(snapshotRows, validates, ec2).rows, a) ==>
      && row.access == (if validates(RoleArn(a)) then Success else Failed)
      && row.deletion == DeletionStatus(validates(RoleArn(a)), ec2, row.record)
  {
    DeleteRunRowsOf(snapshotRows, validates, ec2, a);
    var es := AcctList(snapshotRows);
    var ids := AccountIds(es);
    if a in ids {
      var e := es[IndexOf(ids, a)];
      AcctListSpec(snapshotRows);
      assert e.Rows() == Select(snapshotRows, AccountOf, a);
      if a !in ExcludedAccounts {
        VisitAccountRecords(e, validates, ec2);
      }
    }
  }
}
