/** `delete_snapshots_with_deregister_AMI.py`: before a snapshot is deleted,
    the images listed in its `AMI` field are deregistered; a snapshot whose
    image is in use, or cannot be deregistered, is kept, and the rest of its
    region is then left alone. */
module DeregisterDeletion {
  import opened Outcomes
  import opened Seqs
  import opened Text
  import opened Grouping
  import opened Accounts
  import opened SnapshotRecords
  import opened Ec2
  import opened Audit

  /** The separator of the image IDs in the `AMI` field. */
  const AmiSeparator := "; "

  predicate Available(ec2: Ec2Region, ami: string)
  {
    ec2.imageState(ami) == Returned("available")
  }

  /** `deregister_all_amis` moves past `ami`: it is not available, or it is
      available, launched no running instance and was deregistered. */
  predicate Clear(ec2: Ec2Region, ami: string)
  {
    && ec2.imageState(ami).Returned?
    && (ec2.imageState(ami).value != "available" ||
        (InUse(ec2.reservations, ami) == Returned(false) && ec2.deregisterOk(ami)))
  }

  /** `deregister_all_amis` returns `False` at `ami`: it is available and
      either in use or its deregistration failed. */
  predicate Blocks(ec2: Ec2Region, ami: string)
  {
    && Available(ec2, ami)
    && (InUse(ec2.reservations, ami) == Returned(true) ||
        (InUse(ec2.reservations, ami) == Returned(false) && !ec2.deregisterOk(ami)))
  }

  /** The position of the first image `deregister_all_amis` does not move past. */
  function FirstUnclear(ec2: Ec2Region, amis: seq<string>): (k: nat)
    ensures k <= |amis|
    ensures forall j :: 0 <= j < k ==> Clear(ec2, amis[j])
    ensures k < |amis| ==> !Clear(ec2, amis[k])
  {
    if |amis| == 0 || !Clear(ec2, amis[0]) then 0
    else 1 + FirstUnclear(ec2, amis[1..])
  }

  /** How many images `deregister_all_amis` looks at: those it moves past
      and the one it stops at, if any. */
  function Reached(ec2: Ec2Region, amis: seq<string>): (n: nat)
    ensures n <= |amis|
  {
    var k := FirstUnclear(ec2, amis);
    if k < |amis| then k + 1 else k
  }

  /** The result of `deregister_all_amis` (`Raised` for an exception out of
      `describe_images` or `ami_inUse`) and the images it asked to deregister. */
  datatype DeregisterPass = DeregisterPass(outcome: Call<bool>, deregisterCalls: seq<string>)

  /** `deregister_all_amis`: images in list order; one that is not
      `available` is passed over; an available one is deregistered unless it
      is in use; the walk ends at the first image in use or not deregistered. */
  function DeregisterAll(ec2: Ec2Region, amis: seq<string>): (p: DeregisterPass)
    ensures var k := FirstUnclear(ec2, amis);
      p.outcome == if k == |amis| then Returned(true)
                   else if Blocks(ec2, amis[k]) then Returned(false)
                   else Raised
    ensures forall i :: 0 <= i < |p.deregisterCalls| ==>
      && Available(ec2, p.deregisterCalls[i])
      && InUse(ec2.reservations, p.deregisterCalls[i]) == Returned(false)
  {
    if |amis| == 0 then DeregisterPass(Returned(true), [])
    else
      var ami := amis[0];
      match ec2.imageState(ami)
      case Raised => DeregisterPass(Raised, [])
      case Returned(state) =>
        if state != "available" then
          DeregisterAll(ec2, amis[1..])
        else
          match InUse(ec2.reservations, ami)
          case Raised => DeregisterPass(Raised, [])
          case Returned(used) =>
            if used then DeregisterPass(Returned(false), [])
            else if !ec2.deregisterOk(ami) then DeregisterPass(Returned(false), [ami])
            else
              var rest := DeregisterAll(ec2, amis[1..]);
              DeregisterPass(rest.outcome, [ami] + rest.deregisterCalls)
  }

  /** `deregister_all_amis` asks to deregister only images it reaches: none
      after the one it stops at. */
  lemma {:induction false} DeregisterAllReached(ec2: Ec2Region, amis: seq<string>)
    ensures forall i :: 0 <= i < |DeregisterAll(ec2, amis).deregisterCalls| ==>
      DeregisterAll(ec2, amis).deregisterCalls[i] in amis[..Reached(ec2, amis)]
  {
    if |amis| > 0 {
      var ami := amis[0];
      DeregisterAllReached(ec2, amis[1..]);
      if Clear(ec2, ami) {
        assert amis[..Reached(ec2, amis)] == [ami] + amis[1..][..Reached(ec2, amis[1..])];
      } else {
        assert amis[..1] == [ami];
      }
    }
  }

  /** `ami` is one `deregister_all_amis` asks to deregister when it gets to
      it: available and launched by no running instance. */
  predicate Attempted(ec2: Ec2Region, ami: string)
  {
    Available(ec2, ami) && InUse(ec2.reservations, ami) == Returned(false)
  }

  function AttemptedIn(ec2: Ec2Region): string -> bool
  {
    ami => Attempted(ec2, ami)
  }

  /** The deregistrations asked for are exactly the available, unused images
      among those reached, in list order and with their repetitions. */
  lemma {:induction false} DeregisterAllCalls(ec2: Ec2Region, amis: seq<string>)
    ensures DeregisterAll(ec2, amis).deregisterCalls == Keep(AttemptedIn(ec2), amis[..Reached(ec2, amis)])
  {
    if |amis| > 0 {
      var ami := amis[0];
      if Clear(ec2, ami) {
        DeregisterAllCalls(ec2, amis[1..]);
        var prefix := amis[1..][..Reached(ec2, amis[1..])];
        assert amis[..Reached(ec2, amis)] == [ami] + prefix;
        assert Keep(AttemptedIn(ec2), [ami] + prefix) == (if Attempted(ec2, ami) then [ami] else []) + Keep(AttemptedIn(ec2), prefix) by {
          assert ([ami] + prefix)[1..] == prefix;
        }
      } else {
        assert amis[..Reached(ec2, amis)] == [ami];
        assert Keep(AttemptedIn(ec2), [ami]) == (if Attempted(ec2, ami) then [ami] else []) by {
          assert [ami][1..] == [];
        }
      }
    }
  }

  /** The image IDs of a record's `AMI` field. */
  function AmiList(record: SnapshotRow): seq<string>
  {
    Split(record.ami, AmiSeparator)
  }

  /** What the loop body of `delete_snapshots` does with one record: the row
      it writes, the deregistrations it asks for, whether it calls
      `delete_snapshot`, and whether it leaves the region's loop. */
  datatype SnapshotStep = SnapshotStep(row: AuditRow, deregisterCalls: seq<string>, deleteCalled: bool, halts: bool)

  /** One record of a region: an empty `AMI` field means the snapshot is
      deleted straight away; otherwise its images are deregistered first, and
      the snapshot is deleted only if all of them were dealt with. A failed
      deregistration writes a `Failed` row and leaves the region's loop; an
      exception writes the same row and goes on with the next record. */
  function HandleSnapshot(record: SnapshotRow, ec2: Ec2Region): (s: SnapshotStep)
    ensures s.row.record == record && s.row.access == Success && s.row.deletion != NotApplicable
  {
    if AmiList(record) != [""] then
      var p := DeregisterAll(ec2, AmiList(record));
      match p.outcome
      case Returned(true) =>
        SnapshotStep(AuditRow(record, Success, Outcome(ec2.deleteSnapshotOk(record.snapshotId))), p.deregisterCalls, true, false)
      case Returned(false) =>
        SnapshotStep(AuditRow(record, Success, Failed), p.deregisterCalls, false, true)
      case Raised =>
        SnapshotStep(AuditRow(record, Success, Failed), p.deregisterCalls, false, false)
    else
      SnapshotStep(AuditRow(record, Success, Outcome(ec2.deleteSnapshotOk(record.snapshotId))), [], true, false)
  }

  /** The loop body's decisions: with an empty `AMI` field nothing is
      deregistered and the snapshot is deleted; otherwise the snapshot is
      deleted exactly when `deregister_all_amis` returns `True`, and the loop
      is left exactly when it returns `False`; the row says `Success` for the
      deletion exactly when `delete_snapshot` was called and returned. */
  lemma HandleSnapshotSpec(record: SnapshotRow, ec2: Ec2Region)
    ensures var s := HandleSnapshot(record, ec2);
      && (record.ami == "" ==> s.deregisterCalls == [] && s.deleteCalled && !s.halts)
      && (s.deleteCalled <==> record.ami == "" || DeregisterAll(ec2, AmiList(record)).outcome == Returned(true))
      && (s.halts <==> record.ami != "" && DeregisterAll(ec2, AmiList(record)).outcome == Returned(false))
      && (s.row.deletion == Success <==> s.deleteCalled && ec2.deleteSnapshotOk(record.snapshotId))
  {
    SplitSingleEmpty(record.ami, AmiSeparator);
  }

  /** The safety rule: a snapshot is deleted only when every image in its
      `AMI` field was passed over as unavailable or was unused and
      deregistered; in particular no available image launched by a running
      instance loses its snapshot, and no image is deregistered while in use.
      An image in any other state (`pending`, say) is passed over whether or
      not it is in use. */
  lemma HandleSnapshotSafe(record: SnapshotRow, ec2: Ec2Region)
    ensures HandleSnapshot(record, ec2).deleteCalled ==>
      forall i :: 0 <= i < |AmiList(record)| && record.ami != "" ==> Clear(ec2, AmiList(record)[i])
    ensures HandleSnapshot(record, ec2).deleteCalled ==>
      forall i :: 0 <= i < |AmiList(record)| && record.ami != "" ==>
        !(Available(ec2, AmiList(record)[i]) && InUse(ec2.reservations, AmiList(record)[i]) == Returned(true))
    ensures forall x :: x in HandleSnapshot(record, ec2).deregisterCalls ==>
      InUse(ec2.reservations, x) == Returned(false)
  {
    var amis := AmiList(record);
    HandleSnapshotSpec(record, ec2);
    if record.ami != "" {
      var k := FirstUnclear(ec2, amis);
      var p := DeregisterAll(ec2, amis);
      if HandleSnapshot(record, ec2).deleteCalled {
        assert k == |amis|;
      }
    }
  }

  /** How many records the region loop gets through: all of them, or up to
      and including the first that leaves the loop. */
  function StepsTaken(steps: seq<SnapshotStep>): (n: nat)
    ensures n <= |steps|
    ensures forall i :: 0 <= i < n - 1 ==> !steps[i].halts
    ensures n < |steps| ==> 0 < n && steps[n - 1].halts
  {
    if |steps| == 0 then 0
    else if steps[0].halts then 1
    else 1 + StepsTaken(steps[1..])
  }

  /** The region loop of `delete_snapshots` as written: records in order,
      until one whose images could not be dealt with; no row is written for
      the records after it. */
  function ProcessRegion(records: seq<SnapshotRow>, ec2: Ec2Region): (rows: seq<AuditRow>)
    ensures |rows| <= |records|
    ensures Project(RecordOf, rows) == records[..|rows|]
  {
    var steps := seq(|records|, i requires 0 <= i < |records| => HandleSnapshot(records[i], ec2));
    var n := StepsTaken(steps);
    var rows := seq(n, i requires 0 <= i < n => steps[i].row);
    assert forall i :: 0 <= i < n ==> Project(RecordOf, rows)[i] == records[i];
    rows
  }

  /** The region loop writes the loop body's row for each record it gets
      through, and leaves the loop at the first record whose images block. */
  lemma ProcessRegionSteps(records: seq<SnapshotRow>, ec2: Ec2Region)
    ensures var rows := ProcessRegion(records, ec2);
      && (forall i :: 0 <= i < |rows| ==> rows[i] == HandleSnapshot(records[i], ec2).row)
      && (forall i :: 0 <= i < |rows| - 1 ==> !HandleSnapshot(records[i], ec2).halts)
      && (|rows| < |records| ==> 0 < |rows| && HandleSnapshot(records[|rows| - 1], ec2).halts)
  {
  }

  /** A region in which no record's images block is processed in full:
      one row per record, in record order. */
  lemma ProcessRegionComplete(records: seq<SnapshotRow>, ec2: Ec2Region)
    ensures (forall i :: 0 <= i < |records| ==> !HandleSnapshot(records[i], ec2).halts) ==>
      Project(RecordOf, ProcessRegion(records, ec2)) == records
  {
    ProcessRegionSteps(records, ec2);
    assert records[..|records|] == records;
  }

  /** A blocked record ends its region: the region's rows stop with it. */
  lemma ProcessRegionStops(records: seq<SnapshotRow>, ec2: Ec2Region, k: nat)
    requires k < |records| && HandleSnapshot(records[k], ec2).halts
    ensures |ProcessRegion(records, ec2)| <= k + 1
  {
    ProcessRegionSteps(records, ec2);
  }

  /** No record's images block its deletion, each record looked up in its
      own account and region. */
  predicate NoneHalts(records: seq<SnapshotRow>, ec2: (string, string) -> Ec2Region)
  {
    forall i :: 0 <= i < |records| ==> !HandleSnapshot(records[i], ec2(records[i].accountId, records[i].region)).halts
  }

  /** `delete_snapshots`: the region records one after another, each with
      the EC2 client of its region. */
  function DeleteSnapshots(accountId: string, regions: seq<RegionEntry>, ec2: (string, string) -> Ec2Region)
    : (rows: seq<AuditRow>)
    requires AllAligned(regions)
  {
    if |regions| == 0 then []
    else
      assert AllAligned(regions[1..]) by {
        forall i | 0 <= i < |regions[1..]| ensures regions[1..][i].Aligned() {
          assert regions[1..][i] == regions[i + 1];
        }
      }
      ProcessRegion(regions[0].Rows(accountId), ec2(accountId, regions[0].region)) +
      DeleteSnapshots(accountId, regions[1..], ec2)
  }

  lemma TailAligned(regions: seq<RegionEntry>)
    requires AllAligned(regions) && |regions| > 0
    ensures AllAligned(regions[1..])
  {
    forall i | 0 <= i < |regions[1..]| ensures regions[1..][i].Aligned() {
      assert regions[1..][i] == regions[i + 1];
    }
  }

  /** `row` is what the loop body writes for its record, in the record's
      region of account `accountId`. */
  predicate Reports(row: AuditRow, accountId: string, ec2: (string, string) -> Ec2Region)
  {
    row.record.accountId == accountId &&
    row == HandleSnapshot(row.record, ec2(accountId, row.record.region)).row
  }

  /** Each row `delete_snapshots` writes reports a record of the account as
      the loop body handled it in the record's region. */
  lemma {:induction false} DeleteSnapshotsRows(accountId: string, regions: seq<RegionEntry>, ec2: (string, string) -> Ec2Region)
    requires AllAligned(regions)
    ensures forall row :: row in DeleteSnapshots(accountId, regions, ec2) ==> Reports(row, accountId, ec2)
  {
    if |regions| > 0 {
      TailAligned(regions);
      DeleteSnapshotsRows(accountId, regions[1..], ec2);
      var records := regions[0].Rows(accountId);
      var ec2r := ec2(accountId, regions[0].region);
      var here := ProcessRegion(records, ec2r);
      ProcessRegionSteps(records, ec2r);
      forall i | 0 <= i < |here| ensures Reports(here[i], accountId, ec2) {
        assert here[i].record == Project(RecordOf, here)[i] == records[i];
      }
    }
  }

  /** `delete_snapshots` reports no record twice and invents none. */
  lemma {:induction false} DeleteSnapshotsRecords(accountId: string, regions: seq<RegionEntry>, ec2: (string, string) -> Ec2Region)
    requires AllAligned(regions)
    ensures multiset(Project(RecordOf, DeleteSnapshots(accountId, regions, ec2))) <=
      multiset(RegionRecords(regions, accountId))
  {
    if |regions| > 0 {
      TailAligned(regions);
      DeleteSnapshotsRecords(accountId, regions[1..], ec2);
      var records := regions[0].Rows(accountId);
      var here := ProcessRegion(records, ec2(accountId, regions[0].region));
      var rest := DeleteSnapshots(accountId, regions[1..], ec2);
      ProjectConcat(RecordOf, here, rest);
      PrefixMultiset(records, |here|);
      MultisetConcatLe(Project(RecordOf, here), Project(RecordOf, rest), records, RegionRecords(regions[1..], accountId));
    }
  }

  /** When no record's images block, `delete_snapshots` reports every
      record, in region-then-record order. */
  lemma {:induction false} DeleteSnapshotsComplete(accountId: string, regions: seq<RegionEntry>, ec2: (string, string) -> Ec2Region)
    requires AllAligned(regions)
    requires NoneHalts(RegionRecords(regions, accountId), ec2)
    ensures Project(RecordOf, DeleteSnapshots(accountId, regions, ec2)) == RegionRecords(regions, accountId)
  {
    if |regions| > 0 {
      TailAligned(regions);
      var records := regions[0].Rows(accountId);
      var ec2r := ec2(accountId, regions[0].region);
      var tail := RegionRecords(regions[1..], accountId);
      NoneHaltsSplit(records, tail, ec2);
      forall i | 0 <= i < |records| ensures !HandleSnapshot(records[i], ec2r).halts {
        assert records[i].accountId == accountId && records[i].region == regions[0].region;
      }
      ProcessRegionComplete(records, ec2r);
      DeleteSnapshotsComplete(accountId, regions[1..], ec2);
      ProjectConcat(RecordOf, ProcessRegion(records, ec2r), DeleteSnapshots(accountId, regions[1..], ec2));
    }
  }

  lemma NoneHaltsSplit(xs: seq<SnapshotRow>, ys: seq<SnapshotRow>, ec2: (string, string) -> Ec2Region)
    requires NoneHalts(xs + ys, ec2)
    ensures NoneHalts(xs, ec2) && NoneHalts(ys, ec2)
  {
    forall i | 0 <= i < |xs| ensures !HandleSnapshot(xs[i], ec2(xs[i].accountId, xs[i].region)).halts {
      assert (xs + ys)[i] == xs[i];
    }
    forall i | 0 <= i < |ys| ensures !HandleSnapshot(ys[i], ec2(ys[i].accountId, ys[i].region)).halts {
      assert (xs + ys)[|xs| + i] == ys[i];
    }
  }

  /** One pass of `main`'s account loop: the role is assumed and validated,
      then either the account's snapshots are processed region by region or
      its records are reported as not accessible. */
  function VisitAccount(e: AccountEntry, validates: string -> bool, ec2: (string, string) -> Ec2Region): (v: Visit)
    requires e.Aligned()
    ensures v.roleArn == Some(RoleArn(e.accountId))
    ensures !validates(RoleArn(e.accountId)) ==> Project(RecordOf, v.rows) == e.Rows()
    ensures !validates(RoleArn(e.accountId)) ==> v.rows == AuthFailureRows(e)
  {
    var arn := RoleArn(e.accountId);
    if validates(arn) then
      RegionalSpec(e);
      Visit(Some(arn), DeleteSnapshots(e.accountId, RegionalSnapshots(e), ec2))
    else
      Visit(Some(arn), AuthFailureRows(e))
  }

  /** Every row of a visit reports a record of the visited account, with
      access `Success` exactly when its role validated; then the row is what
      the loop body wrote for the record in its region, and otherwise its
      deletion status is `N/A`. */
  lemma VisitAccountRows(e: AccountEntry, validates: string -> bool, ec2: (string, string) -> Ec2Region)
    requires e.Aligned()
    ensures forall row :: row in VisitAccount(e, validates, ec2).rows ==>
      && row.record.accountId == e.accountId
      && row.access == (if validates(RoleArn(e.accountId)) then Success else Failed)
      && (validates(RoleArn(e.accountId)) ==> Reports(row, e.accountId, ec2))
      && (!validates(RoleArn(e.accountId)) ==> row.deletion == NotApplicable)
  {
    var v := VisitAccount(e, validates, ec2);
    if validates(RoleArn(e.accountId)) {
      RegionalSpec(e);
      DeleteSnapshotsRows(e.accountId, RegionalSnapshots(e), ec2);
    } else {
      forall row | row in v.rows
        ensures row.record.accountId == e.accountId && row.access == Failed && row.deletion == NotApplicable
      {
        var i :| 0 <= i < |v.rows| && v.rows[i] == row;
        assert row.record == Project(RecordOf, v.rows)[i] == e.Rows()[i];
      }
    }
  }

  /** A visit reports each of the account's records at most once and
      invents none; it reports all of them when the role validated and no
      record's images block, and all of them in record order when the role
      did not validate. */
  lemma VisitAccountRecords(e: AccountEntry, validates: string -> bool, ec2: (string, string) -> Ec2Region)
    requires e.Aligned()
    ensures multiset(Project(RecordOf, VisitAccount(e, validates, ec2).rows)) <= multiset(e.Rows())
    ensures validates(RoleArn(e.accountId)) && NoneHalts(e.Rows(), ec2) ==>
      multiset(Project(RecordOf, VisitAccount(e, validates, ec2).rows)) == multiset(e.Rows())
  {
    if validates(RoleArn(e.accountId)) {
      RegionalSpec(e);
      var regions := RegionalSnapshots(e);
      DeleteSnapshotsRecords(e.accountId, regions, ec2);
      if NoneHalts(e.Rows(), ec2) {
        var all := RegionRecords(regions, e.accountId);
        assert NoneHalts(all, ec2) by {
          forall i | 0 <= i < |all|
            ensures !HandleSnapshot(all[i], ec2(all[i].accountId, all[i].region)).halts
          {
            assert all[i] in multiset(e.Rows());
            var j :| 0 <= j < |e.Rows()| && e.Rows()[j] == all[i];
          }
        }
        DeleteSnapshotsComplete(e.accountId, regions, ec2);
      }
    }
  }

  /** The visits of `main`, one per account record. */
  function Visits(es: seq<AccountEntry>, validates: string -> bool, ec2: (string, string) -> Ec2Region)
    : (vs: seq<Visit>)
    requires forall i :: 0 <= i < |es| ==> es[i].Aligned()
    ensures |vs| == |es|
    ensures forall i :: 0 <= i < |es| ==> vs[i] == VisitAccount(es[i], validates, ec2)
  {
    seq(|es|, i requires 0 <= i < |es| => VisitAccount(es[i], validates, ec2))
  }

  /** `main`: the snapshot file's rows grouped into account records, then
      every account visited in turn; this script skips no account. */
  function DeregisterRun(snapshotRows: seq<SnapshotRow>, validates: string -> bool, ec2: (string, string) -> Ec2Region)
    : (vs: seq<Visit>)
    ensures |vs| == |AcctList(snapshotRows)|
  {
    AcctListSpec(snapshotRows);
    Visits(AcctList(snapshotRows), validates, ec2)
  }

  /** A role is assumed for every account of the file, in the order the
      accounts first appear. */
  lemma DeregisterRunRoles(snapshotRows: seq<SnapshotRow>, validates: string -> bool, ec2: (string, string) -> Ec2Region)
    ensures forall i :: 0 <= i < |DeregisterRun(snapshotRows, validates, ec2)| ==>
      DeregisterRun(snapshotRows, validates, ec2)[i].roleArn ==
        Some(RoleArn(AccountIds(AcctList(snapshotRows))[i]))
    ensures FirstAppearanceOrder(Project(AccountOf, snapshotRows), AccountIds(AcctList(snapshotRows)))
  {
    AcctListSpec(snapshotRows);
  }

  /** The run's rows for one account are the rows of that account's visit,
      or none when the file has no record of the account. */
  lemma DeregisterRunRowsOf(snapshotRows: seq<SnapshotRow>, validates: string -> bool, ec2: (string, string) -> Ec2Region,
                            a: string)
    ensures var es := AcctList(snapshotRows);
      && (forall i :: 0 <= i < |es| ==> es[i].Aligned())
      && (a in AccountIds(es) ==>
            && es[IndexOf(AccountIds(es), a)].accountId == a
            && es[IndexOf(AccountIds(es), a)].Rows() == Select(snapshotRows, AccountOf, a)
            && RowsOf(AllRows(DeregisterRun(snapshotRows, validates, ec2)), a) ==
               VisitAccount(es[IndexOf(AccountIds(es), a)], validates, ec2).rows)
      && (a !in AccountIds(es) ==>
            && RowsOf(AllRows(DeregisterRun(snapshotRows, validates, ec2)), a) == []
            && Select(snapshotRows, AccountOf, a) == [])
  {
    AcctListRecords(snapshotRows);
    AcctListAccounts(snapshotRows);
    var es := AcctList(snapshotRows);
    var ids := AccountIds(es);
    var vs := Visits(es, validates, ec2);
    forall i, k | 0 <= i < |vs| && 0 <= k < |vs[i].rows| ensures vs[i].rows[k].record.accountId == ids[i] {
      VisitAccountRows(es[i], validates, ec2);
      assert vs[i].rows[k] in vs[i].rows;
    }
    assert DeregisterRun(snapshotRows, validates, ec2) == vs;
    RowsOfAllRows(vs, ids, a);
    if a !in ids {
      SelectAbsent(snapshotRows, AccountOf, a);
    }
  }

  /** The rows the run writes for any one account: each of the account's
      records of the input file at most once and nothing else; all of them,
      in record order and marked `Failed` / `N/A`, if its role did not
      validate; if it validated, each row is what the loop body wrote for its
      record in its region, and all records are reported when none of their
      images stops a region loop. */
  lemma DeregisterRunAccount(snapshotRows: seq<SnapshotRow>, validates: string -> bool, ec2: (string, string) -> Ec2Region,
                             a: string)
    ensures multiset(Project(RecordOf, RowsOf(AllRows(DeregisterRun(snapshotRows, validates, ec2)), a))) <=
      multiset(Select(snapshotRows, AccountOf, a))
    ensures !validates(RoleArn(a)) ==>
      Project(RecordOf, RowsOf(AllRows(DeregisterRun(snapshotRows, validates, ec2)), a)) ==
      Select(snapshotRows, AccountOf, a)
    ensures validates(RoleArn(a)) && NoneHalts(Select(snapshotRows, AccountOf, a), ec2) ==>
      multiset(Project(RecordOf, RowsOf(AllRows(DeregisterRun(snapshotRows, validates, ec2)), a))) ==
      multiset(Select(snapshotRows, AccountOf, a))
    ensures forall row :: row in RowsOf(AllRows(DeregisterRun(snapshotRows, validates, ec2)), a) ==>
      && row.access == (if validates(RoleArn(a)) then Success else Failed)
      && (validates(RoleArn(a)) ==> Reports(row, a, ec2))
      && (!validates(RoleArn(a)) ==> row.deletion == NotApplicable)
  {
    DeregisterRunRowsOf(snapshotRows, validates, ec2, a);
    var es := AcctList(snapshotRows);
    var ids := AccountIds(es);
    if a in ids {
      var e := es[IndexOf(ids, a)];
      VisitAccountRows(e, validates, ec2);
      VisitAccountRecords(e, validates, ec2);
    }
  }
}
