/** The snapshot CSV reshaped into per-account records and, inside one
    account, per-region records. Each record keeps one list per column, the
    lists being filled side by side, so position `i` of every list describes
    the same input row. The functions give the meaning (the rows grouped by
    key, then split into columns); the methods follow the scripts' nested
    scans with their `flag` sentinel and are proved to compute the same. */
module SnapshotRecords {
  import opened Seqs
  import opened Grouping

  /** One data row of the snapshot file: `Owner Id`, `Region Name`,
      `Snapshot Id`, `owner2`, the cost column and `AMI`. */
  datatype SnapshotRow = SnapshotRow(
    accountId: string, region: string, snapshotId: string,
    owner: string, cost: string, ami: string)

  function AccountOf(r: SnapshotRow): string { r.accountId }
  function RegionOf(r: SnapshotRow): string { r.region }
  function SnapshotIdOf(r: SnapshotRow): string { r.snapshotId }
  function OwnerOf(r: SnapshotRow): string { r.owner }
  function CostOf(r: SnapshotRow): string { r.cost }
  function AmiOf(r: SnapshotRow): string { r.ami }

  /** An account dictionary: `AccountID` and the parallel lists `Region`,
      `SnapshotID`, `Owner`, `Cost` and `AMI`. */
  datatype AccountEntry = AccountEntry(
    accountId: string, regions: seq<string>, snapshotIds: seq<string>,
    owners: seq<string>, costs: seq<string>, amis: seq<string>)
  {
    predicate Aligned() {
      |regions| == |snapshotIds| == |owners| == |costs| == |amis|
    }

    /** One row's values appended to every list. */
    function Append(r: SnapshotRow): AccountEntry {
      AccountEntry(accountId, regions + [r.region], snapshotIds + [r.snapshotId],
                   owners + [r.owner], costs + [r.cost], amis + [r.ami])
    }

    /** The rows the lists describe, position by position. */
    function Rows(): (rows: seq<SnapshotRow>)
      requires Aligned()
      ensures |rows| == |snapshotIds|
      ensures forall i :: 0 <= i < |rows| ==> rows[i].accountId == accountId
    {
      seq(|snapshotIds|, i requires 0 <= i < |snapshotIds| =>
        SnapshotRow(accountId, regions[i], snapshotIds[i], owners[i], costs[i], amis[i]))
    }
  }

  /** The account dictionary created for an account's first row. */
  function NewAccount(r: SnapshotRow): AccountEntry {
    AccountEntry(r.accountId, [r.region], [r.snapshotId], [r.owner], [r.cost], [r.ami])
  }

  /** A group of rows of one account, split into columns. */
  function AccountView(b: Bucket<string, SnapshotRow>): AccountEntry {
    AccountEntry(b.key, Project(RegionOf, b.items), Project(SnapshotIdOf, b.items),
                 Project(OwnerOf, b.items), Project(CostOf, b.items), Project(AmiOf, b.items))
  }

  function AccountViews(bs: seq<Bucket<string, SnapshotRow>>): (es: seq<AccountEntry>)
    ensures |es| == |bs|
    ensures forall i :: 0 <= i < |bs| ==> es[i] == AccountView(bs[i])
  {
    seq(|bs|, i requires 0 <= i < |bs| => AccountView(bs[i]))
  }

  function AccountIds(es: seq<AccountEntry>): (ids: seq<string>)
    ensures |ids| == |es|
    ensures forall i :: 0 <= i < |es| ==> ids[i] == es[i].accountId
  {
    seq(|es|, i requires 0 <= i < |es| => es[i].accountId)
  }

  /** The number of snapshots recorded over all entries. */
  function TotalSize(es: seq<AccountEntry>): nat
  {
    if |es| == 0 then 0 else |es[0].snapshotIds| + TotalSize(es[1..])
  }

  /** The account records `acct_list` is meant to build: the rows grouped by
      account, each group split into its columns. */
  function AcctList(rows: seq<SnapshotRow>): seq<AccountEntry>
  {
    AccountViews(Group(rows, AccountOf))
  }

  lemma AccountViewAppend(k: string, items: seq<SnapshotRow>, x: SnapshotRow)
    ensures AccountView(Bucket(k, items + [x])) == AccountView(Bucket(k, items)).Append(x)
  {
    assert Project(RegionOf, items + [x]) == Project(RegionOf, items) + [x.region];
    assert Project(SnapshotIdOf, items + [x]) == Project(SnapshotIdOf, items) + [x.snapshotId];
    assert Project(OwnerOf, items + [x]) == Project(OwnerOf, items) + [x.owner];
    assert Project(CostOf, items + [x]) == Project(CostOf, items) + [x.cost];
    assert Project(AmiOf, items + [x]) == Project(AmiOf, items) + [x.ami];
  }

  /** The insertion step of `acct_list`: the row is appended to the first
      entry of its account, or opens a new entry at the end. */
  function AddRow(es: seq<AccountEntry>, r: SnapshotRow): seq<AccountEntry>
  {
    var j := IndexOf(AccountIds(es), r.accountId);
    if j < |es| then es[j := es[j].Append(r)] else es + [NewAccount(r)]
  }

  /** The first entry the scan matches is the one the row is appended to. */
  lemma AddRowFound(es: seq<AccountEntry>, r: SnapshotRow, j: nat)
    requires j < |es| && es[j].accountId == r.accountId
    requires forall m :: 0 <= m < j ==> es[m].accountId != r.accountId
    ensures AddRow(es, r) == es[j := es[j].Append(r)]
  {
    assert AccountIds(es)[j] == r.accountId;
  }

  /** A row no entry matches opens a new entry. */
  lemma AddRowMissing(es: seq<AccountEntry>, r: SnapshotRow)
    requires forall m :: 0 <= m < |es| ==> es[m].accountId != r.accountId
    ensures AddRow(es, r) == es + [NewAccount(r)]
  {
    assert r.accountId !in AccountIds(es);
  }

  /** The records of the rows up to row `n` are those of the rows before it
      with row `n` added. */
  lemma AcctListStep(rows: seq<SnapshotRow>, n: nat)
    requires n < |rows|
    ensures AcctList(rows[..n + 1]) == AddRow(AcctList(rows[..n]), rows[n])
  {
    var x := rows[n];
    var g := Group(rows[..n], AccountOf);
    assert rows[..n + 1][..n] == rows[..n];
    assert Group(rows[..n + 1], AccountOf) == Insert(g, x.accountId, x);
    var before := AccountViews(g);
    assert AccountIds(before) == Keys(g);
    var j := IndexOf(Keys(g), x.accountId);
    if j < |g| {
      AccountViewAppend(x.accountId, g[j].items, x);
      AccountViewsUpdate(g, j, Bucket(x.accountId, g[j].items + [x]));
    } else {
      assert AccountView(Bucket(x.accountId, [x])) == NewAccount(x);
      AccountViewsSnoc(g, Bucket(x.accountId, [x]));
    }
  }

  lemma AccountViewsUpdate(g: seq<Bucket<string, SnapshotRow>>, j: nat, b: Bucket<string, SnapshotRow>)
    requires j < |g|
    ensures AccountViews(g[j := b]) == AccountViews(g)[j := AccountView(b)]
  {
  }

  lemma AccountViewsSnoc(g: seq<Bucket<string, SnapshotRow>>, b: Bucket<string, SnapshotRow>)
    ensures AccountViews(g + [b]) == AccountViews(g) + [AccountView(b)]
  {
  }

  /** A group split into columns gives back the group's rows position by position. */
  lemma AccountViewRows(b: Bucket<string, SnapshotRow>)
    requires forall r :: r in b.items ==> r.accountId == b.key
    ensures AccountView(b).Aligned() && AccountView(b).Rows() == b.items
  {
    var e := AccountView(b);
    assert forall i :: 0 <= i < |b.items| ==> e.Rows()[i] == b.items[i];
  }

  lemma {:induction false} TotalSizeViews(bs: seq<Bucket<string, SnapshotRow>>)
    ensures TotalSize(AccountViews(bs)) == |Flatten(bs)|
  {
    if |bs| > 0 {
      TotalSizeViews(bs[1..]);
      assert AccountViews(bs)[1..] == AccountViews(bs[1..]);
    }
  }

  /** The account records are a partition of the rows: one entry per distinct
      `Owner Id` in order of first appearance; in each entry the lists are
      equally long and position `i` of every list comes from the same row,
      the rows of that account in input order; and the list lengths add up
      to the number of rows. */
  lemma AcctListSpec(rows: seq<SnapshotRow>)
    ensures FirstAppearanceOrder(Project(AccountOf, rows), AccountIds(AcctList(rows)))
    ensures forall i :: 0 <= i < |AcctList(rows)| ==>
      && AcctList(rows)[i].Aligned()
      && AcctList(rows)[i].Rows() == Select(rows, AccountOf, AcctList(rows)[i].accountId)
    ensures TotalSize(AcctList(rows)) == |rows|
  {
    var g := Group(rows, AccountOf);
    GroupSpec(rows, AccountOf);
    assert AccountIds(AcctList(rows)) == Keys(g);
    forall i | 0 <= i < |g|
      ensures AcctList(rows)[i].Aligned()
      ensures AcctList(rows)[i].Rows() == Select(rows, AccountOf, AcctList(rows)[i].accountId)
    {
      SelectKeys(rows, AccountOf, g[i].key);
      AccountViewRows(g[i]);
    }
    TotalSizeViews(g);
  }

  /** The account records: each aligned and holding its account's rows. */
  lemma AcctListRecords(rows: seq<SnapshotRow>)
    ensures forall i :: 0 <= i < |AcctList(rows)| ==>
      && AcctList(rows)[i].Aligned()
      && AcctList(rows)[i].Rows() == Select(rows, AccountOf, AcctList(rows)[i].accountId)
  {
    AcctListSpec(rows);
  }

  /** One record per account of the file, and no other. */
  lemma AcctListAccounts(rows: seq<SnapshotRow>)
    ensures NoDuplicates(AccountIds(AcctList(rows)))
    ensures forall a :: a in AccountIds(AcctList(rows)) <==> a in Project(AccountOf, rows)
  {
    AcctListSpec(rows);
    var ids, keys := AccountIds(AcctList(rows)), Project(AccountOf, rows);
    forall a ensures a in ids <==> a in keys {
      if a in ids {
        var i :| 0 <= i < |ids| && ids[i] == a;
      }
      if a in keys {
        var k :| 0 <= k < |keys| && keys[k] == a;
      }
    }
  }

  /** `acct_list` as written: for each row, scan the entries built so far
      with the `flag` sentinel, append the row's values to the first entry of
      its account, or open a new entry when none matched. */
  method AcctListLoop(rows: seq<SnapshotRow>) returns (accountList: seq<AccountEntry>)
    ensures accountList == AcctList(rows)
    ensures forall i :: 0 <= i < |accountList| ==>
      accountList[i].Aligned() && accountList[i].Rows() == Select(rows, AccountOf, accountList[i].accountId)
  {
    accountList := [];
    var flag := false;
    for n := 0 to |rows|
      invariant accountList == AcctList(rows[..n])
      invariant n == 0 ==> !flag && accountList == []
      invariant n > 0 ==> accountList != []
    {
      var line := rows[n];
      var currentAcct := line.accountId;
      ghost var before := accountList;
      ghost var matched := false;
      var j := 0;
      while j < |accountList|
        invariant 0 <= j <= |accountList| && accountList == before && !matched
        invariant forall m :: 0 <= m < j ==> accountList[m].accountId != currentAcct
        invariant (0 < j || before == []) ==> !flag
      {
        if accountList[j].accountId == currentAcct {
          accountList := accountList[j := accountList[j].Append(line)];
          flag := true;
          matched := true;
          break;
        } else {
          flag := false;
        }
        j := j + 1;
      }
      if !flag {
        accountList := accountList + [NewAccount(line)];
        flag := true;
      }
      AcctListStep(rows, n);
      if matched {
        AddRowFound(before, line, j);
      } else {
        AddRowMissing(before, line);
      }
    }
    assert rows[..|rows|] == rows;
    AcctListSpec(rows);
  }

  /** A region dictionary: `Region` and the parallel lists `Snapshots`,
      `Owners`, `Costs` and `AMI`. */
  datatype RegionEntry = RegionEntry(
    region: string, snapshots: seq<string>, owners: seq<string>,
    costs: seq<string>, amis: seq<string>)
  {
    predicate Aligned() {
      |snapshots| == |owners| == |costs| == |amis|
    }

    /** One snapshot's values appended to every list. */
    function Add(snapshot: string, owner: string, cost: string, ami: string): RegionEntry {
      RegionEntry(region, snapshots + [snapshot], owners + [owner], costs + [cost], amis + [ami])
    }

    /** The rows the lists describe, for the account the region belongs to. */
    function Rows(accountId: string): (rows: seq<SnapshotRow>)
      requires Aligned()
      ensures |rows| == |snapshots|
      ensures forall i :: 0 <= i < |rows| ==>
        rows[i].accountId == accountId && rows[i].region == region && rows[i].snapshotId == snapshots[i]
    {
      seq(|snapshots|, i requires 0 <= i < |snapshots| =>
        SnapshotRow(accountId, region, snapshots[i], owners[i], costs[i], amis[i]))
    }
  }

  function NewRegion(r: SnapshotRow): RegionEntry {
    RegionEntry(r.region, [r.snapshotId], [r.owner], [r.cost], [r.ami])
  }

  /** A group of rows of one region, split into columns. */
  function RegionView(b: Bucket<string, SnapshotRow>): RegionEntry {
    RegionEntry(b.key, Project(SnapshotIdOf, b.items), Project(OwnerOf, b.items),
                Project(CostOf, b.items), Project(AmiOf, b.items))
  }

  function RegionViews(bs: seq<Bucket<string, SnapshotRow>>): (rs: seq<RegionEntry>)
    ensures |rs| == |bs|
    ensures forall i :: 0 <= i < |bs| ==> rs[i] == RegionView(bs[i])
  {
    seq(|bs|, i requires 0 <= i < |bs| => RegionView(bs[i]))
  }

  function RegionNames(rs: seq<RegionEntry>): (names: seq<string>)
    ensures |names| == |rs|
    ensures forall i :: 0 <= i < |rs| ==> names[i] == rs[i].region
  {
    seq(|rs|, i requires 0 <= i < |rs| => rs[i].region)
  }

  predicate AllAligned(rs: seq<RegionEntry>) {
    forall i :: 0 <= i < |rs| ==> rs[i].Aligned()
  }

  /** The rows of all region records, region after region. */
  function RegionRecords(rs: seq<RegionEntry>, accountId: string): seq<SnapshotRow>
    requires AllAligned(rs)
  {
    if |rs| == 0 then [] else rs[0].Rows(accountId) + RegionRecords(rs[1..], accountId)
  }

  /** The region records `regional_snapshots` is meant to build from an
      account record: its rows grouped by region, each group split into
      columns. */
  function RegionalSnapshots(e: AccountEntry): seq<RegionEntry>
    requires e.Aligned()
  {
    RegionViews(Group(e.Rows(), RegionOf))
  }

  lemma RegionViewAppend(k: string, items: seq<SnapshotRow>, x: SnapshotRow)
    ensures RegionView(Bucket(k, items + [x])) == RegionView(Bucket(k, items)).Add(x.snapshotId, x.owner, x.cost, x.ami)
  {
    assert Project(SnapshotIdOf, items + [x]) == Project(SnapshotIdOf, items) + [x.snapshotId];
    assert Project(OwnerOf, items + [x]) == Project(OwnerOf, items) + [x.owner];
    assert Project(CostOf, items + [x]) == Project(CostOf, items) + [x.cost];
    assert Project(AmiOf, items + [x]) == Project(AmiOf, items) + [x.ami];
  }

  /** The insertion step of `regional_snapshots`: the row's values are
      appended to the first record of its region, or open a new record at the
      end. */
  function AddSnapshot(rs: seq<RegionEntry>, x: SnapshotRow): seq<RegionEntry>
  {
    var j := IndexOf(RegionNames(rs), x.region);
    if j < |rs| then rs[j := rs[j].Add(x.snapshotId, x.owner, x.cost, x.ami)] else rs + [NewRegion(x)]
  }

  /** The first record the scan matches is the one the values are appended to. */
  lemma AddSnapshotFound(rs: seq<RegionEntry>, x: SnapshotRow, j: nat)
    requires j < |rs| && rs[j].region == x.region
    requires forall m :: 0 <= m < j ==> rs[m].region != x.region
    ensures AddSnapshot(rs, x) == rs[j := rs[j].Add(x.snapshotId, x.owner, x.cost, x.ami)]
  {
    assert RegionNames(rs)[j] == x.region;
  }

  /** A region no record matches opens a new record. */
  lemma AddSnapshotMissing(rs: seq<RegionEntry>, x: SnapshotRow)
    requires forall m :: 0 <= m < |rs| ==> rs[m].region != x.region
    ensures AddSnapshot(rs, x) == rs + [NewRegion(x)]
  {
    assert x.region !in RegionNames(rs);
  }

  /** The region records of the rows up to row `n` are those of the rows
      before it with row `n` added. */
  lemma RegionalStep(rows: seq<SnapshotRow>, n: nat)
    requires n < |rows|
    ensures RegionViews(Group(rows[..n + 1], RegionOf)) == AddSnapshot(RegionViews(Group(rows[..n], RegionOf)), rows[n])
  {
    var x := rows[n];
    var g := Group(rows[..n], RegionOf);
    assert rows[..n + 1][..n] == rows[..n];
    assert Group(rows[..n + 1], RegionOf) == Insert(g, x.region, x);
    var before := RegionViews(g);
    assert RegionNames(before) == Keys(g);
    var j := IndexOf(Keys(g), x.region);
    if j < |g| {
      RegionViewAppend(x.region, g[j].items, x);
      RegionViewsUpdate(g, j, Bucket(x.region, g[j].items + [x]));
    } else {
      assert RegionView(Bucket(x.region, [x])) == NewRegion(x);
      RegionViewsSnoc(g, Bucket(x.region, [x]));
    }
  }

  lemma RegionViewsUpdate(g: seq<Bucket<string, SnapshotRow>>, j: nat, b: Bucket<string, SnapshotRow>)
    requires j < |g|
    ensures RegionViews(g[j := b]) == RegionViews(g)[j := RegionView(b)]
  {
  }

  lemma RegionViewsSnoc(g: seq<Bucket<string, SnapshotRow>>, b: Bucket<string, SnapshotRow>)
    ensures RegionViews(g + [b]) == RegionViews(g) + [RegionView(b)]
  {
  }

  lemma RegionViewRows(b: Bucket<string, SnapshotRow>, accountId: string)
    requires forall r :: r in b.items ==> r.accountId == accountId && r.region == b.key
    ensures RegionView(b).Aligned() && RegionView(b).Rows(accountId) == b.items
  {
    var e := RegionView(b);
    assert forall i :: 0 <= i < |b.items| ==> e.Rows(accountId)[i] == b.items[i];
  }

  lemma {:induction false} RegionRecordsViews(bs: seq<Bucket<string, SnapshotRow>>, accountId: string)
    requires forall i, r :: 0 <= i < |bs| && r in bs[i].items ==> r.accountId == accountId && r.region == bs[i].key
    ensures AllAligned(RegionViews(bs))
    ensures RegionRecords(RegionViews(bs), accountId) == Flatten(bs)
  {
    forall i | 0 <= i < |bs| ensures RegionViews(bs)[i].Aligned() {
      RegionViewRows(bs[i], accountId);
    }
    if |bs| > 0 {
      RegionRecordsViews(bs[1..], accountId);
      assert RegionViews(bs)[1..] == RegionViews(bs[1..]);
      RegionViewRows(bs[0], accountId);
    }
  }

  /** Every row of a group of one account's rows belongs to that account and
      to the group's region. */
  lemma RegionGroupsHomogeneous(rows: seq<SnapshotRow>, accountId: string)
    requires forall i :: 0 <= i < |rows| ==> rows[i].accountId == accountId
    ensures forall i, r :: 0 <= i < |Group(rows, RegionOf)| && r in Group(rows, RegionOf)[i].items ==>
      r.accountId == accountId && r.region == Group(rows, RegionOf)[i].key
  {
    GroupMembers(rows, RegionOf);
    assert forall r :: r in rows ==> r.accountId == accountId;
  }

  lemma RegionalRows(rows: seq<SnapshotRow>, accountId: string)
    requires forall i :: 0 <= i < |rows| ==> rows[i].accountId == accountId
    ensures var rs := RegionViews(Group(rows, RegionOf));
      && AllAligned(rs)
      && forall i :: 0 <= i < |rs| ==> rs[i].Rows(accountId) == Select(rows, RegionOf, rs[i].region)
  {
    var g := Group(rows, RegionOf);
    RegionGroupsHomogeneous(rows, accountId);
    GroupSpec(rows, RegionOf);
    forall i | 0 <= i < |g|
      ensures RegionView(g[i]).Aligned()
      ensures RegionView(g[i]).Rows(accountId) == Select(rows, RegionOf, g[i].key)
    {
      RegionViewRows(g[i], accountId);
    }
  }

  lemma RegionalPartition(rows: seq<SnapshotRow>, accountId: string)
    requires forall i :: 0 <= i < |rows| ==> rows[i].accountId == accountId
    ensures AllAligned(RegionViews(Group(rows, RegionOf)))
    ensures multiset(RegionRecords(RegionViews(Group(rows, RegionOf)), accountId)) == multiset(rows)
  {
    RegionGroupsHomogeneous(rows, accountId);
    RegionRecordsViews(Group(rows, RegionOf), accountId);
    GroupSpec(rows, RegionOf);
  }

  /** The region records partition one account's rows: one record per
      distinct region in order of first appearance; in each record the lists
      are equally long and describe that region's rows in their original
      order; and together the records hold exactly the account's rows. */
  lemma RegionalSpec(e: AccountEntry)
    requires e.Aligned()
    ensures FirstAppearanceOrder(e.regions, RegionNames(RegionalSnapshots(e)))
    ensures AllAligned(RegionalSnapshots(e))
    ensures forall i :: 0 <= i < |RegionalSnapshots(e)| ==>
      RegionalSnapshots(e)[i].Rows(e.accountId) == Select(e.Rows(), RegionOf, RegionalSnapshots(e)[i].region)
    ensures multiset(RegionRecords(RegionalSnapshots(e), e.accountId)) == multiset(e.Rows())
    ensures |RegionRecords(RegionalSnapshots(e), e.accountId)| == |e.snapshotIds|
  {
    var rows := e.Rows();
    GroupSpec(rows, RegionOf);
    assert Project(RegionOf, rows) == e.regions;
    assert RegionNames(RegionalSnapshots(e)) == Keys(Group(rows, RegionOf));
    RegionalRows(rows, e.accountId);
    RegionalPartition(rows, e.accountId);
    assert |multiset(RegionRecords(RegionalSnapshots(e), e.accountId))| == |multiset(rows)|;
  }

  /** `regional_snapshots` as written: walk the account's lists by position,
      scan the region records built so far with the `flag` sentinel, append
      the position's values to the first record of its region, or open a new
      record when none matched. The lists must be aligned; the script's
      fallback for misaligned lists is not modelled. */
  method RegionalLoop(e: AccountEntry) returns (regionList: seq<RegionEntry>)
    requires e.Aligned()
    ensures regionList == RegionalSnapshots(e)
    ensures FirstAppearanceOrder(e.regions, RegionNames(regionList))
    ensures AllAligned(regionList)
    ensures multiset(RegionRecords(regionList, e.accountId)) == multiset(e.Rows())
  {
    ghost var rows := e.Rows();
    regionList := [];
    var flag := false;
    var counter := |e.snapshotIds|;
    for idx := 0 to counter
      invariant regionList == RegionViews(Group(rows[..idx], RegionOf))
      invariant idx == 0 ==> !flag && regionList == []
      invariant idx > 0 ==> regionList != []
    {
      var currentRegion := e.regions[idx];
      ghost var before := regionList;
      ghost var matched := false;
      var j := 0;
      while j < |regionList|
        invariant 0 <= j <= |regionList| && regionList == before && !matched
        invariant forall m :: 0 <= m < j ==> regionList[m].region != currentRegion
        invariant (0 < j || before == []) ==> !flag
      {
        if regionList[j].region == currentRegion {
          regionList := regionList[j := regionList[j].Add(
            e.snapshotIds[idx], e.owners[idx], e.costs[idx], e.amis[idx])];
          flag := true;
          matched := true;
          break;
        } else {
          flag := false;
        }
        j := j + 1;
      }
      if !flag {
        regionList := regionList + [RegionEntry(currentRegion, [e.snapshotIds[idx]],
          [e.owners[idx]], [e.costs[idx]], [e.amis[idx]])];
        flag := true;
      }
      RegionalStep(rows, idx);
      ghost var x := SnapshotRow(e.accountId, currentRegion, e.snapshotIds[idx], e.owners[idx], e.costs[idx], e.amis[idx]);
      assert rows[idx] == x;
      if matched {
        AddSnapshotFound(before, x, j);
      } else {
        AddSnapshotMissing(before, x);
      }
    }
    assert rows[..counter] == rows;
    RegionalSpec(e);
  }
}
