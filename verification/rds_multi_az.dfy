/** `rdsinstances.py`: in every account, list the database instances of
    every region but one and report those deployed across availability
    zones. */
module RdsMultiAz {
  import opened Seqs
  import opened Accounts

  const RdsSuffix := "_prod_multiAZ_rds.csv"
  const RdsHeader: seq<string> := ["DBIdentifier", "MultiAZStatus"]

  /** A database instance as `describe_db_instances` lists it. */
  datatype DbInstance = DbInstance(identifier: string, multiAz: bool)

  datatype RdsRow = RdsRow(identifier: string, multiAz: bool)

  /** One account's output file: its name, the header row and the data rows. */
  datatype RdsReport = RdsReport(file: string, header: seq<string>, rows: seq<RdsRow>)

  /** RDS in every account: the regions `describe_regions` lists for the
      account, and `instances(account)(region)`, the instances listed
      there. */
  datatype RdsCloud = RdsCloud(regions: string -> seq<string>, instances: string -> string -> seq<DbInstance>)

  /** The instance loop of `rds_multiAZ`: a row for each Multi-AZ instance,
      in listed order; the others are only logged. */
  function MultiAzRows(sites: seq<Located<DbInstance>>): (rows: seq<RdsRow>)
    ensures |rows| <= |sites|
    ensures forall row :: row in rows ==>
      && row.multiAz
      && exists site :: site in sites && site.item == DbInstance(row.identifier, true)
  {
    if |sites| == 0 then []
    else
      var rest := MultiAzRows(sites[1..]);
      assert forall site :: site in sites[1..] ==> site in sites;
      (if sites[0].item.multiAz then [RdsRow(sites[0].item.identifier, true)] else []) + rest
  }

  predicate IsMultiAz(site: Located<DbInstance>) { site.item.multiAz }

  function IdentifierOf(site: Located<DbInstance>): string { site.item.identifier }

  function RowIdentifier(row: RdsRow): string { row.identifier }

  /** The report lists exactly the identifiers of the Multi-AZ instances,
      in the order they were listed, each marked `True`. */
  lemma {:induction false} MultiAzRowsSpec(sites: seq<Located<DbInstance>>)
    ensures Project(RowIdentifier, MultiAzRows(sites)) == Project(IdentifierOf, Keep(IsMultiAz, sites))
  {
    if |sites| > 0 {
      MultiAzRowsSpec(sites[1..]);
      var rest := MultiAzRows(sites[1..]);
      var kept := Keep(IsMultiAz, sites[1..]);
      if sites[0].item.multiAz {
        var row := RdsRow(sites[0].item.identifier, true);
        assert MultiAzRows(sites) == [row] + rest;
        assert Keep(IsMultiAz, sites) == [sites[0]] + kept;
        ProjectConcat(RowIdentifier, [row], rest);
        ProjectConcat(IdentifierOf, [sites[0]], kept);
      } else {
        assert MultiAzRows(sites) == rest;
        assert Keep(IsMultiAz, sites) == kept;
      }
    }
  }

  /** The instances of the account, region by region, leaving out
      `SkippedRegion` without querying it. */
  function DbSites(cloud: RdsCloud, account: string): (sites: seq<Located<DbInstance>>)
    ensures forall i :: 0 <= i < |sites| ==>
      sites[i].region != SkippedRegion && sites[i].item in cloud.instances(account)(sites[i].region)
  {
    RegionSweep(cloud.regions(account), cloud.instances(account))
  }

  /** `rds_multiAZ` for one account: the header once, then the rows. No
      exception of its own escapes it. */
  function AccountPass(cloud: RdsCloud, account: string): (p: Pass<RdsReport>)
    ensures !p.escaped
    ensures p.output.file == AccountFile(account, RdsSuffix) && p.output.header == RdsHeader
  {
    Pass(RdsReport(AccountFile(account, RdsSuffix), RdsHeader, MultiAzRows(DbSites(cloud, account))), false)
  }

  /** What the skipped region would list has no influence on the report. */
  lemma AccountPassIgnoresSkipped(c1: RdsCloud, c2: RdsCloud, account: string)
    requires c1.regions(account) == c2.regions(account)
    requires forall r :: r != SkippedRegion ==> c1.instances(account)(r) == c2.instances(account)(r)
    ensures AccountPass(c1, account) == AccountPass(c2, account)
  {
    RegionSweepIgnoresSkipped(c1.regions(account), c1.instances(account), c2.instances(account));
  }

  /** A Multi-AZ instance listed in a region other than `SkippedRegion` is
      reported. */
  lemma AccountPassReports(cloud: RdsCloud, account: string, region: string, db: DbInstance)
    requires region in cloud.regions(account) && region != SkippedRegion
    requires db in cloud.instances(account)(region)
    ensures db.multiAz ==> RdsRow(db.identifier, true) in AccountPass(cloud, account).output.rows
  {
    var site := Located(region, db);
    assert site in DbSites(cloud, account);
    KeptReported(DbSites(cloud, account), site);
  }

  /** Only Multi-AZ instances are reported, each from a region other than
      `SkippedRegion`, with status `True`. */
  lemma AccountPassOnlyMultiAz(cloud: RdsCloud, account: string, row: RdsRow)
    requires row in AccountPass(cloud, account).output.rows
    ensures row.multiAz
    ensures exists region ::
      region != SkippedRegion && DbInstance(row.identifier, true) in cloud.instances(account)(region)
  {
    var site :| site in DbSites(cloud, account) && site.item == DbInstance(row.identifier, true);
    var i :| 0 <= i < |DbSites(cloud, account)| && DbSites(cloud, account)[i] == site;
  }

  /** A Multi-AZ instance among the listed ones gets a row. */
  lemma {:induction false} KeptReported(sites: seq<Located<DbInstance>>, site: Located<DbInstance>)
    requires site in sites
    ensures site.item.multiAz ==> RdsRow(site.item.identifier, true) in MultiAzRows(sites)
  {
    if sites[0] != site {
      assert site in sites[1..];
      KeptReported(sites[1..], site);
    }
  }

  /** `main`: the account list, then each account's report. */
  function RdsRun(accountCsv: seq<seq<string>>, cloud: RdsCloud): (s: Sweep<RdsReport>)
    ensures ReadCsv(accountCsv).None? ==> s.outputs == [] && s.aborted
    ensures ReadCsv(accountCsv).Some? ==>
      var accounts := ReadCsv(accountCsv).value;
      && !s.aborted && |s.outputs| == |accounts|
      && forall i :: 0 <= i < |s.outputs| ==> s.outputs[i] == AccountPass(cloud, accounts[i]).output
  {
    var body := Passes(cloud);
    assert forall a :: body(a) == AccountPass(cloud, a);
    RunAccounts(accountCsv, body)
  }

  /** The account loop's body: one pass per account. */
  function Passes(cloud: RdsCloud): (body: string -> Pass<RdsReport>)
    ensures forall a :: body(a) == AccountPass(cloud, a)
  {
    a => AccountPass(cloud, a)
  }
}
