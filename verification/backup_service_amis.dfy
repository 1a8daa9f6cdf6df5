/** `delete_BackUpService_AMIs.py`: in every account, list the old images
    the backup service created, look up the recovery point each came from,
    and report one row per EBS snapshot of each such image. The recovery
    point is only looked up: its deletion is commented out in the script, so
    a run deletes nothing. */
module BackupServiceAmis {
  import opened Outcomes
  import opened Text
  import opened Accounts
  import opened Ec2
  import opened Scans

  const BackupSuffix := "_test_amibackups_May3.csv"
  const DaysChecked := 180
  const Keyword := "AwsBackup"
  /** The one image the script passes over by ID. */
  const SkippedImage := "ami-0af8f6b15e751fa6d"
  /** The storage price of a GiB of volume, in cents. */
  const VolumeCostCents := 5

  const BackupHeader: seq<string> := [
    "Name", "ImageID", "ImageLocation", "CreationDate", "Region", "OwnerID",
    "SnapshotID", "Volume Size", "Cost Savings", "RPDeletionStatus"]

  /** What `delete_repoint` returns: `True` when it finds the recovery
      point, nothing (`None`) when no vault lists one, `False` when a call
      raised. */
  datatype RpStatus = RpDeleted | RpNotFound | RpError

  /** The status as the CSV writer writes it; `None` becomes an empty cell. */
  function RpText(s: RpStatus): string
  {
    match s
    case RpDeleted => "True"
    case RpNotFound => ""
    case RpError => "False"
  }

  /** A backup vault and the ARNs of its EC2 recovery points, as
      `list_recovery_points_by_backup_vault` returns them (or `Raised`). */
  datatype Vault = Vault(name: string, recoveryPoints: Call<seq<string>>)

  /** Some recovery-point ARN names the image. */
  predicate Names(arns: seq<string>, imageId: string)
  {
    exists j :: 0 <= j < |arns| && Contains(arns[j], imageId)
  }

  /** The vault's listing returned and names the image. */
  predicate Holds(v: Vault, imageId: string)
  {
    v.recoveryPoints.Returned? && Names(v.recoveryPoints.value, imageId)
  }

  /** The vault's listing returned and does not name the image. */
  predicate Lacks(v: Vault, imageId: string)
  {
    v.recoveryPoints.Returned? && !Names(v.recoveryPoints.value, imageId)
  }

  /** Every vault before `k` was listed and does not name the image. */
  predicate LacksBefore(vaults: seq<Vault>, k: nat, imageId: string)
    requires k <= |vaults|
  {
    forall i :: 0 <= i < k ==> Lacks(vaults[i], imageId)
  }

  /** The vault loop of `delete_repoint`: vaults in listed order, stopping at
      the first whose recovery points name the image or whose listing
      raises. */
  function SearchVaults(vaults: seq<Vault>, imageId: string): RpStatus
  {
    if |vaults| == 0 then RpNotFound
    else match vaults[0].recoveryPoints
      case Raised => RpError
      case Returned(arns) =>
        if Names(arns, imageId) then RpDeleted else SearchVaults(vaults[1..], imageId)
  }

  /** The vault loop finds the recovery point exactly when some vault names
      the image and every vault before it was listed without naming it;
      finds nothing exactly when every vault was listed without naming it;
      and fails exactly when a listing raises before any vault names it. */
  lemma {:induction false} SearchVaultsSpec(vaults: seq<Vault>, imageId: string)
    ensures SearchVaults(vaults, imageId) == RpDeleted <==>
      exists k :: 0 <= k < |vaults| && Holds(vaults[k], imageId) && LacksBefore(vaults, k, imageId)
    ensures SearchVaults(vaults, imageId) == RpNotFound <==> LacksBefore(vaults, |vaults|, imageId)
    ensures SearchVaults(vaults, imageId) == RpError <==>
      exists k :: 0 <= k < |vaults| && vaults[k].recoveryPoints.Raised? && LacksBefore(vaults, k, imageId)
  {
    if |vaults| > 0 {
      var rest := vaults[1..];
      SearchVaultsSpec(rest, imageId);
      assert LacksBefore(vaults, 0, imageId);
      if Lacks(vaults[0], imageId) {
        forall k | 0 < k <= |vaults|
          ensures LacksBefore(vaults, k, imageId) <==> LacksBefore(rest, k - 1, imageId)
        {
          LacksBeforeTail(vaults, k, imageId);
        }
        if SearchVaults(vaults, imageId) == RpDeleted {
          var k :| 0 <= k < |rest| && Holds(rest[k], imageId) && LacksBefore(rest, k, imageId);
          assert vaults[k + 1] == rest[k];
        }
        if SearchVaults(vaults, imageId) == RpError {
          var k :| 0 <= k < |rest| && rest[k].recoveryPoints.Raised? && LacksBefore(rest, k, imageId);
          assert vaults[k + 1] == rest[k];
        }
        if k :| 0 < k < |vaults| && Holds(vaults[k], imageId) && LacksBefore(vaults, k, imageId) {
          assert rest[k - 1] == vaults[k];
        }
        if k :| 0 < k < |vaults| && vaults[k].recoveryPoints.Raised? && LacksBefore(vaults, k, imageId) {
          assert rest[k - 1] == vaults[k];
        }
      } else {
        assert forall k :: 0 < k <= |vaults| ==> !LacksBefore(vaults, k, imageId);
      }
    }
  }

  /** Past a first vault that lacks the image, the vaults before `k` lack it
      exactly when the remaining ones before `k - 1` do. */
  lemma LacksBeforeTail(vaults: seq<Vault>, k: nat, imageId: string)
    requires 0 < k <= |vaults| && Lacks(vaults[0], imageId)
    ensures LacksBefore(vaults, k, imageId) <==> LacksBefore(vaults[1..], k - 1, imageId)
  {
    var rest := vaults[1..];
    if LacksBefore(rest, k - 1, imageId) {
      forall i | 1 <= i < k ensures Lacks(vaults[i], imageId) {
        assert vaults[i] == rest[i - 1];
      }
    }
    if LacksBefore(vaults, k, imageId) {
      forall i | 0 <= i < k - 1 ensures Lacks(rest[i], imageId) {
        assert rest[i] == vaults[i + 1];
      }
    }
  }

  /** `delete_repoint`: listing the vaults may itself raise, which gives
      `False` like any later failure. */
  function DeleteRepoint(vaults: Call<seq<Vault>>, imageId: string): (s: RpStatus)
    ensures vaults.Raised? ==> s == RpError
    ensures s == RpNotFound <==> vaults.Returned? && LacksBefore(vaults.value, |vaults.value|, imageId)
    ensures s == RpDeleted <==> (
      && vaults.Returned?
      && exists k :: 0 <= k < |vaults.value| && Holds(vaults.value[k], imageId) && LacksBefore(vaults.value, k, imageId))
  {
    match vaults
    case Raised => RpError
    case Returned(vs) => SearchVaultsSpec(vs, imageId); SearchVaults(vs, imageId)
  }

  /** The tests `ami_backups` applies before asking whether the image is in
      use: not the skipped ID, the keyword in its name (ignoring case), and
      strictly older than `DaysChecked` days. */
  predicate Candidate(img: Image)
  {
    img.imageId != SkippedImage && ContainsIgnoringCase(img.name, Keyword) && img.ageDays > DaysChecked
  }

  /** A report row: the image's fields, the region, one EBS snapshot with
      its volume size and the storage cost it stands for, and the image's
      recovery-point status. */
  datatype BackupRow = BackupRow(
    name: string, imageId: string, location: string, creationDate: string, region: string,
    ownerId: string, snapshotId: string, volumeSize: int, costCents: int, rp: RpStatus)

  /** The rows of one image: one per mapping with an `Ebs` entry, in mapping
      order, each carrying the same recovery-point status. */
  function ImageRows(site: Located<Image>, rp: RpStatus): (rows: seq<BackupRow>)
    ensures |rows| == |EbsEntries(site.item.mappings)|
    ensures forall i :: 0 <= i < |rows| ==>
      && rows[i].snapshotId == EbsEntries(site.item.mappings)[i].snapshotId
      && rows[i].volumeSize == EbsEntries(site.item.mappings)[i].volumeSize
    ensures forall row :: row in rows ==>
      && row.name == site.item.name && row.imageId == site.item.imageId
      && row.location == site.item.location && row.creationDate == site.item.creationDate
      && row.region == site.region && row.ownerId == site.item.ownerId
      && row.costCents == row.volumeSize * VolumeCostCents && row.rp == rp
  {
    var img := site.item;
    var es := EbsEntries(img.mappings);
    seq(|es|, i requires 0 <= i < |es| =>
      BackupRow(img.name, img.imageId, img.location, img.creationDate, site.region, img.ownerId,
                es[i].snapshotId, es[i].volumeSize, es[i].volumeSize * VolumeCostCents, rp))
  }

  /** The body of the image loop for one image: a candidate is checked for
      use (an `IndexError` there escapes the script's handlers); a candidate
      not in use has its recovery point looked up once and its rows written.
      The calls recorded are the images looked up. */
  function VisitImage(site: Located<Image>, ec2: Ec2Region, vaults: Call<seq<Vault>>)
    : (s: Step<BackupRow, string>)
    ensures s.escaped <==> Candidate(site.item) && InUse(ec2.reservations, site.item.imageId) == Raised
    ensures s.calls == if Candidate(site.item) && InUse(ec2.reservations, site.item.imageId) == Returned(false)
      then [site.item.imageId] else []
    ensures s.rows != [] ==> Candidate(site.item) && InUse(ec2.reservations, site.item.imageId) == Returned(false)
  {
    var img := site.item;
    if !Candidate(img) then Step([], [], false)
    else match InUse(ec2.reservations, img.imageId)
      case Raised => Step([], [], true)
      case Returned(used) =>
        if used then Step([], [], false)
        else Step(ImageRows(site, DeleteRepoint(vaults, img.imageId)), [img.imageId], false)
  }

  /** EC2 and the backup service in every account: `vaults(account, region)`
      is what `list_backup_vaults` returns there, with each vault's recovery
      points. */
  datatype BackupCloud = BackupCloud(ec2: Ec2Cloud, vaults: (string, string) -> Call<seq<Vault>>)

  function ImageVisits(cloud: BackupCloud, account: string): (steps: seq<Step<BackupRow, string>>)
    ensures |steps| == |ImageSites(cloud.ec2, account)|
    ensures forall i :: 0 <= i < |steps| ==>
      var site := ImageSites(cloud.ec2, account)[i];
      steps[i] == VisitImage(site, cloud.ec2.region(account, site.region), cloud.vaults(account, site.region))
  {
    var sites := ImageSites(cloud.ec2, account);
    seq(|sites|, i requires 0 <= i < |sites| =>
      VisitImage(sites[i], cloud.ec2.region(account, sites[i].region), cloud.vaults(account, sites[i].region)))
  }

  /** `ami_backups` for one account: the header, then the image loop over
      every region but `SkippedRegion`. */
  function AccountPass(cloud: BackupCloud, account: string): (p: Pass<Report<BackupRow, string>>)
    ensures p.output.file == AccountFile(account, BackupSuffix) && p.output.header == BackupHeader
  {
    var s := Scan(ImageVisits(cloud, account));
    Pass(Report(AccountFile(account, BackupSuffix), BackupHeader, s.rows, s.calls), s.escaped)
  }

  /** Image `site` of the account is one the script reports on: a
      candidate, checked and found not in use. */
  predicate Reported(cloud: BackupCloud, account: string, site: Located<Image>)
  {
    && site.region != SkippedRegion
    && Candidate(site.item)
    && InUse(cloud.ec2.region(account, site.region).reservations, site.item.imageId) == Returned(false)
  }

  /** The facts a written row carries about the image it came from. */
  predicate RowOf(cloud: BackupCloud, account: string, site: Located<Image>, row: BackupRow)
  {
    && Reported(cloud, account, site)
    && row.imageId == site.item.imageId && row.region == site.region
    && Mapping(Some(Ebs(row.snapshotId, row.volumeSize))) in site.item.mappings
    && row.costCents == row.volumeSize * VolumeCostCents
    && row.rp == DeleteRepoint(cloud.vaults(account, site.region), site.item.imageId)
  }

  /** A row one image's visit writes is one EBS snapshot of that image, and
      only a candidate not in use gets rows. */
  lemma VisitImageSound(site: Located<Image>, ec2: Ec2Region, vaults: Call<seq<Vault>>, row: BackupRow)
    requires row in VisitImage(site, ec2, vaults).rows
    ensures Candidate(site.item) && InUse(ec2.reservations, site.item.imageId) == Returned(false)
    ensures row.imageId == site.item.imageId && row.region == site.region
    ensures Mapping(Some(Ebs(row.snapshotId, row.volumeSize))) in site.item.mappings
    ensures row.costCents == row.volumeSize * VolumeCostCents
    ensures row.rp == DeleteRepoint(vaults, site.item.imageId)
  {
    var rows := VisitImage(site, ec2, vaults).rows;
    var es := EbsEntries(site.item.mappings);
    var j :| 0 <= j < |rows| && rows[j] == row;
    assert es[j] in es;
  }

  /** Every row of an account's report is one EBS snapshot of a candidate
      image not in use, outside `SkippedRegion`, priced at 5 cents per GiB
      and carrying that image's recovery-point status. */
  lemma AccountPassRowsSound(cloud: BackupCloud, account: string, row: BackupRow)
    requires row in AccountPass(cloud, account).output.rows
    ensures exists site :: site in ImageSites(cloud.ec2, account) && RowOf(cloud, account, site, row)
  {
    var sites := ImageSites(cloud.ec2, account);
    var steps := ImageVisits(cloud, account);
    ScanMember(steps, row, "");
    var i :| 0 <= i < |steps| && row in steps[i].rows;
    var site := sites[i];
    VisitImageSound(site, cloud.ec2.region(account, site.region), cloud.vaults(account, site.region), row);
    assert RowOf(cloud, account, site, row);
  }

  /** A recovery point is looked up only for a candidate image not in use,
      outside `SkippedRegion`. */
  lemma AccountPassLookupsSound(cloud: BackupCloud, account: string, imageId: string)
    requires imageId in AccountPass(cloud, account).output.calls
    ensures exists site ::
      site in ImageSites(cloud.ec2, account) && site.item.imageId == imageId && Reported(cloud, account, site)
  {
    var sites := ImageSites(cloud.ec2, account);
    var steps := ImageVisits(cloud, account);
    assert AccountPass(cloud, account).output.calls == Scan(steps).calls;
    ScanMember(steps, BackupRow("", "", "", "", "", "", "", 0, 0, RpError), imageId);
    var i :| 0 <= i < |steps| && imageId in steps[i].calls;
    LookupReported(cloud, account, i, imageId);
    assert sites[i] in sites;
  }

  lemma LookupReported(cloud: BackupCloud, account: string, i: nat, imageId: string)
    requires i < |ImageVisits(cloud, account)| && imageId in ImageVisits(cloud, account)[i].calls
    ensures var site := ImageSites(cloud.ec2, account)[i];
      site.item.imageId == imageId && Reported(cloud, account, site)
  {
  }

  /** The pass over an account is abandoned exactly when checking some
      candidate image for use raises. */
  lemma AccountPassEscapes(cloud: BackupCloud, account: string)
    ensures AccountPass(cloud, account).escaped <==>
      exists i :: 0 <= i < |ImageSites(cloud.ec2, account)| &&
        var site := ImageSites(cloud.ec2, account)[i];
        Candidate(site.item) && InUse(cloud.ec2.region(account, site.region).reservations, site.item.imageId) == Raised
  {
  }

  /** When the pass is not abandoned, every EBS snapshot of every image the
      script reports on gets a row, and that image's recovery point is
      looked up. */
  lemma AccountPassComplete(cloud: BackupCloud, account: string, site: Located<Image>, e: Ebs)
    requires !AccountPass(cloud, account).escaped
    requires site in ImageSites(cloud.ec2, account) && Reported(cloud, account, site)
    ensures site.item.imageId in AccountPass(cloud, account).output.calls
    ensures Mapping(Some(e)) in site.item.mappings ==>
      exists row :: row in AccountPass(cloud, account).output.rows &&
        row.imageId == site.item.imageId && row.region == site.region && row.snapshotId == e.snapshotId
  {
    var sites := ImageSites(cloud.ec2, account);
    var steps := ImageVisits(cloud, account);
    ScanPrefix(steps);
    var i :| 0 <= i < |sites| && sites[i] == site;
    WrittenMember(steps, BackupRow("", "", "", "", "", "", "", 0, 0, RpError), site.item.imageId);
    assert site.item.imageId in steps[i].calls;
    if Mapping(Some(e)) in site.item.mappings {
      var es := EbsEntries(site.item.mappings);
      var j :| 0 <= j < |es| && es[j] == e;
      var row := steps[i].rows[j];
      WrittenMember(steps, row, site.item.imageId);
      assert row in steps[i].rows;
    }
  }

  /** `main`: the account list, then each account's pass; an exception that
      escapes a pass ends the run. */
  function BackupRun(accountCsv: seq<seq<string>>, cloud: BackupCloud): (s: Sweep<Report<BackupRow, string>>)
    ensures ReadCsv(accountCsv).None? ==> s.outputs == [] && s.aborted
    ensures ReadCsv(accountCsv).Some? ==>
      var accounts := ReadCsv(accountCsv).value;
      && |s.outputs| <= |accounts|
      && (forall i :: 0 <= i < |s.outputs| ==> s.outputs[i] == AccountPass(cloud, accounts[i]).output)
      && (!s.aborted ==> |s.outputs| == |accounts|)
      && (s.aborted <==> exists i :: 0 <= i < |accounts| && AccountPass(cloud, accounts[i]).escaped)
  {
    var body := Passes(cloud);
    assert forall a :: body(a) == AccountPass(cloud, a);
    RunAccounts(accountCsv, body)
  }

  /** The account loop's body: one pass per account. */
  function Passes(cloud: BackupCloud): (body: string -> Pass<Report<BackupRow, string>>)
    ensures forall a :: body(a) == AccountPass(cloud, a)
  {
    a => AccountPass(cloud, a)
  }
}
