/** `old_aws_ami_backups.py`: in every account, deregister the old images
    made by hand as backups, delete their EBS snapshots, and report one row
    per snapshot. Images the backup service made are left alone. */
module OldAmiBackups {
  import opened Outcomes
  import opened Text
  import opened Accounts
  import opened Ec2
  import opened Scans

  const OldSuffix := "_manual_amibackups_May7.csv"
  const DaysChecked := 90
  /** Names holding this word are the backup service's images. */
  const ServiceWord := "awsbackup"
  /** Names holding this word are backups. */
  const Keyword := "Backup"

  const OldHeader: seq<string> := [
    "Name", "ImageID", "ImageLocation", "CreationDate", "Region", "OwnerID",
    "SnapshotID", "AMIRegisterStatus", "SSDeletionStatus"]

  /** A mutating call the script makes. */
  datatype Action = Deregister(imageId: string) | DeleteSnapshot(snapshotId: string)

  /** The tests `ami_backups` applies before asking whether the image is in
      use, in the script's order: a service image is passed over before the
      keyword is looked at; then the keyword (ignoring case) and an age of
      strictly more than `DaysChecked` days. */
  predicate Candidate(img: Image)
  {
    !ContainsIgnoringCase(img.name, ServiceWord)
    && ContainsIgnoringCase(img.name, Keyword) && img.ageDays > DaysChecked
  }

  /** The exclusion is not redundant: every service image's name also holds
      the keyword, so without it these images would be candidates too. */
  lemma ServiceImagesMatchKeyword(name: string)
    ensures ContainsIgnoringCase(name, ServiceWord) ==> ContainsIgnoringCase(name, Keyword)
  {
    assert Lower(Keyword) == "backup";
    assert Lower(ServiceWord) == ServiceWord;
    assert OccursAt(ServiceWord, "backup", 3);
    if ContainsIgnoringCase(name, ServiceWord) {
      ContainsTransitive(Lower(name), ServiceWord, "backup");
    }
  }

  /** A report row: the image's fields, the region, one EBS snapshot, whether
      `deregister_ami` and `delete_ami_snapshots` returned `True`. */
  datatype OldRow = OldRow(
    name: string, imageId: string, location: string, creationDate: string, region: string,
    ownerId: string, snapshotId: string, deregistered: bool, deleted: bool)

  /** The calls made for an image the script acts on: one deregistration,
      then one deletion per mapping with an `Ebs` entry, in mapping order,
      whatever the deregistration's outcome. */
  function ImageCalls(img: Image): (calls: seq<Action>)
    ensures |calls| == 1 + |EbsEntries(img.mappings)|
    ensures calls[0] == Deregister(img.imageId)
    ensures forall k :: 1 <= k < |calls| ==> calls[k] == DeleteSnapshot(EbsEntries(img.mappings)[k - 1].snapshotId)
  {
    var es := EbsEntries(img.mappings);
    [Deregister(img.imageId)] + seq(|es|, i requires 0 <= i < |es| => DeleteSnapshot(es[i].snapshotId))
  }

  /** The rows of an image the script acts on: one per mapping with an `Ebs`
      entry, each carrying the image's single deregistration status and that
      snapshot's own deletion status. */
  function ImageRows(site: Located<Image>, ec2: Ec2Region): (rows: seq<OldRow>)
    ensures |rows| == |EbsEntries(site.item.mappings)|
    ensures forall i :: 0 <= i < |rows| ==> rows[i].snapshotId == EbsEntries(site.item.mappings)[i].snapshotId
    ensures forall row :: row in rows ==>
      && row.name == site.item.name && row.imageId == site.item.imageId
      && row.location == site.item.location && row.creationDate == site.item.creationDate
      && row.region == site.region && row.ownerId == site.item.ownerId
      && row.deregistered == ec2.deregisterOk(site.item.imageId)
      && row.deleted == ec2.deleteSnapshotOk(row.snapshotId)
  {
    var img := site.item;
    var es := EbsEntries(img.mappings);
    var ok := ec2.deregisterOk(img.imageId);
    seq(|es|, i requires 0 <= i < |es| =>
      OldRow(img.name, img.imageId, img.location, img.creationDate, site.region, img.ownerId,
             es[i].snapshotId, ok, ec2.deleteSnapshotOk(es[i].snapshotId)))
  }

  /** The body of the image loop for one image: a candidate is checked for
      use (an `IndexError` there escapes the script's handlers); a candidate
      not in use is deregistered, then its snapshots deleted and reported. */
  function VisitImage(site: Located<Image>, ec2: Ec2Region): (s: Step<OldRow, Action>)
    ensures s.escaped <==> Candidate(site.item) && InUse(ec2.reservations, site.item.imageId) == Raised
    ensures s.calls != [] <==> Candidate(site.item) && InUse(ec2.reservations, site.item.imageId) == Returned(false)
    ensures s.rows != [] ==> s.calls != []
  {
    var img := site.item;
    if !Candidate(img) then Step([], [], false)
    else match InUse(ec2.reservations, img.imageId)
      case Raised => Step([], [], true)
      case Returned(used) =>
        if used then Step([], [], false)
        else Step(ImageRows(site, ec2), ImageCalls(img), false)
  }

  function ImageVisits(cloud: Ec2Cloud, account: string): (steps: seq<Step<OldRow, Action>>)
    ensures |steps| == |ImageSites(cloud, account)|
    ensures forall i :: 0 <= i < |steps| ==>
      steps[i] == VisitImage(ImageSites(cloud, account)[i],
                             cloud.region(account, ImageSites(cloud, account)[i].region))
  {
    var sites := ImageSites(cloud, account);
    seq(|sites|, i requires 0 <= i < |sites| => VisitImage(sites[i], cloud.region(account, sites[i].region)))
  }

  /** `ami_backups` for one account: the header, then the image loop over
      every region but `SkippedRegion`. */
  function AccountPass(cloud: Ec2Cloud, account: string): (p: Pass<Report<OldRow, Action>>)
    ensures p.output.file == AccountFile(account, OldSuffix) && p.output.header == OldHeader
  {
    var s := Scan(ImageVisits(cloud, account));
    Pass(Report(AccountFile(account, OldSuffix), OldHeader, s.rows, s.calls), s.escaped)
  }

  /** Image `site` of the account is one the script acts on: a candidate,
      checked and found not in use. */
  predicate Acted(cloud: Ec2Cloud, account: string, site: Located<Image>)
  {
    && site.region != SkippedRegion
    && Candidate(site.item)
    && InUse(cloud.region(account, site.region).reservations, site.item.imageId) == Returned(false)
  }

  /** One of the image's mappings has an `Ebs` entry for the snapshot. */
  predicate HasSnapshot(img: Image, snapshotId: string)
  {
    exists m :: m in img.mappings && m.ebs.Some? && m.ebs.value.snapshotId == snapshotId
  }

  /** The call is one the script makes for the image. */
  predicate CallFor(site: Located<Image>, a: Action)
  {
    match a
    case Deregister(id) => id == site.item.imageId
    case DeleteSnapshot(s) => HasSnapshot(site.item, s)
  }

  /** The facts a written row carries about the image it came from. */
  predicate RowOf(cloud: Ec2Cloud, account: string, site: Located<Image>, row: OldRow)
  {
    && Acted(cloud, account, site)
    && row.imageId == site.item.imageId && row.region == site.region
    && HasSnapshot(site.item, row.snapshotId)
    && row.deregistered == cloud.region(account, site.region).deregisterOk(site.item.imageId)
    && row.deleted == cloud.region(account, site.region).deleteSnapshotOk(row.snapshotId)
  }

  /** What one image's visit writes and calls concerns that image only,
      and only if the script acts on it. */
  lemma VisitImageSound(site: Located<Image>, ec2: Ec2Region, row: OldRow, a: Action)
    ensures row in VisitImage(site, ec2).rows ==>
      && Candidate(site.item) && InUse(ec2.reservations, site.item.imageId) == Returned(false)
      && row.imageId == site.item.imageId && row.region == site.region
      && HasSnapshot(site.item, row.snapshotId)
      && row.deregistered == ec2.deregisterOk(site.item.imageId)
      && row.deleted == ec2.deleteSnapshotOk(row.snapshotId)
    ensures a in VisitImage(site, ec2).calls ==>
      && Candidate(site.item) && InUse(ec2.reservations, site.item.imageId) == Returned(false)
      && CallFor(site, a)
  {
    var s := VisitImage(site, ec2);
    var es := EbsEntries(site.item.mappings);
    if row in s.rows {
      var j :| 0 <= j < |s.rows| && s.rows[j] == row;
      assert es[j] in es;
      assert Mapping(Some(es[j])) in site.item.mappings;
    }
    if a in s.calls {
      var k :| 0 <= k < |s.calls| && s.calls[k] == a;
      if k > 0 {
        assert es[k - 1] in es;
        assert Mapping(Some(es[k - 1])) in site.item.mappings;
      }
    }
  }

  /** Every row of an account's report is an EBS snapshot of an image the
      script acts on, with that image's deregistration status and the
      snapshot's own deletion status; so no service image is ever
      reported. */
  lemma AccountPassRowsSound(cloud: Ec2Cloud, account: string, row: OldRow)
    ensures row in AccountPass(cloud, account).output.rows ==>
      exists site :: site in ImageSites(cloud, account) && RowOf(cloud, account, site, row)
  {
    var sites := ImageSites(cloud, account);
    var steps := ImageVisits(cloud, account);
    ScanMember(steps, row, Deregister(""));
    if row in AccountPass(cloud, account).output.rows {
      var i :| 0 <= i < |steps| && row in steps[i].rows;
      VisitImageSound(sites[i], cloud.region(account, sites[i].region), row, Deregister(""));
      assert RowOf(cloud, account, sites[i], row);
    }
  }

  /** Every call the script makes deregisters an image it acts on or
      deletes one of that image's snapshots; so no service image is ever
      deregistered or has its snapshots deleted. */
  lemma AccountPassCallsSound(cloud: Ec2Cloud, account: string, a: Action)
    ensures a in AccountPass(cloud, account).output.calls ==>
      exists site :: site in ImageSites(cloud, account) && Acted(cloud, account, site) && CallFor(site, a)
  {
    var sites := ImageSites(cloud, account);
    var steps := ImageVisits(cloud, account);
    var dummy := OldRow("", "", "", "", "", "", "", false, false);
    ScanMember(steps, dummy, a);
    if a in AccountPass(cloud, account).output.calls {
      var i :| 0 <= i < |steps| && a in steps[i].calls;
      VisitImageSound(sites[i], cloud.region(account, sites[i].region), dummy, a);
      assert Acted(cloud, account, sites[i]);
    }
  }

  /** The service images are never acted on. */
  lemma ServiceImagesSpared(cloud: Ec2Cloud, account: string, site: Located<Image>)
    requires ContainsIgnoringCase(site.item.name, ServiceWord)
    ensures !Acted(cloud, account, site)
    ensures VisitImage(site, cloud.region(account, site.region)) == Step([], [], false)
  {
  }

  /** When the pass is not abandoned, every image the script acts on is
      deregistered and each of its EBS snapshots deleted and reported. */
  lemma AccountPassComplete(cloud: Ec2Cloud, account: string, site: Located<Image>, e: Ebs)
    requires !AccountPass(cloud, account).escaped
    requires site in ImageSites(cloud, account) && Acted(cloud, account, site)
    ensures Deregister(site.item.imageId) in AccountPass(cloud, account).output.calls
    ensures Mapping(Some(e)) in site.item.mappings ==>
      && DeleteSnapshot(e.snapshotId) in AccountPass(cloud, account).output.calls
      && exists row :: row in AccountPass(cloud, account).output.rows &&
           row.imageId == site.item.imageId && row.snapshotId == e.snapshotId
  {
    var sites := ImageSites(cloud, account);
    var steps := ImageVisits(cloud, account);
    ScanPrefix(steps);
    var i :| 0 <= i < |sites| && sites[i] == site;
    var calls := steps[i].calls;
    assert calls[0] == Deregister(site.item.imageId);
    var dummy := OldRow("", "", "", "", "", "", "", false, false);
    WrittenMember(steps, dummy, Deregister(site.item.imageId));
    if Mapping(Some(e)) in site.item.mappings {
      var es := EbsEntries(site.item.mappings);
      var j :| 0 <= j < |es| && es[j] == e;
      assert calls[j + 1] == DeleteSnapshot(e.snapshotId);
      var row := steps[i].rows[j];
      WrittenMember(steps, row, DeleteSnapshot(e.snapshotId));
      assert row in steps[i].rows;
    }
  }

  /** The pass over an account is abandoned exactly when checking some
      candidate image for use raises. */
  lemma AccountPassEscapes(cloud: Ec2Cloud, account: string)
    ensures AccountPass(cloud, account).escaped <==>
      exists i :: 0 <= i < |ImageSites(cloud, account)| &&
        var site := ImageSites(cloud, account)[i];
        Candidate(site.item) && InUse(cloud.region(account, site.region).reservations, site.item.imageId) == Raised
  {
  }

  /** `main`: the account list, then each account's pass; an exception that
      escapes a pass ends the run. */
  function OldRun(accountCsv: seq<seq<string>>, cloud: Ec2Cloud): (s: Sweep<Report<OldRow, Action>>)
    ensures ReadCsv(accountCsv).None? ==> s.outputs == [] && s.aborted
    ensures ReadCsv(accountCsv).Some? ==>
      var accounts := ReadCsv(accountCsv).value;
      && |s.outputs| <= |accounts|
      && (forall i :: 0 <= i < |s.outputs| ==> s.outputs[i] == AccountPass(cloud, accounts[i]).output)
      && (!s.aborted ==> |s.outputs| == |accounts|)
      && (s.aborted <==> exists i :: 0 <= i < |accounts| && AccountPass(cloud, accounts[i]).escaped)
  {
    var body := Passes(cloud);
    assert forall a :: body(a) == AccountPass(cloud, a);
    RunAccounts(accountCsv, body)
  }

  /** The account loop's body: one pass per account. */
  function Passes(cloud: Ec2Cloud): (body: string -> Pass<Report<OldRow, Action>>)
    ensures forall a :: body(a) == AccountPass(cloud, a)
  {
    a => AccountPass(cloud, a)
  }
}
