/** What the scripts read from EC2, given as data: the reservations and
    images `describe_instances` and `describe_images` return, and the
    outcome of each mutating call. The cloud does not change while a run
    reads it. */
module Ec2 {
  import opened Outcomes
  import opened Seqs
  import opened Accounts

  datatype Instance = Instance(imageId: string)

  /** A reservation as `describe_instances` lists it; the scripts look at
      its first instance only. */
  datatype Reservation = Reservation(instances: seq<Instance>)

  /** The `Ebs` entry of a block-device mapping. */
  datatype Ebs = Ebs(snapshotId: string, volumeSize: int)

  /** A block-device mapping; `None` when it has no (or an empty) `Ebs` entry. */
  datatype Mapping = Mapping(ebs: Option<Ebs>)

  /** An image as `describe_images(Owners=['self'])` lists it. `ageDays` is
      the whole number of days between its `CreationDate` and the time of
      the run. */
  datatype Image = Image(
    name: string, imageId: string, location: string, creationDate: string,
    ownerId: string, ageDays: int, mappings: seq<Mapping>)

  /** One region of one account as the scripts see it.
      `imageState(ami)`: the `State` of the image `describe_images(ImageIds=[ami])`
      returns (`"Unknown"` when the field is missing), `Raised` when the call
      fails or lists no image. `deregisterOk` and `deleteSnapshotOk`: whether
      `deregister_image` and `delete_snapshot` return without raising. */
  datatype Ec2Region = Ec2Region(
    reservations: seq<Reservation>,
    ownImages: seq<Image>,
    imageState: string -> Call<string>,
    deregisterOk: string -> bool,
    deleteSnapshotOk: string -> bool)

  /** Reservation `i` launched `imageId` as its first instance. */
  predicate LaunchedFirst(reservations: seq<Reservation>, i: nat, imageId: string)
    requires i < |reservations|
  {
    |reservations[i].instances| > 0 && reservations[i].instances[0].imageId == imageId
  }

  /** `ami_inUse`: walks the reservations in order and looks at the first
      instance of each; `Raised` stands for the `IndexError` of a reservation
      with no instances, reached before any match. */
  function InUse(reservations: seq<Reservation>, imageId: string): (r: Call<bool>)
    ensures r == Returned(true) ==>
      exists i :: 0 <= i < |reservations| && LaunchedFirst(reservations, i, imageId)
    ensures r == Returned(false) ==>
      forall i :: 0 <= i < |reservations| ==>
        |reservations[i].instances| > 0 && !LaunchedFirst(reservations, i, imageId)
    ensures r == Raised ==>
      exists i :: 0 <= i < |reservations| && |reservations[i].instances| == 0
  {
    if |reservations| == 0 then Returned(false)
    else if |reservations[0].instances| == 0 then Raised
    else if reservations[0].instances[0].imageId == imageId then
      assert LaunchedFirst(reservations, 0, imageId);
      Returned(true)
    else
      var r := InUse(reservations[1..], imageId);
      assert forall i :: 1 <= i < |reservations| ==>
        reservations[1..][i - 1] == reservations[i];
      assert forall i :: 0 <= i < |reservations| - 1 ==>
        LaunchedFirst(reservations[1..], i, imageId) == LaunchedFirst(reservations, i + 1, imageId);
      r
  }

  /** When every reservation lists an instance, `ami_inUse` answers whether
      some reservation's first instance was launched from the image. */
  lemma InUseAnswers(reservations: seq<Reservation>, imageId: string)
    requires forall i :: 0 <= i < |reservations| ==> |reservations[i].instances| > 0
    ensures InUse(reservations, imageId) ==
      Returned(exists i :: 0 <= i < |reservations| && LaunchedFirst(reservations, i, imageId))
  {
  }

  /** No reservation before `k` launched `imageId` as its first instance. */
  predicate NoLaunchBefore(reservations: seq<Reservation>, k: nat, imageId: string)
    requires k <= |reservations|
  {
    forall i :: 0 <= i < k ==> !LaunchedFirst(reservations, i, imageId)
  }

  /** `ami_inUse` raises exactly when it reaches a reservation with no
      instances before finding a match. */
  lemma {:induction false} InUseRaises(reservations: seq<Reservation>, imageId: string)
    ensures InUse(reservations, imageId) == Raised <==>
      exists k :: 0 <= k < |reservations| && |reservations[k].instances| == 0 &&
        NoLaunchBefore(reservations, k, imageId)
  {
    if |reservations| > 0 && |reservations[0].instances| > 0 &&
       reservations[0].instances[0].imageId != imageId {
      var rest := reservations[1..];
      InUseRaises(rest, imageId);
      if InUse(reservations, imageId) == Raised {
        var k :| 0 <= k < |rest| && |rest[k].instances| == 0 && NoLaunchBefore(rest, k, imageId);
        NoLaunchBeforeTail(reservations, k + 1, imageId);
        assert rest[k] == reservations[k + 1];
      }
      if k :| 0 <= k < |reservations| && |reservations[k].instances| == 0 && NoLaunchBefore(reservations, k, imageId) {
        NoLaunchBeforeTail(reservations, k, imageId);
        assert rest[k - 1] == reservations[k];
      }
    } else if |reservations| > 0 && |reservations[0].instances| == 0 {
      assert NoLaunchBefore(reservations, 0, imageId);
    } else if |reservations| > 0 {
      assert LaunchedFirst(reservations, 0, imageId);
    }
  }

  /** Past a first reservation that was not launched from the image, the
      reservations before `k` were not exactly when the remaining ones before
      `k - 1` were not. */
  lemma NoLaunchBeforeTail(reservations: seq<Reservation>, k: nat, imageId: string)
    requires 0 < k <= |reservations| && |reservations[0].instances| > 0
    requires reservations[0].instances[0].imageId != imageId
    ensures NoLaunchBefore(reservations, k, imageId) <==> NoLaunchBefore(reservations[1..], k - 1, imageId)
  {
    var rest := reservations[1..];
    forall i | 0 <= i < k - 1
      ensures LaunchedFirst(rest, i, imageId) == LaunchedFirst(reservations, i + 1, imageId)
    {
      assert rest[i] == reservations[i + 1];
    }
    if NoLaunchBefore(rest, k - 1, imageId) {
      forall i | 0 <= i < k ensures !LaunchedFirst(reservations, i, imageId) {
        if i > 0 {
          assert !LaunchedFirst(rest, i - 1, imageId);
        }
      }
    }
  }

  /** The `Ebs` entries of an image's block-device mappings, in order; the
      mappings without one are passed over. */
  function EbsEntries(mappings: seq<Mapping>): (es: seq<Ebs>)
    ensures |es| <= |mappings|
    ensures forall e :: e in es <==> Mapping(Some(e)) in mappings
  {
    if |mappings| == 0 then []
    else
      var rest := EbsEntries(mappings[1..]);
      assert forall m :: m in mappings <==> m == mappings[0] || m in mappings[1..];
      (if mappings[0].ebs.Some? then [mappings[0].ebs.value] else []) + rest
  }

  predicate HasEbs(m: Mapping)
  {
    m.ebs.Some?
  }

  /** The `Ebs` entry of a mapping that has one. */
  function EbsOf(m: Mapping): Ebs
  {
    match m.ebs
    case Some(e) => e
    case None => Ebs("", 0)
  }

  /** The `Ebs` entries are those of the mappings that have one, one entry
      per such mapping, in mapping order. */
  lemma {:induction false} EbsEntriesInOrder(mappings: seq<Mapping>)
    ensures EbsEntries(mappings) == Project(EbsOf, Keep(HasEbs, mappings))
  {
    if |mappings| > 0 {
      EbsEntriesInOrder(mappings[1..]);
      var here := if HasEbs(mappings[0]) then [mappings[0]] else [];
      ProjectConcat(EbsOf, here, Keep(HasEbs, mappings[1..]));
    }
  }

  /** EC2 in every account: the regions `describe_regions` lists for the
      account, and what each region of it holds. */
  datatype Ec2Cloud = Ec2Cloud(regions: string -> seq<string>, region: (string, string) -> Ec2Region)

  /** The account's own images, region by region, as the image scripts list
      them: `SkippedRegion` is not queried. */
  function ImageSites(cloud: Ec2Cloud, account: string): (sites: seq<Located<Image>>)
    ensures forall i :: 0 <= i < |sites| ==>
      sites[i].region != SkippedRegion && sites[i].region in cloud.regions(account)
      && sites[i].item in cloud.region(account, sites[i].region).ownImages
  {
    RegionSweep(cloud.regions(account), r => cloud.region(account, r).ownImages)
  }

  /** What the skipped region holds has no influence on the images listed. */
  lemma ImageSitesIgnoreSkipped(c1: Ec2Cloud, c2: Ec2Cloud, account: string)
    requires c1.regions(account) == c2.regions(account)
    requires forall r :: r != SkippedRegion ==> c1.region(account, r).ownImages == c2.region(account, r).ownImages
    ensures ImageSites(c1, account) == ImageSites(c2, account)
  {
    RegionSweepIgnoresSkipped(c1.regions(account),
      r => c1.region(account, r).ownImages, r => c2.region(account, r).ownImages);
  }
}
