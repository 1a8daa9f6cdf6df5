/** `add_intelligent_tier.py`: in every account, read the list of buckets
    from the account's bucket file and give each bucket that has no
    lifecycle configuration a single rule moving its objects to the
    intelligent-tiering storage class; report one row per bucket. */
module IntelligentTier {
  import opened Outcomes
  import opened Seqs
  import opened Accounts
  import opened Scans

  const BucketsSuffix := "_bucketslist.csv"
  const TierSuffix := "_intelligenttier.csv"
  const LcName := "MoveToIntelligentTiering"
  /** The owner cell the script writes on every row. */
  const OwnerCell := "owner"

  const TierHeader: seq<string> := ["Account#", "BucketName", "LifecycleName", "RuleApplied", "OwnerID"]

  datatype Transition = Transition(days: int, storageClass: string)

  /** One lifecycle rule; the rule applies to the objects whose keys start
      with `prefix`. */
  datatype Rule = Rule(id: string, prefix: string, status: string, transitions: seq<Transition>)

  /** The rule the script puts: every object (empty prefix), moved to
      intelligent tiering at once, and left disabled. */
  const TieringRule := Rule(LcName, "", "Disabled", [Transition(0, "INTELLIGENT_TIERING")])

  /** A `put_bucket_lifecycle_configuration` call: it replaces the bucket's
      whole configuration by `rules`. */
  datatype Put = Put(bucket: string, rules: seq<Rule>)

  /** A report row; `ruleApplied` is the negation of what `check_lifecycle`
      found. */
  datatype TierRow = TierRow(account: string, bucket: string, lifecycleName: string, ruleApplied: bool, owner: string)

  function BucketOf(r: TierRow): string { r.bucket }

  /** S3 as the script sees it: the local files by name (`None` for a file
      that cannot be opened), whether `get_bucket_lifecycle_configuration`
      returns for a bucket of an account (`check_lifecycle` catches every
      exception it raises, whatever the cause: a bucket without a
      configuration, a denied call, a throttled one), and whether the put
      call returns. */
  datatype S3Cloud = S3Cloud(
    files: string -> Option<seq<seq<string>>>,
    getOk: (string, string) -> bool,
    putOk: (string, string) -> bool)

  /** The loop body of `bucket_lifecycle` for one bucket. `check_lifecycle`
      is `True` exactly when the get call returns; the rule is put only when
      it is `False`; a raising put is not caught, so its row is never
      written and the exception leaves the loop. */
  function VisitBucket(cloud: S3Cloud, account: string, bucket: string): (s: Step<TierRow, Put>)
    ensures s.calls == if cloud.getOk(account, bucket) then [] else [Put(bucket, [TieringRule])]
    ensures s.escaped <==> !cloud.getOk(account, bucket) && !cloud.putOk(account, bucket)
    ensures s.escaped ==> s.rows == []
    ensures !s.escaped ==>
      && |s.rows| == 1 && s.rows[0].account == account && s.rows[0].bucket == bucket
      && s.rows[0].lifecycleName == LcName && s.rows[0].ruleApplied == !cloud.getOk(account, bucket)
  {
    var existing := cloud.getOk(account, bucket);
    if !existing then
      if cloud.putOk(account, bucket) then
        Step([TierRow(account, bucket, LcName, !existing, OwnerCell)], [Put(bucket, [TieringRule])], false)
      else Step([], [Put(bucket, [TieringRule])], true)
    else Step([TierRow(account, bucket, LcName, !existing, OwnerCell)], [], false)
  }

  function BucketVisits(cloud: S3Cloud, account: string, buckets: seq<string>): (steps: seq<Step<TierRow, Put>>)
    ensures |steps| == |buckets|
    ensures forall i :: 0 <= i < |buckets| ==> steps[i] == VisitBucket(cloud, account, buckets[i])
  {
    seq(|buckets|, i requires 0 <= i < |buckets| => VisitBucket(cloud, account, buckets[i]))
  }

  /** The bucket list of an account: `None` when the bucket file is missing
      or has an empty row, which raises in `read_csv`. */
  function Buckets(cloud: S3Cloud, account: string): Option<seq<string>>
  {
    match cloud.files(AccountFile(account, BucketsSuffix))
    case None => None
    case Some(rows) => ReadCsv(rows)
  }

  /** `bucket_lifecycle` for one account: the header is written first, then
      the bucket file is read and the buckets visited in order. */
  function AccountPass(cloud: S3Cloud, account: string): (p: Pass<Report<TierRow, Put>>)
    ensures p.output.file == AccountFile(account, TierSuffix) && p.output.header == TierHeader
    ensures Buckets(cloud, account).None? ==> p.escaped && p.output.rows == [] && p.output.calls == []
  {
    var file := AccountFile(account, TierSuffix);
    match Buckets(cloud, account)
    case None => Pass(Report(file, TierHeader, [], []), true)
    case Some(buckets) =>
      var s := Scan(BucketVisits(cloud, account, buckets));
      Pass(Report(file, TierHeader, s.rows, s.calls), s.escaped)
  }

  /** The bucket loop writes one row per bucket, in file order, up to the
      bucket whose put raised (if any), which has none. */
  lemma ScanRows(cloud: S3Cloud, account: string, buckets: seq<string>)
    ensures var s := Scan(BucketVisits(cloud, account, buckets));
      && |s.rows| <= |buckets|
      && Project(BucketOf, s.rows) == buckets[..|s.rows|]
      && (forall i :: 0 <= i < |s.rows| ==>
            s.rows[i].account == account && s.rows[i].ruleApplied == !cloud.getOk(account, buckets[i]))
      && (!s.escaped <==> |s.rows| == |buckets|)
  {
    var steps := BucketVisits(cloud, account, buckets);
    ScanSingleRows(steps);
    var rows := Scan(steps).rows;
    forall i | 0 <= i < |rows| ensures rows[i].bucket == buckets[i] {
      assert steps[i] == VisitBucket(cloud, account, buckets[i]);
    }
    assert Project(BucketOf, rows) == buckets[..|rows|];
  }

  /** The report holds one row per bucket, in file order, up to the bucket
      whose put raised (if any), which has none: the row's `RuleApplied` is
      `True` exactly when the bucket had no configuration. When no put
      raises, every bucket has its row. */
  lemma AccountPassRows(cloud: S3Cloud, account: string)
    requires Buckets(cloud, account).Some?
    ensures var buckets := Buckets(cloud, account).value;
      var rows := AccountPass(cloud, account).output.rows;
      && |rows| <= |buckets|
      && Project(BucketOf, rows) == buckets[..|rows|]
      && (forall i :: 0 <= i < |rows| ==>
            rows[i].account == account && rows[i].ruleApplied == !cloud.getOk(account, buckets[i]))
      && (!AccountPass(cloud, account).escaped <==> |rows| == |buckets|)
  {
    ScanRows(cloud, account, Buckets(cloud, account).value);
  }

  /** The configuration is put only on buckets of the file that had none,
      and it is always the single tiering rule. */
  lemma AccountPassPutsSound(cloud: S3Cloud, account: string, put: Put)
    requires put in AccountPass(cloud, account).output.calls
    ensures Buckets(cloud, account).Some? && put.bucket in Buckets(cloud, account).value
    ensures !cloud.getOk(account, put.bucket) && put.rules == [TieringRule]
  {
    var buckets := Buckets(cloud, account).value;
    var steps := BucketVisits(cloud, account, buckets);
    assert AccountPass(cloud, account).output.calls == Scan(steps).calls;
    ScanMember(steps, TierRow("", "", "", false, ""), put);
    var i :| 0 <= i < |steps| && put in steps[i].calls;
    VisitBucketPut(cloud, account, buckets[i], put);
  }

  lemma VisitBucketPut(cloud: S3Cloud, account: string, bucket: string, put: Put)
    requires put in VisitBucket(cloud, account, bucket).calls
    ensures put.bucket == bucket && !cloud.getOk(account, bucket) && put.rules == [TieringRule]
  {
  }

  /** When the pass is not abandoned, every bucket of the file without a
      configuration gets the tiering rule. */
  lemma AccountPassPutsComplete(cloud: S3Cloud, account: string, bucket: string)
    requires !AccountPass(cloud, account).escaped
    requires bucket in Buckets(cloud, account).value && !cloud.getOk(account, bucket)
    ensures Put(bucket, [TieringRule]) in AccountPass(cloud, account).output.calls
  {
    var buckets := Buckets(cloud, account).value;
    var steps := BucketVisits(cloud, account, buckets);
    ScanPrefix(steps);
    var i :| 0 <= i < |buckets| && buckets[i] == bucket;
    assert Put(bucket, [TieringRule]) in steps[i].calls;
    WrittenMember(steps, TierRow("", "", "", false, ""), Put(bucket, [TieringRule]));
  }

  /** The pass is abandoned exactly when the bucket file cannot be read or
      the put on some bucket without a configuration raises. */
  lemma AccountPassEscapes(cloud: S3Cloud, account: string)
    ensures AccountPass(cloud, account).escaped <==>
      || Buckets(cloud, account).None?
      || exists i :: 0 <= i < |Buckets(cloud, account).value| &&
           !cloud.getOk(account, Buckets(cloud, account).value[i]) &&
           !cloud.putOk(account, Buckets(cloud, account).value[i])
  {
  }

  /** `main`: the account list, then each account's pass; an exception that
      escapes a pass (a missing bucket file, a failed put) ends the run. */
  function TierRun(accountCsv: seq<seq<string>>, cloud: S3Cloud): (s: Sweep<Report<TierRow, Put>>)
    ensures ReadCsv(accountCsv).None? ==> s.outputs == [] && s.aborted
    ensures ReadCsv(accountCsv).Some? ==>
      var accounts := ReadCsv(accountCsv).value;
      && |s.outputs| <= |accounts|
      && (forall i :: 0 <= i < |s.outputs| ==> s.outputs[i] == AccountPass(cloud, accounts[i]).output)
      && (!s.aborted ==> |s.outputs| == |accounts|)
      && (s.aborted <==> exists i :: 0 <= i < |accounts| && AccountPass(cloud, accounts[i]).escaped)
  {
    var body := Passes(cloud);
    assert forall a :: body(a) == AccountPass(cloud, a);
    RunAccounts(accountCsv, body)
  }

  /** The account loop's body: one pass per account. */
  function Passes(cloud: S3Cloud): (body: string -> Pass<Report<TierRow, Put>>)
    ensures forall a :: body(a) == AccountPass(cloud, a)
  {
    a => AccountPass(cloud, a)
  }
}
