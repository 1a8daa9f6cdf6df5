# Cloud clean-up scripts, modelled in Dafny

This project models the core of a set of boto3 scripts that sweep the
managed accounts of an AWS organisation. Each script assumes the
`AWSCloudFormationStackSetExecutionRole` of every account in turn and writes
a CSV report.

- `delete_snapshots.py` reads a snapshot inventory. It groups the rows into
  per-account records (`acct_list`) and, inside each account, into per-region
  records (`regional_snapshots`). It then deletes every snapshot and writes
  one audit row per snapshot. Seven accounts are skipped. An account whose
  role does not validate gets `Failed`/`N/A` rows.
- `delete_snapshots_with_deregister_AMI.py` does the same, with one
  difference: before a snapshot is deleted, the images named in its `AMI`
  field are deregistered (`deregister_all_amis`, `ami_inUse`). An image that
  is in use, or that cannot be deregistered, keeps its snapshot and ends the
  loop over that region.
- `delete_BackUpService_AMIs.py` lists the old images made by AWS Backup. It
  looks up each one's recovery point (`delete_repoint`) and reports one row
  per EBS snapshot.
- `old_aws_ami_backups.py` deregisters the old hand-made backup images,
  deletes their snapshots and reports them. Images made by the backup
  service are left alone.
- `add_intelligent_tier.py` puts an intelligent-tiering lifecycle rule on
  every listed bucket that has no lifecycle configuration.
- `rdsinstances.py` reports the Multi-AZ database instances.

## How the model is built

The cloud is a value. Each script's view of AWS is a datatype of functions:
- the regions of an account;
- the images, instances, vaults and buckets listed there;
- whether a given call returns or raises.

Nothing changes during a run: a call that deregisters or deletes something
is recorded in the output and does not alter later answers. Python
exceptions are modelled as follows:
- `Call<T>` (`Returned`/`Raised`) is the result of a call that may raise.
- A visit to one resource is a `Scans.Step`: the rows it writes, the calls it
  makes, and whether an exception escaped it.
- The loop over resources is `Scans.Scan`.
- The loop over accounts is `Accounts.ForEachAccount`. An exception that
  escapes an account's pass reaches `main`'s handler, so the run ends there.

Two pieces are written twice, to model the scripts' own loops:
- `acct_list` and `regional_snapshots` are each a function giving their
  meaning: the rows grouped by key, then split into the parallel lists.
- Each is also a method that follows the script's nested scan with its
  `flag` sentinel. The methods are proved to compute the functions.

Modules, one per file:
- Shared modules: `Outcomes`, `Seqs`, `Text`, `Grouping`, `Accounts`,
  `Scans`, `Ec2`, `Audit`.
- The snapshot records: `SnapshotRecords`.
- One module per script: `SnapshotDeletion`, `DeregisterDeletion`,
  `BackupServiceAmis`, `OldAmiBackups`, `IntelligentTier`, `RdsMultiAz`.

## Model

| member | source | states |
|---|---|---|
| Accounts.ReadCsv | cloudops-scripting/boto3/add_intelligent_tier.py:35-45 | The header row is dropped and every later row gives its first cell, in file order. The read fails exactly when some later row is empty (the `acct[0]` index error). |
| Accounts.ReadCsvRoundTrip | cloudops-scripting/boto3/delete_BackUpService_AMIs.py:107-117 | Reading a file made of a header and one account per row gives back exactly those accounts. |
| Accounts.ArnRoundTrip | cloudops-scripting/boto3/delete_snapshots.py:165 | The account number can be read back from the role ARN built for it. |
| Accounts.ArnParse | cloudops-scripting/boto3/delete_snapshots_with_deregister_AMI.py:226 | Any string the ARN reader accepts is exactly the role ARN of the account it yields. |
| Accounts.RoleArnInjective | cloudops-scripting/boto3/old_aws_ami_backups.py:125 | Different accounts are given different roles. |
| Accounts.AccountFileInjective | cloudops-scripting/boto3/old_aws_ami_backups.py:128-129 | Different accounts write different report files (account number plus suffix), so no account overwrites another's report. |
| Accounts.ForEachAccount | cloudops-scripting/boto3/old_aws_ami_backups.py:121-132 | Accounts are visited in list order, each under its own role ARN. No pass before the last one escaped. An aborted run stopped at a pass that escaped. A run that was not aborted visited every account. |
| Accounts.ForEachAccountAborts | cloudops-scripting/boto3/delete_BackUpService_AMIs.py:120-131 | The account loop is aborted exactly when some account's pass lets an exception escape. |
| Accounts.RunAccounts | cloudops-scripting/boto3/rdsinstances.py:69-80 | An unreadable account file ends the run before any account is visited. Otherwise the accounts are visited in file order, each under its own role ARN, and the run stops after the first pass that lets an exception escape. The run is aborted exactly when some account's pass escapes; if it is not aborted, every account was visited. |
| Accounts.RegionSweep | cloudops-scripting/boto3/delete_BackUpService_AMIs.py:76-83 | Every resource listed in a listed region other than `ap-southeast-4` is visited, and nothing else is. |
| Accounts.RegionSweepConcat | cloudops-scripting/boto3/delete_BackUpService_AMIs.py:76-86 | Sweeping two lists of regions one after the other gives the first sweep followed by the second: regions are visited in list order, and no resource is merged or dropped between them. |
| Accounts.RegionSweepSingle | cloudops-scripting/boto3/rdsinstances.py:54-61 | The sweep of `ap-southeast-4` is empty. The sweep of any other region lists what the region answers, in its order and with its repetitions. With `RegionSweepConcat` this fixes the order and multiplicity of every sweep. |
| Accounts.RegionSweepIgnoresSkipped | cloudops-scripting/boto3/rdsinstances.py:54-59 | What `ap-southeast-4` would list has no influence on the sweep. |
| Text.Lower | cloudops-scripting/boto3/delete_BackUpService_AMIs.py:89 | No upper-case ASCII letter is left, the length is kept, and every character is the original one up to case. |
| Text.LowerIdempotent | cloudops-scripting/boto3/old_aws_ami_backups.py:87-90 | Lower-casing a lower-cased string changes nothing. |
| Text.LowerEqual | cloudops-scripting/boto3/old_aws_ami_backups.py:90 | Two strings lower-case alike exactly when they have the same length and agree position by position up to ASCII case. |
| Text.SplitJoinRoundTrip | cloudops-scripting/boto3/delete_snapshots_with_deregister_AMI.py:193 | Joining the pieces of a split with the separator gives the original field back. |
| Text.SplitSingleEmpty | cloudops-scripting/boto3/delete_snapshots_with_deregister_AMI.py:193-196 | Splitting gives `['']` exactly when the field is empty, so the test for an empty field is a test for an empty `AMI` cell. |
| Grouping.GroupSpec | cloudops-scripting/boto3/delete_snapshots.py:44-69 | Grouping is a partition. The keys are the input's keys in order of first appearance. Each group holds exactly the input items with its key, in input order. No item is lost or repeated. |
| SnapshotRecords.AcctListStep | cloudops-scripting/boto3/delete_snapshots_with_deregister_AMI.py:46-73 | Adding one row to the account records appends it to the first record of its account, or opens a new record at the end. |
| SnapshotRecords.AcctListSpec | cloudops-scripting/boto3/delete_snapshots_with_deregister_AMI.py:32-75 | There is one record per distinct `Owner Id`, in order of first appearance. Each record's lists are equally long. Position `i` of every list comes from the same input row, and the record holds that account's rows in input order. The list lengths add up to the number of rows. |
| SnapshotRecords.AcctListAccounts | cloudops-scripting/boto3/delete_snapshots.py:32-71 | No account has two records, and an account has a record exactly when it occurs in the file. |
| SnapshotRecords.AcctListLoop | cloudops-scripting/boto3/delete_snapshots_with_deregister_AMI.py:45-73 | The nested scan with its `flag` sentinel builds exactly the grouped records: each record's lists are equally long and hold that account's rows in input order. |
| SnapshotRecords.RegionalStep | cloudops-scripting/boto3/delete_snapshots_with_deregister_AMI.py:108-132 | Adding one position to the region records appends its values to the first record of its region, or opens a new record. |
| SnapshotRecords.RegionalSpec | cloudops-scripting/boto3/delete_snapshots.py:85-125 | There is one region record per distinct region of the account, in order of first appearance. Each record's lists are equally long and describe that region's snapshots in their original order. Together the records hold exactly the account's rows. |
| SnapshotRecords.RegionalLoop | cloudops-scripting/boto3/delete_snapshots_with_deregister_AMI.py:104-134 | The positional scan with its `flag` sentinel builds exactly the grouped region records, and they hold the account's rows with nothing lost or added. |
| Ec2.InUse | cloudops-scripting/boto3/delete_BackUpService_AMIs.py:43-50 | `True` only when some reservation's first instance was launched from the image. `False` only when no reservation's first instance was. |
| Ec2.InUseAnswers | cloudops-scripting/boto3/old_aws_ami_backups.py:41-48 | When no reservation is empty, the answer is exactly whether some reservation's first instance was launched from the image. |
| Ec2.InUseRaises | cloudops-scripting/boto3/delete_snapshots_with_deregister_AMI.py:141-148 | The check raises exactly when an empty reservation comes before any reservation whose first instance uses the image. |
| Ec2.EbsEntries | cloudops-scripting/boto3/delete_BackUpService_AMIs.py:97-98 | The snapshots of an image are exactly its mappings that have an `Ebs` entry. |
| Ec2.EbsEntriesInOrder | cloudops-scripting/boto3/delete_BackUpService_AMIs.py:97-100 | There is one snapshot entry per mapping with an `Ebs` entry, in mapping order, and none for the others. |
| Ec2.ImageSitesIgnoreSkipped | cloudops-scripting/boto3/old_aws_ami_backups.py:78-83 | The images visited do not depend on what `ap-southeast-4` holds. |
| Audit.Outcome | cloudops-scripting/boto3/delete_snapshots.py:138-151 | A status is `Success` exactly when the call returned, and `Failed` otherwise. |
| Audit.AuthFailureRows | cloudops-scripting/boto3/delete_snapshots.py:173-177 | An account whose role fails validation gets one row per record, in record order, with access `Failed` and deletion `N/A`. |
| Audit.Cells | cloudops-scripting/boto3/delete_snapshots.py:143-177 | Every audit row has one cell per header column. The access and deletion cells read back as the row's two statuses. |
| Audit.StatusRoundTrip | cloudops-scripting/boto3/delete_snapshots.py:143-177 | Each status is written as a text that reads back as that status. |
| Audit.CellsInjective | cloudops-scripting/boto3/delete_snapshots.py:143-177 | Two rows are written alike exactly when they agree on account, region, snapshot, owner, cost and both statuses. |
| Scans.Scan | cloudops-scripting/boto3/delete_BackUpService_AMIs.py:83-103 | The loop writes the rows and makes the calls of the visits up to and including the first one an exception escapes. It is abandoned exactly when some visit escapes. |
| Scans.ScanPrefix | cloudops-scripting/boto3/old_aws_ami_backups.py:84-105 | What the loop writes is a prefix of what every visit together would write, and all of it when no visit escapes. |
| SnapshotDeletion.DeleteRegion | cloudops-scripting/boto3/delete_snapshots.py:137-151 | One row per snapshot of the region record, in record order. Access is `Success`. Deletion is `Success` exactly when `delete_snapshot` returned for that snapshot. |
| SnapshotDeletion.DeleteSnapshots | cloudops-scripting/boto3/delete_snapshots.py:131-151 | The rows report the region records' snapshots, region after region. Each deletion status comes from that snapshot's own region. |
| SnapshotDeletion.VisitAccount | cloudops-scripting/boto3/delete_snapshots.py:161-177 | An account is skipped without assuming its role exactly when it is on the exclusion list. A validated account's rows report its region records, each with access `Success` and the outcome of its own `delete_snapshot` call as deletion status. An account whose role failed writes one `Failed` / `N/A` row per record, in record order. |
| SnapshotDeletion.VisitAccountRecords | cloudops-scripting/boto3/delete_snapshots.py:169-177 | A visited account reports each of its records exactly once, whether or not its role validated. |
| SnapshotDeletion.RoleArnsOfVisits | cloudops-scripting/boto3/delete_snapshots.py:161-168 | The roles assumed are exactly those of the records whose account is not excluded. |
| SnapshotDeletion.DeleteRunRoles | cloudops-scripting/boto3/delete_snapshots.py:160-168 | A role is assumed for an account exactly when the account occurs in the inventory and is not excluded. |
| SnapshotDeletion.DeleteRunRowsOf | cloudops-scripting/boto3/delete_snapshots.py:160-177 | The run's rows for one account are exactly that account's visit. An account with no record gets none. |
| SnapshotDeletion.DeleteRunAccount | cloudops-scripting/boto3/delete_snapshots.py:154-180 | An excluded account gets no row. Any other account gets exactly its inventory rows, once each. If its role validated, each row is marked `Success` with the outcome of that snapshot's deletion. If its role failed, the rows come in input order, marked `Failed` / `N/A`. |
| DeregisterDeletion.DeregisterAll | cloudops-scripting/boto3/delete_snapshots_with_deregister_AMI.py:163-175 | The result is `True` when every image was passed over as unavailable or was unused and deregistered. It is `False` when the first image not cleared is available and in use or failed to deregister. Otherwise it raised. Only available images not in use are deregistered. |
| DeregisterDeletion.DeregisterAllReached | cloudops-scripting/boto3/delete_snapshots_with_deregister_AMI.py:164-174 | No image after the one the walk stops at is deregistered. |
| DeregisterDeletion.DeregisterAllCalls | cloudops-scripting/boto3/delete_snapshots_with_deregister_AMI.py:164-174 | The deregistrations asked for are exactly the available, unused images among those the walk reaches, in list order. |
| DeregisterDeletion.HandleSnapshot | cloudops-scripting/boto3/delete_snapshots_with_deregister_AMI.py:185-214 | Every record handled gets exactly one row, for itself, with access `Success` and a real deletion status. |
| DeregisterDeletion.HandleSnapshotSpec | cloudops-scripting/boto3/delete_snapshots_with_deregister_AMI.py:193-214 | With an empty `AMI` field nothing is deregistered and the snapshot is deleted. Otherwise the snapshot is deleted exactly when the image walk returns `True`, and the region is left exactly when it returns `False`. The deletion shows `Success` exactly when `delete_snapshot` was called and returned. |
| DeregisterDeletion.HandleSnapshotSafe | cloudops-scripting/boto3/delete_snapshots_with_deregister_AMI.py:196-204 | A snapshot is deleted only when every image in its field was cleared. So no available image launched by a running instance loses its snapshot, and no image in use is deregistered. An image in another state, such as `pending`, is passed over even when in use. |
| DeregisterDeletion.ProcessRegion | cloudops-scripting/boto3/delete_snapshots_with_deregister_AMI.py:184-214 | The region's rows report a prefix of its records, in order. |
| DeregisterDeletion.ProcessRegionSteps | cloudops-scripting/boto3/delete_snapshots_with_deregister_AMI.py:184-214 | Each record reached gets the row the loop body writes. The loop is left only after a record whose images block. |
| DeregisterDeletion.ProcessRegionComplete | cloudops-scripting/boto3/delete_snapshots_with_deregister_AMI.py:184-208 | When no record's images block, every record of the region is reported, in order. |
| DeregisterDeletion.ProcessRegionStops | cloudops-scripting/boto3/delete_snapshots_with_deregister_AMI.py:198-203 | A blocked record is the last of its region to be reported. |
| DeregisterDeletion.DeleteSnapshotsRows | cloudops-scripting/boto3/delete_snapshots_with_deregister_AMI.py:178-214 | Every row written reports a record of the account as the loop body handled it, in that record's own region. |
| DeregisterDeletion.DeleteSnapshotsRecords | cloudops-scripting/boto3/delete_snapshots_with_deregister_AMI.py:178-214 | No record is reported twice and none is invented. |
| DeregisterDeletion.DeleteSnapshotsComplete | cloudops-scripting/boto3/delete_snapshots_with_deregister_AMI.py:178-208 | When no record's images block, every record is reported, region after region. |
| DeregisterDeletion.VisitAccount | cloudops-scripting/boto3/delete_snapshots_with_deregister_AMI.py:224-238 | Every account's role is assumed. An account that fails validation writes one `Failed` / `N/A` row per record, in record order. |
| DeregisterDeletion.VisitAccountRows | cloudops-scripting/boto3/delete_snapshots_with_deregister_AMI.py:230-238 | Every row of a visit belongs to the visited account, and its access is `Success` exactly when the role validated. A validated account's row is what the loop body wrote for that record in its region; a failed account's row has deletion status `N/A`. |
| DeregisterDeletion.VisitAccountRecords | cloudops-scripting/boto3/delete_snapshots_with_deregister_AMI.py:230-238 | A visit reports each of the account's records at most once. It reports all of them when the role validated and no record's images block. |
| DeregisterDeletion.DeregisterRun | cloudops-scripting/boto3/delete_snapshots_with_deregister_AMI.py:223-224 | There is one visit per account record: this script excludes no account. |
| DeregisterDeletion.DeregisterRunRoles | cloudops-scripting/boto3/delete_snapshots_with_deregister_AMI.py:223-229 | Roles are assumed for every account of the inventory, in order of first appearance. |
| DeregisterDeletion.DeregisterRunRowsOf | cloudops-scripting/boto3/delete_snapshots_with_deregister_AMI.py:223-238 | The run's rows for one account are exactly that account's visit. An account with no record gets none. |
| DeregisterDeletion.DeregisterRunAccount | cloudops-scripting/boto3/delete_snapshots_with_deregister_AMI.py:217-241 | Each account gets its own inventory rows at most once and nothing else. If its role failed, it gets all of them, in order, marked `Failed` / `N/A`. If its role validated, each row is what the loop body wrote for that record in its region, and it gets all of them when no image blocks. |
| BackupServiceAmis.SearchVaultsSpec | cloudops-scripting/boto3/delete_BackUpService_AMIs.py:57-65 | The vault search finds the recovery point exactly when some vault names the image and every earlier vault was listed without naming it. It finds nothing exactly when every vault was listed without naming it. It fails exactly when a listing raises before any vault names the image. |
| BackupServiceAmis.DeleteRepoint | cloudops-scripting/boto3/delete_BackUpService_AMIs.py:53-68 | The result is `True` (found), `None` (no vault names it) or `False` (a call raised), with the same conditions as the vault search. A failure to list the vaults gives `False`. |
| BackupServiceAmis.ImageRows | cloudops-scripting/boto3/delete_BackUpService_AMIs.py:97-101 | One row per EBS snapshot of the image, in mapping order. Each row carries the image's fields, the region and the snapshot's size. Each is priced at 5 cents per GiB and carries the image's recovery-point status. |
| BackupServiceAmis.VisitImage | cloudops-scripting/boto3/delete_BackUpService_AMIs.py:84-103 | An image escapes the loop exactly when it is a candidate and its use check raises. Its recovery point is looked up exactly when it is a candidate not in use. Only such an image gets rows. |
| BackupServiceAmis.VisitImageSound | cloudops-scripting/boto3/delete_BackUpService_AMIs.py:84-101 | A row written for an image is one of its EBS snapshots, correctly priced and carrying its recovery-point status. Only a candidate not in use gets one. |
| BackupServiceAmis.AccountPass | cloudops-scripting/boto3/delete_BackUpService_AMIs.py:71-76 | The report goes to the account's own file and starts with the ten-column header. |
| BackupServiceAmis.AccountPassRowsSound | cloudops-scripting/boto3/delete_BackUpService_AMIs.py:77-101 | Every reported row is an EBS snapshot of an image outside `ap-southeast-4`. That image is not the skipped ID, names the keyword, is older than 180 days and is not in use. |
| BackupServiceAmis.AccountPassLookupsSound | cloudops-scripting/boto3/delete_BackUpService_AMIs.py:86-96 | A recovery point is looked up only for such an image. |
| BackupServiceAmis.AccountPassEscapes | cloudops-scripting/boto3/delete_BackUpService_AMIs.py:93 | An account's pass is abandoned exactly when the use check of some candidate image raises. |
| BackupServiceAmis.AccountPassComplete | cloudops-scripting/boto3/delete_BackUpService_AMIs.py:77-101 | When the pass is not abandoned, every qualifying image has its recovery point looked up and every one of its EBS snapshots reported. |
| BackupServiceAmis.BackupRun | cloudops-scripting/boto3/delete_BackUpService_AMIs.py:120-131 | Each account visited gets its own report, in account order. Every account is visited unless some pass escaped. An unreadable account file visits none. The run is aborted exactly when some account's pass escapes. |
| OldAmiBackups.ServiceImagesMatchKeyword | cloudops-scripting/boto3/old_aws_ami_backups.py:87-90 | Every backup-service image also matches the `Backup` keyword, so the service-image exclusion is what keeps those images out. |
| OldAmiBackups.ServiceImagesSpared | cloudops-scripting/boto3/old_aws_ami_backups.py:87-89 | A backup-service image is never acted on: no call, no row, no escape. |
| OldAmiBackups.ImageCalls | cloudops-scripting/boto3/old_aws_ami_backups.py:97-100 | An image acted on gets one deregistration first, then one snapshot deletion per EBS mapping in order, whatever the deregistration's outcome. |
| OldAmiBackups.ImageRows | cloudops-scripting/boto3/old_aws_ami_backups.py:98-103 | One row per EBS snapshot. Each row carries the image's single deregistration status and that snapshot's own deletion status. |
| OldAmiBackups.VisitImage | cloudops-scripting/boto3/old_aws_ami_backups.py:84-105 | An image escapes exactly when it is a candidate whose use check raises. It causes calls exactly when it is a candidate not in use. It gets rows only then. |
| OldAmiBackups.VisitImageSound | cloudops-scripting/boto3/old_aws_ami_backups.py:84-103 | The rows and calls of one image's visit concern that image only, and only if it is a candidate not in use. |
| OldAmiBackups.AccountPass | cloudops-scripting/boto3/old_aws_ami_backups.py:73-76 | The report goes to the account's own file and starts with the nine-column header. |
| OldAmiBackups.AccountPassRowsSound | cloudops-scripting/boto3/old_aws_ami_backups.py:78-103 | Every reported row is an EBS snapshot of an image that is acted on. It carries the status the image's deregistration returned and the status of that snapshot's own deletion. No service image is ever reported. |
| OldAmiBackups.AccountPassCallsSound | cloudops-scripting/boto3/old_aws_ami_backups.py:84-100 | Every call deregisters an image that is acted on, or deletes one of its snapshots. |
| OldAmiBackups.AccountPassComplete | cloudops-scripting/boto3/old_aws_ami_backups.py:78-103 | When the pass is not abandoned, every image acted on is deregistered and each of its snapshots deleted and reported. |
| OldAmiBackups.AccountPassEscapes | cloudops-scripting/boto3/old_aws_ami_backups.py:94 | An account's pass is abandoned exactly when the use check of some candidate image raises. |
| OldAmiBackups.OldRun | cloudops-scripting/boto3/old_aws_ami_backups.py:121-132 | Each account visited gets its own report, in account order. Every account is visited unless some pass escaped. The run is aborted exactly when some account's pass escapes. |
| IntelligentTier.VisitBucket | cloudops-scripting/boto3/add_intelligent_tier.py:48-96 | The rule is put exactly when the lifecycle lookup raises, for any reason: `check_lifecycle` catches every exception. A failed put escapes without a row. Otherwise the bucket gets one row whose `RuleApplied` says whether the lookup raised. |
| IntelligentTier.AccountPass | cloudops-scripting/boto3/add_intelligent_tier.py:60-68 | The report goes to the account's own file with its header. An unreadable bucket file abandons the pass with no row and no put. |
| IntelligentTier.AccountPassRows | cloudops-scripting/boto3/add_intelligent_tier.py:68-96 | One row per bucket, in file order, up to the bucket whose put raised. `RuleApplied` is `True` exactly for buckets without a configuration. Every bucket has a row when no put raises. |
| IntelligentTier.AccountPassPutsSound | cloudops-scripting/boto3/add_intelligent_tier.py:70-89 | A configuration is put only on a listed bucket that had none. It is always the single disabled rule moving every object to intelligent tiering at once. |
| IntelligentTier.AccountPassPutsComplete | cloudops-scripting/boto3/add_intelligent_tier.py:69-89 | When the pass is not abandoned, every listed bucket without a configuration gets the rule. |
| IntelligentTier.AccountPassEscapes | cloudops-scripting/boto3/add_intelligent_tier.py:68-89 | A pass is abandoned exactly when the bucket file cannot be read or some put raises. |
| IntelligentTier.TierRun | cloudops-scripting/boto3/add_intelligent_tier.py:99-112 | Each account visited gets its own report, in account order. Every account is visited unless some pass escaped. The run is aborted exactly when some account's pass escapes. |
| RdsMultiAz.MultiAzRows | cloudops-scripting/boto3/rdsinstances.py:60-67 | Every row names a listed instance that is Multi-AZ, and is marked `True`. |
| RdsMultiAz.MultiAzRowsSpec | cloudops-scripting/boto3/rdsinstances.py:60-64 | The rows name exactly the Multi-AZ instances, in listed order. |
| RdsMultiAz.AccountPass | cloudops-scripting/boto3/rdsinstances.py:48-53 | The report goes to the account's own file with the two-column header. No exception escapes it. |
| RdsMultiAz.AccountPassIgnoresSkipped | cloudops-scripting/boto3/rdsinstances.py:54-57 | What `ap-southeast-4` lists has no influence on the report. |
| RdsMultiAz.AccountPassReports | cloudops-scripting/boto3/rdsinstances.py:54-64 | Every Multi-AZ instance of every other region is reported. |
| RdsMultiAz.AccountPassOnlyMultiAz | cloudops-scripting/boto3/rdsinstances.py:54-64 | Only Multi-AZ instances of regions other than `ap-southeast-4` are reported. |
| RdsMultiAz.RdsRun | cloudops-scripting/boto3/rdsinstances.py:69-80 | With a readable account file, every account gets its report, in order, and the run is never aborted. |

## Left out

- Sessions and credentials (`assumed_role_session`) are not modelled. An account's session is identified by its role ARN.
- Nothing changes during a run. The model records deregistrations, deletions and puts as calls, but later answers from the cloud do not depend on them. One consequence: when several snapshots of one region name the same AMI, the model describes that AMI as `available` again for each later snapshot and asks to deregister it again. The real second `describe_images` would see it deregistered or missing, so the later rows can differ from the script's.
- Failures of the listing calls (`describe_regions`, `describe_images`, `describe_db_instances`, `describe_instances`) are not modelled. Their answers are given.
- Missing dictionary keys in AWS responses and in the inventory CSV are not modelled. Every record has every field.
- `validate_acct` is a boolean oracle on the role ARN. The `describe_regions` call it makes is not modelled.
- Image age is given as a whole number of days (`ageDays`). Parsing `CreationDate` and reading the clock are not modelled.
- Cost is whole cents: volume size times 5. This replaces the script's floating-point `VolumeSize * 0.05`.
- Lower-casing covers the ASCII letters only. Python's full Unicode case mapping is not modelled.
- Console output (`print`) and the CSV text encoding are not modelled. A report is its header and its data rows as values.
- The `except` branch of `regional_snapshots` (which returns `None` when the lists are misaligned) is not modelled. `SnapshotRecords.RegionalLoop` requires aligned lists, and `acct_list` always builds them so.
- `SnapshotRecords.SnapshotRow` carries the `AMI` column for both deletion scripts. `delete_snapshots.py` does not read that column, and no contract about that script depends on it.
- The recovery-point deletion in `delete_repoint` is commented out in the script, so `BackupServiceAmis.DeleteRepoint` only looks the point up.
- The outer `try` of each `main` only prints the exception. It is modelled as the end of the run (`aborted`), without the message.
- `rdsinstances.py:67` nests the same quotes inside an f-string. Python before 3.12 rejects that, but 3.12 and later accept it. The model takes the later reading: the line only prints.
- DeregisterDeletion.HandleSnapshotSafe: protects only images whose state is `available`. The script passes over an image in any other state, such as `pending`, without checking whether it is in use, and then deletes the snapshot; the model does the same.
