/** The boilerplate every script repeats: reading the account list, forming
    the cross-account role ARN and per-account file names, walking the
    accounts under one outer exception handler, and walking the regions with
    one region left out. */
module Accounts {
  import opened Outcomes
  import opened Seqs

  /** Column 0 of every row; the first row without a column 0 raises
      `IndexError`, which loses the whole list. */
  function FirstColumn(rows: seq<seq<string>>): (r: Option<seq<string>>)
    ensures r.Some? <==> forall i :: 0 <= i < |rows| ==> |rows[i]| > 0
    ensures r.Some? ==> |r.value| == |rows|
    ensures r.Some? ==> forall i :: 0 <= i < |rows| ==> r.value[i] == rows[i][0]
  {
    if |rows| == 0 then Some([])
    else if |rows[0]| == 0 then None
    else match FirstColumn(rows[1..])
      case None => None
      case Some(rest) => Some([rows[0][0]] + rest)
  }

  /** `read_csv`: the parsed rows of the account (or bucket) file, header row
      first. `None` stands for the exception that escapes to the caller. */
  function ReadCsv(rows: seq<seq<string>>): (r: Option<seq<string>>)
    ensures r.Some? <==> forall i :: 1 <= i < |rows| ==> |rows[i]| > 0
    ensures r.Some? ==> |r.value| == (if |rows| == 0 then 0 else |rows| - 1)
    ensures r.Some? ==> forall i :: 0 <= i < |r.value| ==> r.value[i] == rows[i + 1][0]
  {
    if |rows| == 0 then Some([]) else FirstColumn(rows[1..])
  }

  /** A file holding one identifier per row. */
  function SingleColumn(ids: seq<string>): (rows: seq<seq<string>>)
  {
    seq(|ids|, i requires 0 <= i < |ids| => [ids[i]])
  }

  /** A one-column file of identifiers under any header reads back as the identifiers. */
  lemma ReadCsvRoundTrip(header: seq<string>, ids: seq<string>)
    ensures ReadCsv([header] + SingleColumn(ids)) == Some(ids)
  {
    var rows := [header] + SingleColumn(ids);
    assert forall i :: 1 <= i < |rows| ==> rows[i] == [ids[i - 1]];
    assert ReadCsv(rows).value == ids;
  }

  const RolePrefix := "arn:aws:iam::"
  const RoleSuffix := ":role/AWSCloudFormationStackSetExecutionRole"

  /** The role assumed in `account`. */
  function RoleArn(account: string): string
  {
    RolePrefix + account + RoleSuffix
  }

  /** The account a role ARN of the scripts' shape names, if it has that shape. */
  function AccountOfArn(arn: string): Option<string>
  {
    if |arn| >= |RolePrefix| + |RoleSuffix|
       && arn[..|RolePrefix|] == RolePrefix
       && arn[|arn| - |RoleSuffix|..] == RoleSuffix
    then Some(arn[|RolePrefix|..|arn| - |RoleSuffix|])
    else None
  }

  lemma ArnRoundTrip(account: string)
    ensures AccountOfArn(RoleArn(account)) == Some(account)
  {
    var arn := RoleArn(account);
    assert arn[..|RolePrefix|] == RolePrefix;
    assert arn[|arn| - |RoleSuffix|..] == RoleSuffix;
    assert arn[|RolePrefix|..|arn| - |RoleSuffix|] == account;
  }

  lemma ArnParse(arn: string, account: string)
    requires AccountOfArn(arn) == Some(account)
    ensures RoleArn(account) == arn
  {
    assert arn == arn[..|RolePrefix|] + arn[|RolePrefix|..|arn| - |RoleSuffix|] + arn[|arn| - |RoleSuffix|..];
  }

  /** Distinct accounts never share a role ARN. */
  lemma RoleArnInjective(a: string, b: string)
    requires RoleArn(a) == RoleArn(b)
    ensures a == b
  {
    ArnRoundTrip(a);
    ArnRoundTrip(b);
  }

  /** The per-account output (or input) file: the account string followed by
      the script's fixed suffix. */
  function AccountFile(account: string, suffix: string): string
  {
    account + suffix
  }

  /** Distinct accounts never share a file. */
  lemma AccountFileInjective(a: string, b: string, suffix: string)
    requires AccountFile(a, suffix) == AccountFile(b, suffix)
    ensures a == b
  {
    var f := AccountFile(a, suffix);
    assert |a| == |b|;
    assert a == f[..|a|];
    assert b == f[..|b|];
  }

  /** What one account's pass produced, and whether an exception escaped it. */
  datatype Pass<R> = Pass(output: R, escaped: bool)

  /** The outputs of the accounts processed, the role ARNs assumed for them,
      and whether the outer handler ended the run early. */
  datatype Sweep<R> = Sweep(outputs: seq<R>, roleArns: seq<string>, aborted: bool)

  /** How many accounts `main` visits: up to and including the first whose
      pass lets an exception escape. */
  function Visited<R>(accounts: seq<string>, body: string -> Pass<R>): (n: nat)
    ensures n <= |accounts|
    ensures forall i :: 0 <= i < n - 1 ==> !body(accounts[i]).escaped
    ensures n < |accounts| ==> 0 < n && body(accounts[n - 1]).escaped
  {
    if |accounts| == 0 then 0
    else if body(accounts[0]).escaped then 1
    else 1 + Visited(accounts[1..], body)
  }

  /** `main`'s loop over the accounts inside one `try`: an exception escaping
      an account's pass ends the run, so later accounts are never visited. */
  function ForEachAccount<R>(accounts: seq<string>, body: string -> Pass<R>): (s: Sweep<R>)
    ensures |s.outputs| <= |accounts| && |s.roleArns| == |s.outputs|
    ensures forall i :: 0 <= i < |s.outputs| ==>
      s.outputs[i] == body(accounts[i]).output && s.roleArns[i] == RoleArn(accounts[i])
    ensures forall i :: 0 <= i < |s.outputs| - 1 ==> !body(accounts[i]).escaped
    ensures s.aborted ==> 0 < |s.outputs| && body(accounts[|s.outputs| - 1]).escaped
    ensures !s.aborted ==> |s.outputs| == |accounts|
  {
    var n := Visited(accounts, body);
    Sweep(seq(n, i requires 0 <= i < n => body(accounts[i]).output),
          seq(n, i requires 0 <= i < n => RoleArn(accounts[i])),
          0 < n && body(accounts[n - 1]).escaped)
  }

  /** The run ends early exactly when some account's pass lets an exception
      escape, and then it ends at the first such account. */
  lemma ForEachAccountAborts<R>(accounts: seq<string>, body: string -> Pass<R>)
    ensures ForEachAccount(accounts, body).aborted <==>
      exists i :: 0 <= i < |accounts| && body(accounts[i]).escaped
  {
    var n := Visited(accounts, body);
    assert ForEachAccount(accounts, body).aborted <==> 0 < n && body(accounts[n - 1]).escaped;
    if i :| 0 <= i < |accounts| && body(accounts[i]).escaped {
      assert n < |accounts| || i == n - 1;
    }
  }

  /** `main` of the scripts that read a plain account list: a malformed list
      ends the run before any account is visited. */
  function RunAccounts<R>(accountCsv: seq<seq<string>>, body: string -> Pass<R>): (s: Sweep<R>)
    ensures ReadCsv(accountCsv).None? ==> s.outputs == [] && s.roleArns == [] && s.aborted
    ensures ReadCsv(accountCsv).Some? ==>
      var accounts := ReadCsv(accountCsv).value;
      && |s.outputs| <= |accounts| && |s.roleArns| == |s.outputs|
      && (forall i :: 0 <= i < |s.outputs| ==>
            s.outputs[i] == body(accounts[i]).output && s.roleArns[i] == RoleArn(accounts[i]))
      && (forall i :: 0 <= i < |s.outputs| - 1 ==> !body(accounts[i]).escaped)
      && (!s.aborted ==> |s.outputs| == |accounts|)
      && (s.aborted <==> exists i :: 0 <= i < |accounts| && body(accounts[i]).escaped)
  {
    match ReadCsv(accountCsv)
    case None => Sweep([], [], true)
    case Some(accounts) =>
      ForEachAccountAborts(accounts, body);
      ForEachAccount(accounts, body)
  }

  /** The region the scripts that walk all regions never query. */
  const SkippedRegion := "ap-southeast-4"

  /** A resource and the region it was listed in. */
  datatype Located<X> = Located(region: string, item: X)

  /** The resources listed region by region, in region order, leaving out
      `SkippedRegion` without querying it. */
  function RegionSweep<X>(regions: seq<string>, fetch: string -> seq<X>): (r: seq<Located<X>>)
    ensures forall i :: 0 <= i < |r| ==>
      r[i].region != SkippedRegion && r[i].region in regions && r[i].item in fetch(r[i].region)
    ensures forall i, j :: 0 <= i < |regions| && regions[i] != SkippedRegion && 0 <= j < |fetch(regions[i])| ==>
      Located(regions[i], fetch(regions[i])[j]) in r
  {
    if |regions| == 0 then []
    else if regions[0] == SkippedRegion then RegionSweep(regions[1..], fetch)
    else
      var here := Project((x: X) => Located(regions[0], x), fetch(regions[0]));
      var rest := RegionSweep(regions[1..], fetch);
      assert forall i :: 1 <= i < |regions| ==> regions[1..][i - 1] == regions[i];
      here + rest
  }

  /** Sweeping the regions of `a` and then those of `b` lists the resources
      of the sweep of `a` followed by those of the sweep of `b`: region order
      is kept, and nothing is merged or dropped between regions. */
  lemma {:induction false} RegionSweepConcat<X>(a: seq<string>, b: seq<string>, fetch: string -> seq<X>)
    ensures RegionSweep(a + b, fetch) == RegionSweep(a, fetch) + RegionSweep(b, fetch)
  {
    if |a| == 0 {
      assert a + b == b;
    } else {
      assert (a + b)[0] == a[0];
      assert (a + b)[1..] == a[1..] + b;
      RegionSweepConcat(a[1..], b, fetch);
    }
  }

  /** The sweep of one region other than `SkippedRegion` lists what the
      region answers, in its order and with its repetitions. */
  lemma RegionSweepSingle<X>(region: string, fetch: string -> seq<X>)
    ensures region == SkippedRegion ==> RegionSweep([region], fetch) == []
    ensures region != SkippedRegion ==>
      && |RegionSweep([region], fetch)| == |fetch(region)|
      && forall i :: 0 <= i < |fetch(region)| ==> RegionSweep([region], fetch)[i] == Located(region, fetch(region)[i])
  {
    assert [region][1..] == [];
  }

  /** What `SkippedRegion` would answer has no influence on the sweep. */
  lemma {:induction false} RegionSweepIgnoresSkipped<X>(regions: seq<string>, f: string -> seq<X>, g: string -> seq<X>)
    requires forall r :: r != SkippedRegion ==> f(r) == g(r)
    ensures RegionSweep(regions, f) == RegionSweep(regions, g)
  {
    if |regions| > 0 {
      RegionSweepIgnoresSkipped(regions[1..], f, g);
    }
  }
}
