/** The shape shared by the per-resource loops of the report scripts: the
    resources are visited in order, each visit writes some rows and makes
    some mutating calls, and an exception that a visit does not catch ends
    the loop (and, through `main`'s handler, the run) with whatever was
    written before it. */
module Scans {

  /** One visit: the rows it wrote, the calls it made, and whether an
      exception escaped it. */
  datatype Step<Y, C> = Step(rows: seq<Y>, calls: seq<C>, escaped: bool)

  /** What one account's pass leaves behind: the file it writes (its name,
      the header row and the data rows) and the calls it made. */
  datatype Report<Y, C> = Report(file: string, header: seq<string>, rows: seq<Y>, calls: seq<C>)

  /** The rows of the visits, visit after visit. */
  function RowsWritten<Y, C>(steps: seq<Step<Y, C>>): seq<Y>
  {
    if |steps| == 0 then [] else steps[0].rows + RowsWritten(steps[1..])
  }

  /** The calls of the visits, visit after visit. */
  function CallsMade<Y, C>(steps: seq<Step<Y, C>>): seq<C>
  {
    if |steps| == 0 then [] else steps[0].calls + CallsMade(steps[1..])
  }

  lemma {:induction false} WrittenConcat<Y, C>(xs: seq<Step<Y, C>>, ys: seq<Step<Y, C>>)
    ensures RowsWritten(xs + ys) == RowsWritten(xs) + RowsWritten(ys)
    ensures CallsMade(xs + ys) == CallsMade(xs) + CallsMade(ys)
  {
    if |xs| > 0 {
      assert (xs + ys)[1..] == xs[1..] + ys;
      WrittenConcat(xs[1..], ys);
    } else {
      assert xs + ys == ys;
    }
  }

  /** Visits that write one row each write, together, those rows in visit
      order. */
  lemma {:induction false} SingleRows<Y, C>(steps: seq<Step<Y, C>>)
    requires forall i :: 0 <= i < |steps| ==> |steps[i].rows| == 1
    ensures |RowsWritten(steps)| == |steps|
    ensures forall i :: 0 <= i < |steps| ==> RowsWritten(steps)[i] == steps[i].rows[0]
  {
    if |steps| > 0 {
      SingleRows(steps[1..]);
      forall i | 1 <= i < |steps| ensures RowsWritten(steps)[i] == steps[i].rows[0] {
        assert steps[1..][i - 1] == steps[i];
      }
    }
  }

  /** A loop whose visits write one row each, or none when they escape,
      writes one row per visit up to the escaping visit: the loop is
      abandoned exactly when it wrote fewer rows than there are visits. */
  lemma ScanSingleRows<Y, C>(steps: seq<Step<Y, C>>)
    requires forall i :: 0 <= i < |steps| ==> |steps[i].rows| == if steps[i].escaped then 0 else 1
    ensures var s := Scan(steps);
      && |s.rows| <= |steps|
      && (forall i :: 0 <= i < |s.rows| ==> !steps[i].escaped && s.rows[i] == steps[i].rows[0])
      && (!s.escaped <==> |s.rows| == |steps|)
  {
    var n := Reached(steps);
    var m := if n > 0 && steps[n - 1].escaped then n - 1 else n;
    DropRowless(steps, m, n);
    forall i | 0 <= i < m ensures |steps[..m][i].rows| == 1 {
      assert steps[..m][i] == steps[i];
    }
    SingleRows(steps[..m]);
    ReachedEscapes(steps);
  }

  /** A last visit that writes no row adds nothing to the rows. */
  lemma DropRowless<Y, C>(steps: seq<Step<Y, C>>, m: nat, n: nat)
    requires m <= n <= |steps| && (m == n || (m + 1 == n && steps[m].rows == []))
    ensures RowsWritten(steps[..n]) == RowsWritten(steps[..m])
  {
    assert steps[..n] == steps[..m] + steps[m..n];
    WrittenConcat(steps[..m], steps[m..n]);
    if m < n {
      assert steps[m..n] == [steps[m]];
    } else {
      assert steps[m..n] == [];
    }
  }

  /** Some visit escapes exactly when the last visit that takes place does. */
  lemma ReachedEscapes<Y, C>(steps: seq<Step<Y, C>>)
    ensures (exists i :: 0 <= i < |steps| && steps[i].escaped) <==>
      0 < Reached(steps) && steps[Reached(steps) - 1].escaped
  {
    var n := Reached(steps);
    if j :| 0 <= j < |steps| && steps[j].escaped {
      assert n < |steps| || j == n - 1;
    }
  }

  /** A row is written exactly when some visit writes it; likewise a call. */
  lemma {:induction false} WrittenMember<Y, C>(steps: seq<Step<Y, C>>, y: Y, c: C)
    ensures y in RowsWritten(steps) <==> exists i :: 0 <= i < |steps| && y in steps[i].rows
    ensures c in CallsMade(steps) <==> exists i :: 0 <= i < |steps| && c in steps[i].calls
  {
    if |steps| > 0 {
      WrittenMember(steps[1..], y, c);
      assert forall i :: 1 <= i < |steps| ==> steps[1..][i - 1] == steps[i];
      if y in RowsWritten(steps) && y !in steps[0].rows {
        var i :| 0 <= i < |steps[1..]| && y in steps[1..][i].rows;
        assert y in steps[i + 1].rows;
      }
      if c in CallsMade(steps) && c !in steps[0].calls {
        var i :| 0 <= i < |steps[1..]| && c in steps[1..][i].calls;
        assert c in steps[i + 1].calls;
      }
    }
  }

  /** How many visits take place: up to and including the first that lets
      an exception escape. */
  function Reached<Y, C>(steps: seq<Step<Y, C>>): (n: nat)
    ensures n <= |steps|
    ensures forall i :: 0 <= i < n - 1 ==> !steps[i].escaped
    ensures n < |steps| ==> 0 < n && steps[n - 1].escaped
  {
    if |steps| == 0 then 0
    else if steps[0].escaped then 1
    else 1 + Reached(steps[1..])
  }

  /** The loop: the visits in order until one lets an exception escape.
      Its rows and calls are those of the visits that took place, and the
      loop is abandoned exactly when some visit escapes. */
  function Scan<Y, C>(steps: seq<Step<Y, C>>): (s: Step<Y, C>)
    ensures s.rows == RowsWritten(steps[..Reached(steps)])
    ensures s.calls == CallsMade(steps[..Reached(steps)])
    ensures s.escaped <==> exists i :: 0 <= i < |steps| && steps[i].escaped
  {
    if |steps| == 0 then Step([], [], false)
    else if steps[0].escaped then
      assert steps[..1][1..] == [];
      Step(steps[0].rows, steps[0].calls, true)
    else
      var rest := Scan(steps[1..]);
      assert steps[..Reached(steps)][1..] == steps[1..][..Reached(steps[1..])];
      assert forall i :: 1 <= i < |steps| ==> steps[1..][i - 1] == steps[i];
      Step(steps[0].rows + rest.rows, steps[0].calls + rest.calls, rest.escaped)
  }

  /** What the loop writes is a prefix of what the visits would write if
      none of them escaped, and all of it when none does. */
  lemma ScanPrefix<Y, C>(steps: seq<Step<Y, C>>)
    ensures Scan(steps).rows <= RowsWritten(steps)
    ensures Scan(steps).calls <= CallsMade(steps)
    ensures !Scan(steps).escaped ==>
      Scan(steps).rows == RowsWritten(steps) && Scan(steps).calls == CallsMade(steps)
  {
    var n := Reached(steps);
    assert steps == steps[..n] + steps[n..];
    WrittenConcat(steps[..n], steps[n..]);
    if !Scan(steps).escaped {
      assert steps[..n] == steps;
    }
  }

  /** Every row the loop writes, and every call it makes, comes from one
      visit that took place. */
  lemma ScanMember<Y, C>(steps: seq<Step<Y, C>>, y: Y, c: C)
    ensures y in Scan(steps).rows ==> exists i :: 0 <= i < |steps| && y in steps[i].rows
    ensures c in Scan(steps).calls ==> exists i :: 0 <= i < |steps| && c in steps[i].calls
  {
    var n := Reached(steps);
    WrittenMember(steps[..n], y, c);
    if y in Scan(steps).rows {
      var i :| 0 <= i < n && y in steps[..n][i].rows;
      assert y in steps[i].rows;
    }
    if c in Scan(steps).calls {
      var i :| 0 <= i < n && c in steps[..n][i].calls;
      assert c in steps[i].calls;
    }
  }
}
