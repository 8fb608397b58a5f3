/** Result tables: a header row followed by one row per item, built by a loop that stops at the first failing item. */
module Tables {
  import opened Results

  /** A row as the scraper builds it: a tuple of three strings. */
  type Row = (string, string, string)

  /**
   * The rows that `for x in xs: rows.append(step(x))` builds, or the error of
   * the first item whose step fails. Defined from the back, as the loop appends.
   */
  function Collect<T>(xs: seq<T>, step: T -> Result<Row>): Result<seq<Row>>
    decreases |xs|
  {
    if xs == [] then Ok([])
    else
      match Collect(xs[..|xs| - 1], step)
      case Err(e) => Err(e)
      case Ok(rows) =>
        match step(xs[|xs| - 1])
        case Err(e) => Err(e)
        case Ok(row) => Ok(rows + [row])
  }

  /** Once a prefix fails, the whole run fails with the same error. */
  lemma {:induction false} CollectPrefixErr<T>(xs: seq<T>, n: nat, step: T -> Result<Row>)
    requires n <= |xs| && Collect(xs[..n], step).Err?
    ensures Collect(xs, step) == Collect(xs[..n], step)
    decreases |xs| - n
  {
    if n < |xs| {
      assert xs[..n + 1][..n] == xs[..n];
      CollectPrefixErr(xs, n + 1, step);
    } else {
      assert xs[..n] == xs;
    }
  }

  /** The run succeeds exactly when every item's step succeeds, and then row k is item k's row. */
  lemma {:induction false} CollectOk<T>(xs: seq<T>, step: T -> Result<Row>)
    ensures Collect(xs, step).Ok? <==> forall k :: 0 <= k < |xs| ==> step(xs[k]).Ok?
    ensures Collect(xs, step).Ok? ==>
      && |Collect(xs, step).value| == |xs|
      && forall k :: 0 <= k < |xs| ==> Collect(xs, step).value[k] == step(xs[k]).value
    decreases |xs|
  {
    if xs != [] {
      var init := xs[..|xs| - 1];
      CollectOk(init, step);
      assert forall k :: 0 <= k < |init| ==> init[k] == xs[k];
    }
  }

  /** Item `k` is the first item whose step fails. */
  predicate FirstFailure<T>(xs: seq<T>, step: T -> Result<Row>, k: int) {
    0 <= k < |xs| && step(xs[k]).Err? && forall j :: 0 <= j < k ==> step(xs[j]).Ok?
  }

  /** A failed run reports the error of its first failing item. */
  lemma {:induction false} CollectErr<T>(xs: seq<T>, step: T -> Result<Row>)
    requires Collect(xs, step).Err?
    ensures exists k :: FirstFailure(xs, step, k) && step(xs[k]).error == Collect(xs, step).error
    decreases |xs|
  {
    var init := xs[..|xs| - 1];
    assert forall k :: 0 <= k < |init| ==> init[k] == xs[k];
    if Collect(init, step).Err? {
      CollectErr(init, step);
      var k :| FirstFailure(init, step, k) && step(init[k]).error == Collect(init, step).error;
      assert FirstFailure(xs, step, k);
    } else {
      CollectOk(init, step);
      assert FirstFailure(xs, step, |xs| - 1);
    }
  }

  /** Behind a header row, row k of the loop sits at index k + 1. */
  lemma HeaderShift(header: Row, rows: seq<Row>)
    ensures forall k :: 0 <= k < |rows| ==> ([header] + rows)[k + 1] == rows[k]
  {
  }
}
