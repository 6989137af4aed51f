/** The most frequent value of a column, as `Series.mode()[0]` delivers it.
    pandas' order among equally frequent values is not part of the model:
    the script is stated for every picker that returns some most frequent
    non-null value, and nothing at all when the column holds no value. */
module Modes {
  import opened Wrappers
  import opened Seqs
  import opened Frame

  predicate HasValue(col: seq<Cell>) {
    exists i :: 0 <= i < |col| && col[i] != Null
  }

  /** `m` is a non-null value of `col` that no other value outnumbers. */
  ghost predicate IsModeOf(col: seq<Cell>, m: Cell) {
    && m != Null
    && m in col
    && forall i :: 0 <= i < |col| && col[i] != Null ==> Count(col, col[i]) <= Count(col, m)
  }

  /** `pick` behaves like `col.mode()[0]`: it fails (None, where pandas
      raises) exactly on a column without values, and otherwise returns a
      most frequent value. */
  ghost predicate IsModePicker(pick: seq<Cell> -> Option<Cell>) {
    forall col :: && (pick(col).Some? <==> HasValue(col))
                  && (pick(col).Some? ==> IsModeOf(col, pick(col).value))
  }

  /** The first value of `col[..k]` that occurs most often in all of `col`,
      or Null when `col[..k]` has no value. */
  function Leader(col: seq<Cell>, k: nat): (m: Cell)
    requires k <= |col|
    ensures m == Null <==> forall i :: 0 <= i < k ==> col[i] == Null
    ensures m != Null ==> exists i :: 0 <= i < k && col[i] == m
    ensures forall i :: 0 <= i < k && col[i] != Null ==> Count(col, col[i]) <= Count(col, m)
  {
    if k == 0 then Null
    else
      var m := Leader(col, k - 1);
      var c := col[k - 1];
      if c != Null && (m == Null || Count(col, m) < Count(col, c)) then c else m
  }

  /** One picker with a first-seen tie-break; it shows that pickers exist. */
  function FirstMode(col: seq<Cell>): Option<Cell> {
    var m := Leader(col, |col|);
    if m == Null then None else Some(m)
  }

  lemma FirstModeIsPicker()
    ensures IsModePicker(FirstMode)
  {
    forall col
      ensures && (FirstMode(col).Some? <==> HasValue(col))
              && (FirstMode(col).Some? ==> IsModeOf(col, FirstMode(col).value))
    {
      var m := Leader(col, |col|);
      if m != Null {
        var i :| 0 <= i < |col| && col[i] == m;
      }
    }
  }

  /** Replacing the null and `token` cells of a column by one of its modes
      leaves that value a mode of the new column: its count only grows, the
      other values keep theirs, and `token` itself disappears. */
  lemma ModeSurvivesImputation(a: seq<Cell>, b: seq<Cell>, token: Cell, m: Cell)
    requires |a| == |b|
    requires forall i :: 0 <= i < |a| ==> b[i] == (if a[i] == Null || a[i] == token then m else a[i])
    requires IsModeOf(a, m)
    ensures IsModeOf(b, m)
  {
    var j :| 0 <= j < |a| && a[j] == m;
    assert b[j] == m;
    CountMonotone(a, b, m);
    forall i | 0 <= i < |b| && b[i] != Null
      ensures Count(b, b[i]) <= Count(b, m)
    {
      if b[i] != m {
        CountSamePositions(a, b, b[i]);
      }
    }
  }
}
