/**
 * The orderBy parser of the generic controller (sort and single). A sort is the
 * ordered list of (column, direction) pairs a Panache Sort holds; the null sort is None.
 *
 * Panache's Sort is read as follows: by(c) and and(c) add column c ascending,
 * by(c, d) and and(c, d) add it with direction d, and ascending() / descending()
 * re-set the direction of EVERY column added so far.
 */
module OrderBy {
  import opened JavaText
  import opened Failures

  datatype Direction = Ascending | Descending

  datatype Column = Column(name: string, direction: Direction)

  type Sort = seq<Column>

  /** sort.ascending() / sort.descending(): every column takes the direction d. */
  function WithDirection(s: Sort, d: Direction): (r: Sort)
    ensures |r| == |s|
    ensures forall i :: 0 <= i < |s| ==> r[i] == Column(s[i].name, d)
  {
    seq(|s|, i requires 0 <= i < |s| => Column(s[i].name, d))
  }

  /** Re-setting the one column of a sort to the direction it already has changes nothing. */
  lemma WithDirectionSingle(name: string, d: Direction)
    ensures WithDirection([Column(name, d)], d) == [Column(name, d)]
  {
  }

  /** The RuntimeException single throws for a direction token that is neither asc nor desc. */
  const NOT_USABLE := Unclassified("sort is not usable")

  /** A clause is split on ':' when it holds one, on ' ' otherwise. */
  function ClausePieces(clause: string): seq<string> {
    if ':' in clause then Split(clause, ':') else Split(clause, ' ')
  }

  /** A bare clause is one that splits into at most one piece: it names no direction. */
  predicate IsBare(clause: string) {
    |ClausePieces(clause)| <= 1
  }

  /** The direction a second piece names, compared ignoring case. */
  function DirectionToken(token: string): Option<Direction> {
    if EqualsIgnoreCase(token, "asc") then Some(Ascending)
    else if EqualsIgnoreCase(token, "desc") then Some(Descending)
    else None
  }

  /** A clause single accepts: bare, or with a second piece that is asc or desc. */
  predicate IsUsable(clause: string) {
    IsBare(clause) || DirectionToken(ClausePieces(clause)[1]).Some?
  }

  /** The column a clause names: the whole clause when bare, its first piece otherwise. */
  function ClauseField(clause: string): string {
    if IsBare(clause) then clause else ClausePieces(clause)[0]
  }

  /** The direction a clause writes; a bare clause writes none and starts ascending. */
  function ClauseDirection(clause: string): Direction
    requires IsUsable(clause)
  {
    if IsBare(clause) then Ascending else DirectionToken(ClausePieces(clause)[1]).value
  }

  function Length(sort: Option<Sort>): nat {
    if sort.Some? then |sort.value| else 0
  }

  /** single(sort, orderBy): appends one clause to the sort built so far (null at first). */
  function Single(sort: Option<Sort>, clause: string): (r: Result<Sort>)
    ensures r.Ok? <==> IsUsable(clause)
    ensures r.Err? ==> r == Err(NOT_USABLE)
    ensures r.Ok? ==> |r.value| == Length(sort) + 1 && r.value[Length(sort)].name == ClauseField(clause)
    ensures r.Ok? ==> forall i :: 0 <= i < Length(sort) ==> r.value[i].name == sort.value[i].name
  {
    var pieces := ClausePieces(clause);
    if |pieces| > 1 then
      var d := DirectionToken(pieces[1]);
      if d.None? then Err(NOT_USABLE)
      else if sort.Some? then Ok(sort.value + [Column(pieces[0], d.value)])
      else Ok([Column(pieces[0], d.value)])
    else if sort.Some? then Ok(WithDirection(sort.value + [Column(clause, Ascending)], Descending))
    else Ok(WithDirection([Column(clause, Ascending)], Ascending))
  }

  /**
   * Column i ends up descending, whatever its clause wrote, when some bare clause at a
   * position j >= i other than the first is appended later (its descending() re-sets it).
   */
  predicate ResetDescending(clauses: seq<string>, i: int) {
    exists j :: 1 <= j < |clauses| && i <= j && IsBare(clauses[j])
  }

  predicate AllUsable(clauses: seq<string>) {
    forall i :: 0 <= i < |clauses| ==> IsUsable(clauses[i])
  }

  /** The columns a list of usable clauses yields, one per clause in written order. */
  function ExpectedColumns(clauses: seq<string>): (s: Sort)
    requires AllUsable(clauses)
    ensures |s| == |clauses|
  {
    seq(|clauses|, i requires 0 <= i < |clauses| =>
      Column(ClauseField(clauses[i]),
             if ResetDescending(clauses, i) then Descending else ClauseDirection(clauses[i])))
  }

  /**
   * What folding single over the clauses yields, stated without the fold: a failure when
   * any clause is unusable, the null sort for no clause, the expected columns otherwise.
   */
  function Expected(clauses: seq<string>): Result<Option<Sort>> {
    if !AllUsable(clauses) then Err(NOT_USABLE)
    else if clauses == [] then Ok(None)
    else Ok(Some(ExpectedColumns(clauses)))
  }

  /**
   * The default descriptor: if its lower case holds "asc", every "asc" is removed and
   * the trimmed rest is sorted ascending; else the same with "desc", descending; else null.
   */
  function DefaultSort(defaultOrderBy: Option<string>): (r: Option<Sort>)
    ensures r.Some? <==> defaultOrderBy.Some? && !IsBlank(defaultOrderBy.value)
                         && (Contains(Lower(defaultOrderBy.value), "asc") || Contains(Lower(defaultOrderBy.value), "desc"))
    ensures r.Some? ==> |r.value| == 1
    ensures r.Some? ==> (r.value[0].direction == Ascending <==> Contains(Lower(defaultOrderBy.value), "asc"))
  {
    if defaultOrderBy.Some? && !IsBlank(defaultOrderBy.value) then
      var lower := Lower(defaultOrderBy.value);
      if Contains(lower, "asc") then Some(WithDirection([Column(Trim(RemoveAll(lower, "asc")), Ascending)], Ascending))
      else if Contains(lower, "desc") then Some(WithDirection([Column(Trim(RemoveAll(lower, "desc")), Descending)], Descending))
      else None
    else None
  }

  /** What sort(orderBy) returns or throws, given the resource's default descriptor. */
  function SortSpec(orderBy: Option<string>, defaultOrderBy: Option<string>): Result<Option<Sort>> {
    if orderBy.Some? && !IsBlank(orderBy.value) then
      var lower := Lower(orderBy.value);
      if ',' in lower then Expected(Split(lower, ',')) else Expected([lower])
    else Ok(DefaultSort(defaultOrderBy))
  }

  /** A usable clause after usable ones keeps the whole prefix usable. */
  lemma UsableSnoc(clauses: seq<string>, k: nat)
    requires k < |clauses| && AllUsable(clauses[..k]) && IsUsable(clauses[k])
    ensures AllUsable(clauses[..k + 1])
  {
    var p, q := clauses[..k + 1], clauses[..k];
    assert forall i :: 0 <= i <= k ==> p[i] == clauses[i];
    assert forall i :: 0 <= i < k ==> q[i] == clauses[i];
    assert forall i :: 0 <= i < k ==> IsUsable(q[i]);
  }

  /** On the first m clauses, a column is re-set by a bare clause at a position below m. */
  lemma ResetPrefix(clauses: seq<string>, m: nat, i: int)
    requires m <= |clauses|
    ensures ResetDescending(clauses[..m], i) <==> exists j :: 1 <= j < m && i <= j && IsBare(clauses[j])
  {
    var p := clauses[..m];
    assert forall j :: 0 <= j < m ==> p[j] == clauses[j];
  }

  /** A clause that names its direction re-sets no column, so earlier columns keep theirs. */
  lemma ResetUnderPlain(clauses: seq<string>, k: nat, i: nat)
    requires i <= k < |clauses| && !IsBare(clauses[k])
    ensures ResetDescending(clauses[..k + 1], i) <==> i < k && ResetDescending(clauses[..k], i)
  {
    ResetPrefix(clauses, k + 1, i);
    ResetPrefix(clauses, k, i);
    if j :| 1 <= j < k + 1 && i <= j && IsBare(clauses[j]) {
      assert j != k;
      assert 1 <= j < k && i <= j && IsBare(clauses[j]);
    }
  }

  /** A bare clause other than the first re-sets every column up to its own. */
  lemma ResetUnderBare(clauses: seq<string>, k: nat, i: nat)
    requires 1 <= k < |clauses| && i <= k && IsBare(clauses[k])
    ensures ResetDescending(clauses[..k + 1], i)
  {
    assert clauses[..k + 1][k] == clauses[k];
  }

  /** One turn of the loop in sort: single appends clause k to the columns of clauses[..k]. */
  lemma SingleExtends(clauses: seq<string>, k: nat)
    requires k < |clauses| && AllUsable(clauses[..k]) && IsUsable(clauses[k])
    ensures AllUsable(clauses[..k + 1])
    ensures Single(if k == 0 then None else Some(ExpectedColumns(clauses[..k])), clauses[k])
            == Ok(ExpectedColumns(clauses[..k + 1]))
  {
    UsableSnoc(clauses, k);
    var before, after := clauses[..k], clauses[..k + 1];
    var prev := if k == 0 then None else Some(ExpectedColumns(before));
    var c := clauses[k];
    assert after[k] == c;
    var r := Single(prev, c).value;
    var want := ExpectedColumns(after);
    forall i | 0 <= i <= k ensures r[i] == want[i] {
      assert after[i] == clauses[i];
      if i < k {
        assert before[i] == clauses[i];
      }
      if IsBare(c) {
        if k == 0 {
          assert !ResetDescending(after, 0);
        } else {
          ResetUnderBare(clauses, k, i);
          assert r == WithDirection(prev.value + [Column(c, Ascending)], Descending);
          if i < k {
            assert (prev.value + [Column(c, Ascending)])[i] == prev.value[i];
          }
        }
      } else {
        ResetUnderPlain(clauses, k, i);
        if k == 0 {
          assert r == [Column(ClausePieces(c)[0], ClauseDirection(c))];
        } else {
          assert r == prev.value + [Column(ClausePieces(c)[0], ClauseDirection(c))];
        }
      }
    }
    assert r == want;
  }

  /** single(null, clause) on a text without commas is the parse of that one clause. */
  lemma SingleOfOne(c: string)
    ensures Expected([c]) == if Single(None, c).Ok? then Ok(Some(Single(None, c).value)) else Err(Single(None, c).failure)
  {
    assert [c][..0] == [] && [c][..1] == [c];
    if IsUsable(c) {
      SingleExtends([c], 0);
    } else {
      assert [c][0] == c && !IsUsable([c][0]);
    }
  }

  /**
   * The for loop of sort (lines 229-233): folds single over the comma-separated clauses,
   * starting from the null sort. Err is the RuntimeException that ends the loop.
   */
  method SingleAll(clauses: seq<string>) returns (r: Result<Option<Sort>>)
    ensures r == Expected(clauses)
  {
    var sort: Option<Sort> := None;
    for k := 0 to |clauses|
      invariant AllUsable(clauses[..k])
      invariant sort == if k == 0 then None else Some(ExpectedColumns(clauses[..k]))
    {
      var next := Single(sort, clauses[k]);
      if next.Err? {
        assert !IsUsable(clauses[k]);
        return Err(next.failure);
      }
      SingleExtends(clauses, k);
      sort := Some(next.value);
    }
    assert clauses[..|clauses|] == clauses;
    return Ok(sort);
  }

  /**
   * sort(orderBy), lines 223-247: lower-cases a non-blank orderBy and folds single over
   * its comma-separated clauses (or applies it once when there is no comma); a blank or
   * null orderBy falls back to the default descriptor. Err is the thrown RuntimeException.
   */
  method SortOf(orderBy: Option<string>, defaultOrderBy: Option<string>) returns (r: Result<Option<Sort>>)
    ensures r == SortSpec(orderBy, defaultOrderBy)
  {
    if orderBy.Some? && !IsBlank(orderBy.value) {
      var lower := Lower(orderBy.value);
      if ',' in lower {
        r := SingleAll(Split(lower, ','));
      } else {
        var single := Single(None, lower);
        SingleOfOne(lower);
        if single.Err? {
          return Err(single.failure);
        }
        r := Ok(Some(single.value));
      }
    } else {
      r := Ok(DefaultSort(defaultOrderBy));
    }
  }
}
