/**
 * Properties of the orderBy parser: how clauses turn into columns, when the
 * default descriptor is used, and the worked examples of the parser's rules.
 */
module OrderByFacts {
  import opened JavaText
  import opened Failures
  import opened OrderBy

  /** Each clause contributes one column, in the order the clauses are written. */
  lemma ColumnsInWrittenOrder(clauses: seq<string>)
    requires Expected(clauses).Ok? && clauses != []
    ensures var s := Expected(clauses).value;
            s.Some? && |s.value| == |clauses|
            && forall i :: 0 <= i < |clauses| ==> s.value[i].name == ClauseField(clauses[i])
  {
  }

  /** The parse fails exactly when some clause has a second piece that is neither asc nor desc. */
  lemma FailsIffUnusableClause(clauses: seq<string>)
    ensures Expected(clauses).Err? <==> exists i :: 0 <= i < |clauses| && !IsUsable(clauses[i])
    ensures Expected(clauses).Err? ==> Expected(clauses).failure == NOT_USABLE
  {
  }

  /** When every clause names its direction, every column keeps the direction written for it. */
  lemma WrittenDirectionsKept(clauses: seq<string>)
    requires forall i :: 0 <= i < |clauses| ==> !IsBare(clauses[i]) && IsUsable(clauses[i])
    requires clauses != []
    ensures Expected(clauses).Ok? && Expected(clauses).value.Some?
    ensures forall i :: 0 <= i < |clauses| ==>
              Expected(clauses).value.value[i] == Column(ClausePieces(clauses[i])[0], DirectionToken(ClausePieces(clauses[i])[1]).value)
  {
    forall i | 0 <= i < |clauses| ensures !ResetDescending(clauses, i) {
    }
  }

  /** A bare clause after the first one turns every column up to its own descending. */
  lemma LaterBareClauseDescendsAll(clauses: seq<string>, j: nat)
    requires Expected(clauses).Ok? && 1 <= j < |clauses| && IsBare(clauses[j])
    ensures forall i :: 0 <= i <= j ==> Expected(clauses).value.value[i].direction == Descending
  {
    forall i | 0 <= i <= j ensures ResetDescending(clauses, i) {
      assert 1 <= j < |clauses| && i <= j && IsBare(clauses[j]);
    }
  }

  /** A bare clause that starts the list is ascending. */
  lemma FirstBareClauseAscends(clause: string)
    requires IsBare(clause)
    ensures Expected([clause]) == Ok(Some([Column(clause, Ascending)]))
  {
    var cs := [clause];
    assert cs[0] == clause;
    assert AllUsable(cs);
    assert !ResetDescending(cs, 0);
    var e := ExpectedColumns(cs);
    assert e[0] == Column(ClauseField(clause), ClauseDirection(clause));
    assert e == [Column(clause, Ascending)];
  }

  /** The default descriptor is consulted only for a null or blank orderBy. */
  lemma DefaultOnlyWhenBlank(orderBy: Option<string>, d1: Option<string>, d2: Option<string>)
    ensures orderBy.Some? && !IsBlank(orderBy.value) ==> SortSpec(orderBy, d1) == SortSpec(orderBy, d2)
    ensures orderBy.None? || IsBlank(orderBy.value) ==> SortSpec(orderBy, d1) == Ok(DefaultSort(d1))
  {
  }

  lemma NotBlank(s: string, i: nat)
    requires i < |s| && !IsTrimmable(s[i])
    ensures !IsBlank(s)
  {
    BlankIffAllTrimmable(s);
  }

  /** A clause "field<sep>token" with one separator splits into its two sides. */
  lemma ClauseOfTwo(field: string, token: string, sep: char)
    requires sep == ':' || (sep == ' ' && ':' !in field && ':' !in token)
    requires sep !in field && sep !in token && token != []
    ensures ClausePieces(field + [sep] + token) == [field, token]
  {
    SplitTwo(field, token, sep);
    assert (field + [sep] + token)[|field|] == sep;
  }

  lemma TwoClausesLower()
    ensures Lower("name:asc,price:desc") == "name:asc,price:desc"
  {
    LowerOfLowerCase("name:asc,price:desc");
  }

  lemma TwoClausesNotBlank()
    ensures !IsBlank("name:asc,price:desc")
  {
    NotBlank("name:asc,price:desc", 0);
  }

  lemma TwoClausesSplit()
    ensures Split("name:asc,price:desc", ',') == ["name:asc", "price:desc"]
  {
    assert "name:asc,price:desc" == "name:asc" + [','] + "price:desc";
    SplitTwo("name:asc", "price:desc", ',');
  }

  /** A clause "field:token" whose token is asc or desc in lower case names that direction. */
  lemma ExplicitClause(field: string, token: string, d: Direction)
    requires ':' !in field && token == (if d == Ascending then "asc" else "desc")
    ensures !IsBare(field + [':'] + token) && IsUsable(field + [':'] + token)
    ensures ClauseField(field + [':'] + token) == field
    ensures ClauseDirection(field + [':'] + token) == d
  {
    ClauseOfTwo(field, token, ':');
    LowerOfLowerCase("asc");
    LowerOfLowerCase("desc");
  }

  /** Two clauses that both name their directions give the two columns as written. */
  lemma TwoExplicit(c1: string, c2: string)
    requires !IsBare(c1) && IsUsable(c1) && !IsBare(c2) && IsUsable(c2)
    ensures Expected([c1, c2]) == Ok(Some([Column(ClauseField(c1), ClauseDirection(c1)),
                                           Column(ClauseField(c2), ClauseDirection(c2))]))
  {
    var cs := [c1, c2];
    assert cs[0] == c1 && cs[1] == c2;
    assert AllUsable(cs);
    assert !ResetDescending(cs, 0) && !ResetDescending(cs, 1);
    var e := ExpectedColumns(cs);
    assert e[0] == Column(ClauseField(c1), ClauseDirection(c1));
    assert e[1] == Column(ClauseField(c2), ClauseDirection(c2));
    assert e == [Column(ClauseField(c1), ClauseDirection(c1)), Column(ClauseField(c2), ClauseDirection(c2))];
    assert Expected(cs) == Ok(Some(e));
  }

  lemma TwoClausesParsed()
    ensures Expected(["name:asc", "price:desc"]) == Ok(Some([Column("name", Ascending), Column("price", Descending)]))
  {
    assert "name:asc" == "name" + [':'] + "asc";
    ExplicitClause("name", "asc", Ascending);
    assert "price:desc" == "price" + [':'] + "desc";
    ExplicitClause("price", "desc", Descending);
    TwoExplicit("name:asc", "price:desc");
  }

  /** "name:asc,price:desc" gives [(name, asc), (price, desc)]. */
  lemma TwoClausesExample()
    ensures SortSpec(Some("name:asc,price:desc"), None)
            == Ok(Some([Column("name", Ascending), Column("price", Descending)]))
  {
    TwoClausesLower();
    TwoClausesNotBlank();
    TwoClausesSplit();
    TwoClausesParsed();
  }
}
