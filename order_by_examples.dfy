/**
 * Worked examples of the orderBy rules, each reduced to the general lemmas by a few
 * small facts about the literal strings involved.
 */
module OrderByExamples {
  import opened JavaText
  import opened Failures
  import opened OrderBy
  import opened OrderByFacts

  /** A single clause yields its one column, or fails when it is unusable. */
  lemma OneClause(c: string)
    ensures IsUsable(c) ==> Expected([c]) == Ok(Some([Column(ClauseField(c), ClauseDirection(c))]))
    ensures !IsUsable(c) ==> Expected([c]) == Err(NOT_USABLE)
  {
    var cs := [c];
    assert cs[0] == c;
    if IsUsable(c) {
      assert AllUsable(cs);
      assert !ResetDescending(cs, 0);
      var e := ExpectedColumns(cs);
      assert e == [Column(ClauseField(c), ClauseDirection(c))];
    }
  }

  /** A non-blank orderBy without a comma that is already lower case is parsed as one clause. */
  lemma NoCommaIsOneClause(s: string, d: Option<string>)
    requires !IsBlank(s) && Lower(s) == s && ',' !in s
    ensures SortSpec(Some(s), d) == Expected([s])
  {
  }

  /** A usable one-clause orderBy already in lower case gives that clause's column. */
  lemma UsableOneClauseSpec(s: string, d: Option<string>)
    requires !IsBlank(s) && Lower(s) == s && ',' !in s && IsUsable(s)
    ensures SortSpec(Some(s), d) == Ok(Some([Column(ClauseField(s), ClauseDirection(s))]))
  {
    NoCommaIsOneClause(s, d);
    OneClause(s);
  }

  /** An unusable one-clause orderBy already in lower case is refused. */
  lemma UnusableOneClauseSpec(s: string, d: Option<string>)
    requires !IsBlank(s) && Lower(s) == s && ',' !in s && !IsUsable(s)
    ensures SortSpec(Some(s), d) == Err(NOT_USABLE)
  {
    NoCommaIsOneClause(s, d);
    OneClause(s);
  }

  /** A one-clause orderBy whose second piece is no direction is refused. */
  lemma NoDirectionSpec(s: string, field: string, token: string, d: Option<string>)
    requires !IsBlank(s) && Lower(s) == s && ',' !in s
    requires ClausePieces(s) == [field, token] && DirectionToken(token) == None
    ensures SortSpec(Some(s), d) == Err(NOT_USABLE)
  {
    UnusableOneClauseSpec(s, d);
  }

  /** A clause "field token" with one space splits like "field:token". */
  lemma SpacedClause(field: string, token: string, d: Direction)
    requires ':' !in field && ' ' !in field && token == (if d == Ascending then "asc" else "desc")
    ensures !IsBare(field + [' '] + token) && IsUsable(field + [' '] + token)
    ensures ClauseField(field + [' '] + token) == field
    ensures ClauseDirection(field + [' '] + token) == d
  {
    ClauseOfTwo(field, token, ' ');
    LowerOfLowerCase("asc");
    LowerOfLowerCase("desc");
  }

  lemma NameDescText()
    ensures !IsBlank("name desc") && Lower("name desc") == "name desc" && ',' !in "name desc"
  {
    NotBlank("name desc", 0);
    LowerOfLowerCase("name desc");
  }

  /** "name desc" gives [(name, desc)]. */
  lemma NameDescExample()
    ensures SortSpec(Some("name desc"), None) == Ok(Some([Column("name", Descending)]))
  {
    NameDescText();
    assert "name desc" == "name" + [' '] + "desc";
    SpacedClause("name", "desc", Descending);
    UsableOneClauseSpec("name desc", None);
  }

  lemma NameXyzText()
    ensures !IsBlank("name:xyz") && Lower("name:xyz") == "name:xyz" && ',' !in "name:xyz"
  {
    NotBlank("name:xyz", 0);
    LowerOfLowerCase("name:xyz");
  }

  /** Neither "xyz" nor "name" names a direction, in any case. */
  lemma ExampleWordsAreNoDirection()
    ensures DirectionToken("xyz") == None && DirectionToken("name") == None
  {
    LowerOfLowerCase("xyz");
    LowerOfLowerCase("name");
    LowerOfLowerCase("asc");
    LowerOfLowerCase("desc");
  }

  lemma NameXyzPieces()
    ensures ClausePieces("name:xyz") == ["name", "xyz"]
  {
    assert "name:xyz" == "name" + [':'] + "xyz";
    ClauseOfTwo("name", "xyz", ':');
  }

  /** "name:xyz" is rejected with "sort is not usable". */
  lemma NameXyzExample()
    ensures SortSpec(Some("name:xyz"), None) == Err(NOT_USABLE)
  {
    NameXyzText();
    NameXyzPieces();
    ExampleWordsAreNoDirection();
    NoDirectionSpec("name:xyz", "name", "xyz", None);
  }

  lemma LeadingSpaceNotBlank()
    ensures !IsBlank(" name")
  {
    NotBlank(" name", 1);
  }

  lemma LeadingSpaceLower()
    ensures Lower(" name") == " name" && ',' !in " name"
  {
    LowerOfLowerCase(" name");
  }

  lemma LeadingSpacePieces()
    ensures ClausePieces(" name") == ["", "name"]
  {
    assert " name" == [] + [' '] + "name";
    ClauseOfTwo([], "name", ' ');
  }

  /** " name" is not trimmed: it splits into "" and "name", and "name" is no direction. */
  lemma LeadingSpaceExample()
    ensures SortSpec(Some(" name"), None) == Err(NOT_USABLE)
  {
    LeadingSpaceNotBlank();
    LeadingSpaceLower();
    LeadingSpacePieces();
    ExampleWordsAreNoDirection();
    NoDirectionSpec(" name", "", "name", None);
  }

  lemma LoneCommaText()
    ensures !IsBlank(",") && Lower(",") == ","
  {
    assert Trim(",") == ",";
    LowerOfLowerCase(",");
  }

  lemma LoneCommaSplit()
    ensures Split(",", ',') == []
  {
    assert "," == [] + [','] + [];
    PiecesAtSeparator([], [], ',');
    assert Pieces(",", ',') == [[], []];
  }

  /** "," holds no clause: the result is the null sort, and the default is not consulted. */
  lemma LoneCommaExample(d: Option<string>)
    ensures SortSpec(Some(","), d) == Ok(None)
  {
    LoneCommaText();
    LoneCommaSplit();
    assert AllUsable([]);
  }

  /** An explicit clause followed by a bare one: both columns end up descending. */
  lemma ExplicitThenBare(c1: string, c2: string)
    requires !IsBare(c1) && IsUsable(c1) && IsBare(c2)
    ensures Expected([c1, c2]) == Ok(Some([Column(ClauseField(c1), Descending), Column(c2, Descending)]))
  {
    var cs := [c1, c2];
    assert cs[0] == c1 && cs[1] == c2;
    assert AllUsable(cs);
    LaterBareClauseDescendsAll(cs, 1);
    var e := ExpectedColumns(cs);
    assert e[0] == Column(ClauseField(c1), Descending);
    assert e[1] == Column(c2, Descending);
    assert e == [Column(ClauseField(c1), Descending), Column(c2, Descending)];
  }

  lemma AscThenBareText()
    ensures !IsBlank("name:asc,price") && Lower("name:asc,price") == "name:asc,price"
  {
    NotBlank("name:asc,price", 0);
    LowerOfLowerCase("name:asc,price");
  }

  lemma AscThenBareSplit()
    ensures Split("name:asc,price", ',') == ["name:asc", "price"]
  {
    assert "name:asc,price" == "name:asc" + [','] + "price";
    SplitTwo("name:asc", "price", ',');
  }

  lemma AscThenBareParsed()
    ensures Expected(["name:asc", "price"]) == Ok(Some([Column("name", Descending), Column("price", Descending)]))
  {
    assert "name:asc" == "name" + [':'] + "asc";
    ExplicitClause("name", "asc", Ascending);
    PriceIsBare();
    ExplicitThenBare("name:asc", "price");
  }

  lemma PriceIsBare()
    ensures IsBare("price")
  {
    assert ':' !in "price" && ' ' !in "price";
  }

  /** "name:asc,price": the bare second clause's descending() also re-sets name. */
  lemma AscThenBareExample()
    ensures SortSpec(Some("name:asc,price"), None)
            == Ok(Some([Column("name", Descending), Column("price", Descending)]))
  {
    AscThenBareText();
    AscThenBareSplit();
    AscThenBareParsed();
  }

  /** "name" alone is ascending. */
  lemma BareNameExample()
    ensures SortSpec(Some("name"), None) == Ok(Some([Column("name", Ascending)]))
  {
    NotBlank("name", 0);
    LowerOfLowerCase("name");
    NoCommaIsOneClause("name", None);
    assert ':' !in "name" && ' ' !in "name";
    FirstBareClauseAscends("name");
  }

  /** A descriptor holding "asc" sorts ascending on what is left once every "asc" is removed. */
  lemma DefaultWithAsc(d: string)
    requires !IsBlank(d) && Contains(Lower(d), "asc")
    ensures DefaultSort(Some(d)) == Some([Column(Trim(RemoveAll(Lower(d), "asc")), Ascending)])
  {
    WithDirectionSingle(Trim(RemoveAll(Lower(d), "asc")), Ascending);
  }

  /** A descriptor with "desc" but no "asc" sorts descending on what is left once every "desc" is removed. */
  lemma DefaultWithDesc(d: string)
    requires !IsBlank(d) && !Contains(Lower(d), "asc") && Contains(Lower(d), "desc")
    ensures DefaultSort(Some(d)) == Some([Column(Trim(RemoveAll(Lower(d), "desc")), Descending)])
  {
    WithDirectionSingle(Trim(RemoveAll(Lower(d), "desc")), Descending);
  }

  lemma NameAscText()
    ensures !IsBlank("name asc") && Lower("name asc") == "name asc"
  {
    NotBlank("name asc", 0);
    LowerOfLowerCase("name asc");
  }

  lemma NameAscContainsAsc()
    ensures Contains("name asc", "asc")
  {
    assert StartsWith("name asc"[5..], "asc");
    ContainsIffOccurs("name asc", "asc");
  }

  lemma RemoveNameAsc()
    ensures RemoveAll("name asc", "asc") == "name "
  {
    assert RemoveAll("asc", "asc") == [];
    assert RemoveAll(" asc", "asc") == " ";
    assert RemoveAll("e asc", "asc") == "e ";
    assert RemoveAll("me asc", "asc") == "me ";
    assert RemoveAll("ame asc", "asc") == "ame ";
  }

  lemma TrimNameSpace()
    ensures Trim("name ") == "name"
  {
    assert TrimStart("name ") == "name ";
    assert "name "[..4] == "name";
    assert TrimEnd("name ") == TrimEnd("name");
  }

  /** A null or blank orderBy with the default "name asc" sorts ascending on name. */
  lemma NameAscDefaultExample(orderBy: Option<string>)
    requires orderBy.None? || IsBlank(orderBy.value)
    ensures SortSpec(orderBy, Some("name asc")) == Ok(Some([Column("name", Ascending)]))
  {
    NameAscText();
    NameAscContainsAsc();
    DefaultWithAsc("name asc");
    RemoveNameAsc();
    TrimNameSpace();
  }
}
