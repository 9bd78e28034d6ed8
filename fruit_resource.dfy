/**
 * FruitServiceRs, the controller of the fruits resource: the generic controller over the
 * Fruit entity with "name asc" as its default order, a getSearch that builds the fruits
 * query from sort(orderBy) and attaches the like.name filter when that parameter is
 * given, and a prePersist that refuses a fruit whose name is already stored.
 */
module FruitResource {
  import opened JavaText
  import opened Failures
  import opened OrderBy
  import opened OrderByExamples
  import OrderByFacts
  import opened Store
  import opened Paging
  import opened RepositoryService

  /** The Fruit entity: its generated uuid, which is its key, and its name. */
  datatype Fruit = Fruit(uuid: string, name: string)

  /** The canonical name of the entity class, as the not-found message prints it. */
  const FRUIT_TYPE := "it.ness.reactiveapi.model.Fruit"

  /** getDefaultOrderBy() */
  const DEFAULT_ORDER_BY: Option<string> := Some("name asc")

  /** The name of the Hibernate filter on the fruit name, and of the request parameter that turns it on. */
  const LIKE_NAME := "like.name"

  /** What prePersist fails with for a name already stored: a plain RuntimeException. */
  const DUPLICATE := Unclassified("Item already present in db")

  /** The names the fruits table holds; Fruit.isNew(name) asks whether a name is missing from it. */
  function Names(rows: map<string, Fruit>): (r: set<string>)
    ensures forall k :: k in rows ==> rows[k].name in r
    ensures forall n :: n in r ==> exists k :: k in rows && rows[k].name == n
  {
    set k | k in rows :: rows[k].name
  }

  /** prePersist(fruit): the fruit itself when its name is new, else the duplicate failure. */
  function PrePersist(names: set<string>, fruit: Fruit): (r: Result<Fruit>)
    ensures r.Ok? <==> fruit.name !in names
    ensures r.Ok? ==> r.value == fruit
    ensures r.Err? ==> r.failure == DUPLICATE
  {
    if fruit.name !in names then Ok(fruit) else Err(DUPLICATE)
  }

  /** The hooks of FruitServiceRs: prePersist is its own, every other one is the base class's. */
  function FruitHooks(names: set<string>): (h: Hooks<Fruit, string>)
    ensures forall f :: h.prePersist(f) == PrePersist(names, f)
    ensures h.(prePersist := DefaultHooks<Fruit, string>().prePersist) == DefaultHooks<Fruit, string>()
  {
    DefaultHooks<Fruit, string>().(prePersist := (f: Fruit) => PrePersist(names, f))
  }

  /** The filters getSearch attaches: like.name exactly when that parameter is present. */
  function SearchFilters(params: map<string, string>): (r: seq<Filter>)
    ensures LIKE_NAME in params <==> r != []
    ensures LIKE_NAME in params ==> r == [Filter(LIKE_NAME, "name", params[LIKE_NAME])]
  {
    if LIKE_NAME in params then [Filter(LIKE_NAME, "name", params[LIKE_NAME])] else []
  }

  /**
   * What a request gets: a response, or an exception thrown out of the endpoint itself
   * before any pipeline existed, which handleFailures therefore never sees.
   */
  datatype Reply = Replied(response: Response<Fruit, string>) | Raised(failure: Failure)

  class FruitService {
    const base: Controller<Fruit, string>

    constructor (session: Session<Fruit, string>)
      ensures base.session == session && base.typeName == FRUIT_TYPE
    {
      base := new Controller(session, FRUIT_TYPE, (s: string) => s);
    }

    /**
     * getSearch(orderBy): sort(orderBy) runs first, and a malformed orderBy fails before
     * any query exists; otherwise the fruits query, sorted exactly when the sort is not
     * null, with the like.name filter exactly when that parameter is present.
     */
    method GetSearch(orderBy: Option<string>, params: map<string, string>, table: Table<Fruit>) returns (r: Result<Query<Fruit>>)
      ensures SortSpec(orderBy, DEFAULT_ORDER_BY).Err? ==> r == Err(SortSpec(orderBy, DEFAULT_ORDER_BY).failure)
      ensures SortSpec(orderBy, DEFAULT_ORDER_BY).Ok? ==>
                r.Ok? && fresh(r.value) && r.value.sort == SortSpec(orderBy, DEFAULT_ORDER_BY).value
                && r.value.table == table && r.value.filters == SearchFilters(params) && r.value.log == []
    {
      var sort := SortOf(orderBy, DEFAULT_ORDER_BY);
      if sort.Err? {
        return Err(sort.failure);
      }
      var search := new Query(sort.value, table);
      if LIKE_NAME in params {
        search.AddFilter(Filter(LIKE_NAME, "name", params[LIKE_NAME]));
      }
      return Ok(search);
    }

    /** persist(fruit), with the uniqueness check against the names stored when the request starts. */
    method Persist(entity: Option<Fruit>) returns (resp: Response<Fruit, string>)
      requires base.session.Valid()
      modifies base.session
      ensures base.session.Valid()
      ensures var t := PersistTrace(base.session.config, FruitHooks(Names(old(base.session.rows))), old(base.session.rows), entity);
              resp == t.response && base.session.rows == t.rows && base.session.log == old(base.session.log) + t.calls
    {
      resp := base.Persist(FruitHooks(Names(base.session.rows)), entity);
    }

    /**
     * getList(startRow, pageSize, orderBy): a malformed orderBy is thrown out of the
     * endpoint; otherwise the generic listing over the query getSearch built.
     */
    method GetList(orderBy: Option<string>, params: map<string, string>, table: Table<Fruit>, startRow: Int32, pageSize: Int32) returns (reply: Reply)
      requires Countable(table)
      ensures SortSpec(orderBy, DEFAULT_ORDER_BY).Err? ==> reply == Raised(SortSpec(orderBy, DEFAULT_ORDER_BY).failure)
      ensures SortSpec(orderBy, DEFAULT_ORDER_BY).Ok? ==>
                reply == Replied(ListRunOf(FruitHooks(Names(base.session.rows)), Ok(table), startRow, pageSize).response)
    {
      var search := GetSearch(orderBy, params, table);
      if search.Err? {
        return Raised(search.failure);
      }
      var resp := base.GetList(FruitHooks(Names(base.session.rows)), search, startRow, pageSize);
      return Replied(resp);
    }

    /** getListSize(): getSearch(null) never throws, and its query is sorted on name ascending. */
    method GetListSize(params: map<string, string>, table: Table<Fruit>) returns (resp: Response<Fruit, string>, search: Query<Fruit>)
      ensures resp == ListSizeRun<Fruit, string>(Ok(table)).response
      ensures search.sort == Some([Column("name", Ascending)]) && search.filters == SearchFilters(params)
      ensures search.log == [CountCall]
    {
      NameAscDefaultExample(None);
      var r := GetSearch(None, params, table);
      search := r.value;
      resp := base.GetListSize(r);
    }
  }

  /** A fruit whose name is stored is refused with BAD_REQUEST before any session call. */
  lemma DuplicateNameRejected(c: Config<Fruit, string>, rows: map<string, Fruit>, f: Fruit)
    requires f.name in Names(rows)
    ensures PersistTrace(c, FruitHooks(Names(rows)), rows, Some(f))
            == Trace(Json(BAD_REQUEST, Fault("Item already present in db"), []), [], rows)
  {
  }

  /** A fruit with a new name is persisted and flushed, and answered OK with itself, when the database accepts both. */
  lemma NewNamePersisted(c: Config<Fruit, string>, rows: map<string, Fruit>, f: Fruit)
    requires f.name !in Names(rows) && PersistOp !in c.refused && FlushOp !in c.refused
    ensures PersistTrace(c, FruitHooks(Names(rows)), rows, Some(f))
            == Trace(Json(OK, Entity(f), []), [Call.Persist(f), Call.Flush], rows[c.keyOf(f) := f])
  {
  }

  /** No two stored fruits share a name. */
  predicate UniqueNames(rows: map<string, Fruit>) {
    forall k1, k2 :: k1 in rows && k2 in rows && rows[k1].name == rows[k2].name ==> k1 == k2
  }

  /** persist through FruitServiceRs keeps the stored names unique, whatever the request ends with. */
  lemma PersistKeepsNamesUnique(c: Config<Fruit, string>, rows: map<string, Fruit>, entity: Option<Fruit>)
    requires UniqueNames(rows)
    ensures UniqueNames(PersistTrace(c, FruitHooks(Names(rows)), rows, entity).rows)
  {
    var t := PersistTrace(c, FruitHooks(Names(rows)), rows, entity);
    if t.rows != rows {
      var f := entity.value;
      var key := c.keyOf(f);
      assert f.name !in Names(rows);
      assert t.rows == rows[key := f];
      forall k1, k2 | k1 in t.rows && k2 in t.rows && t.rows[k1].name == t.rows[k2].name
        ensures k1 == k2
      {
        if k1 != key && k2 != key {
          assert rows[k1].name == rows[k2].name;
        }
      }
    }
  }

  /** A null or blank orderBy, and the null that getListSize passes, sort on name ascending. */
  lemma DefaultOrderIsNameAscending(orderBy: Option<string>)
    requires orderBy.None? || IsBlank(orderBy.value)
    ensures SortSpec(orderBy, DEFAULT_ORDER_BY) == Ok(Some([Column("name", Ascending)]))
  {
    NameAscDefaultExample(orderBy);
  }

  /** An orderBy whose direction is neither asc nor desc is thrown out of getList, whatever the default. */
  lemma MalformedOrderByRaises()
    ensures SortSpec(Some("name:xyz"), DEFAULT_ORDER_BY) == Err(NOT_USABLE)
  {
    NameXyzExample();
    OrderByFacts.DefaultOnlyWhenBlank(Some("name:xyz"), None, DEFAULT_ORDER_BY);
  }
}
