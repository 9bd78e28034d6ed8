/**
 * The generic CRUD controller RsRepositoryServiceV3Reactive. Each endpoint is an ordered
 * chain of steps that may fail: the overridable hooks, calls on the session and reads on
 * the query. The first failure skips every later step and is turned into the response by
 * handleFailures, the one recovery point at the end of the chain.
 *
 * For each endpoint a function (PersistTrace, FetchTrace, ...) states the response, the
 * calls made and the table left behind, and a method of Controller carries the endpoint
 * out on a Session and is proved to do exactly that.
 */
module RepositoryService {
  import opened Failures
  import opened OrderBy
  import opened Paging
  import opened Store

  /**
   * The hooks a resource may override, each a step that may fail. The persist, fetch,
   * update, delete and list endpoints call them around their session calls.
   */
  datatype Hooks<!T, !U> = Hooks(
    prePersist: T -> Result<T>,
    postPersist: T -> Result<T>,
    preFetch: U -> Result<U>,
    postFetch: Option<T> -> Result<Option<T>>,
    preUpdate: (U, T) -> Result<T>,
    postUpdate: (U, T) -> Result<T>,
    preDelete: U -> Result<U>,
    postDelete: U -> Result<U>,
    postList: seq<T> -> Result<seq<T>>)

  /** The hooks as the base class defines them: each passes its argument through unchanged. */
  function DefaultHooks<T, U>(): Hooks<T, U>
  {
    Hooks(
      o => Ok(o), o => Ok(o),
      id => Ok(id), x => Ok(x),
      (id, o) => Ok(o), (id, o) => Ok(o),
      id => Ok(id), id => Ok(id),
      l => Ok(l))
  }

  /** Each base hook hands back what it was given, and never fails. */
  lemma DefaultHooksPassThrough<T, U>(o: T, id: U, x: Option<T>, l: seq<T>)
    ensures var h := DefaultHooks<T, U>();
            h.prePersist(o) == Ok(o) && h.postPersist(o) == Ok(o)
            && h.preFetch(id) == Ok(id) && h.postFetch(x) == Ok(x)
            && h.preUpdate(id, o) == Ok(o) && h.postUpdate(id, o) == Ok(o)
            && h.preDelete(id) == Ok(id) && h.postDelete(id) == Ok(id)
            && h.postList(l) == Ok(l)
  {
  }

  /** What one request on the session did: the response, the calls it made, the table it left. */
  datatype Trace<T, U> = Trace(response: Response<T, U>, calls: seq<Call<T, U>>, rows: map<U, T>)

  /** A chain that failed with f: handleFailures gives the response. */
  function Recovered<T, U>(f: Failure, calls: seq<Call<T, U>>, rows: map<U, T>): Trace<T, U> {
    Trace(HandleFailures(f), calls, rows)
  }

  /** getObjectNotFoundException(id), for the entity type's canonical name and the rendering of a key. */
  function NotFound<U>(typeName: string, keyText: U -> string, id: U): Failure {
    ObjectNotFound(typeName, keyText(id))
  }

  /** persist(entity) */
  function PersistTrace<T, U>(c: Config<T, U>, h: Hooks<T, U>, rows: map<U, T>, entity: Option<T>): Trace<T, U> {
    if entity.None? then Trace(NullObjectError, [], rows)
    else
      var o := entity.value;
      var pre := h.prePersist(o);
      if pre.Err? then Recovered(pre.failure, [], rows)
      else
        var persisted := Outcome(c, Call.Persist(o));
        var rows1 := After(c, rows, Call.Persist(o));
        if persisted.Err? then Recovered(persisted.failure, [Call.Persist(o)], rows1)
        else
          var post := h.postPersist(o);
          if post.Err? then Recovered(post.failure, [Call.Persist(o)], rows1)
          else
            var flushed := Outcome(c, Call.Flush);
            if flushed.Err? then Recovered(flushed.failure, [Call.Persist(o), Call.Flush], rows1)
            else Trace(Json(OK, Entity(o), []), [Call.Persist(o), Call.Flush], rows1)
  }

  /** fetch(id) */
  function FetchTrace<T, U>(c: Config<T, U>, h: Hooks<T, U>, rows: map<U, T>, typeName: string, keyText: U -> string, id: U): Trace<T, U> {
    var pre := h.preFetch(id);
    if pre.Err? then Recovered(pre.failure, [], rows)
    else
      var k := pre.value;
      var found := FindResult(c, rows, k);
      if found.Err? then Recovered(found.failure, [Call.Find(k)], rows)
      else
        var post := h.postFetch(found.value);
        if post.Err? then Recovered(post.failure, [Call.Find(k)], rows)
        else if post.value.None? then Recovered(NotFound(typeName, keyText, id), [Call.Find(k)], rows)
        else Trace(Json(OK, Entity(post.value.value), []), [Call.Find(k)], rows)
  }

  /** update(id, entity) */
  function UpdateTrace<T, U>(c: Config<T, U>, h: Hooks<T, U>, rows: map<U, T>, id: U, entity: T): Trace<T, U> {
    var pre := h.preUpdate(id, entity);
    if pre.Err? then Recovered(pre.failure, [], rows)
    else
      var merged := Outcome(c, Call.Merge(entity));
      var rows1 := After(c, rows, Call.Merge(entity));
      if merged.Err? then Recovered(merged.failure, [Call.Merge(entity)], rows1)
      else
        var flushed := Outcome(c, Call.Flush);
        if flushed.Err? then Recovered(flushed.failure, [Call.Merge(entity), Call.Flush], rows1)
        else
          var post := h.postUpdate(id, entity);
          if post.Err? then Recovered(post.failure, [Call.Merge(entity), Call.Flush], rows1)
          else Trace(Json(OK, Entity(post.value), []), [Call.Merge(entity), Call.Flush], rows1)
  }

  /** delete(id) */
  function DeleteTrace<T, U>(c: Config<T, U>, h: Hooks<T, U>, rows: map<U, T>, typeName: string, keyText: U -> string, id: U): Trace<T, U> {
    var pre := h.preDelete(id);
    if pre.Err? then Recovered(pre.failure, [], rows)
    else
      var k := pre.value;
      var found := FindResult(c, rows, k);
      if found.Err? then Recovered(found.failure, [Call.Find(k)], rows)
      else if found.value.None? then Recovered(NotFound(typeName, keyText, id), [Call.Find(k)], rows)
      else
        var o := found.value.value;
        var removed := Outcome(c, Call.Remove(o));
        var rows1 := After(c, rows, Call.Remove(o));
        if removed.Err? then Recovered(removed.failure, [Call.Find(k), Call.Remove(o)], rows1)
        else
          var flushed := Outcome(c, Call.Flush);
          if flushed.Err? then Recovered(flushed.failure, [Call.Find(k), Call.Remove(o), Call.Flush], rows1)
          else
            var post := h.postDelete(id);
            if post.Err? then Recovered(post.failure, [Call.Find(k), Call.Remove(o), Call.Flush], rows1)
            else Trace(Json(NO_CONTENT, Key(id), []), [Call.Find(k), Call.Remove(o), Call.Flush], rows1)
  }

  /** exist(id) */
  function ExistTrace<T, U>(c: Config<T, U>, rows: map<U, T>, typeName: string, keyText: U -> string, id: U): Trace<T, U> {
    var found := FindResult(c, rows, id);
    if found.Err? then Recovered(found.failure, [Call.Find(id)], rows)
    else if found.value.None? then Recovered(NotFound(typeName, keyText, id), [Call.Find(id)], rows)
    else Trace(Json(OK, Key(id), []), [Call.Find(id)], rows)
  }

  /** What one request on a query did: the response and the reads made on the query. */
  datatype ListRun<T, U> = ListRun(response: Response<T, U>, calls: seq<QueryCall>)

  /** getListSize(): the outcome of getSearch(null), then count(). */
  function ListSizeRun<T, U>(search: Result<Table<T>>): ListRun<T, U> {
    if search.Err? then ListRun(HandleFailures(search.failure), [])
    else
      var n := CountResult(search.value);
      if n.Err? then ListRun(HandleFailures(n.failure), [CountCall])
      else ListRun(Json(OK, Count(n.value), [Header("listSize", n.value)]), [CountCall])
  }

  /** What getItemsList yielded and the reads it made on the query. */
  datatype Listing<T> = Listing(result: Result<seq<T>>, calls: seq<QueryCall>)

  /** getItemsList(search, pageSize, startRow) */
  function ItemsListing<T>(t: Table<T>, pageSize: Int32, startRow: Int32): Listing<T>
    requires Countable(t)
  {
    var n := CountResult(t);
    if n.Err? then Listing(Err(n.failure), [CountCall])
    else if n.value == 0 then Listing(Ok([]), [CountCall])
    else
      var index := if pageSize != 0 then JavaDiv(startRow, pageSize) else 0;
      var size := if pageSize != 0 then pageSize else IntValue(n.value);
      if !ValidPage(index, size) then Listing(Err(PAGE_REFUSED), [CountCall])
      else Listing(ListResult(t, index, size), [CountCall, PageCall(index, size)])
  }

  /** The headers getList sets: the two paging parameters as given and the length of the list returned. */
  function ListHeaders(startRow: Int32, pageSize: Int32, listSize: nat): seq<Header> {
    [Header("startRow", startRow), Header("pageSize", pageSize), Header("listSize", listSize)]
  }

  /** getList(startRow, pageSize, orderBy): the outcome of getSearch(orderBy), then getItemsList and postList. */
  function ListRunOf<T, U>(h: Hooks<T, U>, search: Result<Table<T>>, startRow: Int32, pageSize: Int32): ListRun<T, U>
    requires search.Ok? ==> Countable(search.value)
  {
    if search.Err? then ListRun(HandleFailures(search.failure), [])
    else
      var l := ItemsListing(search.value, pageSize, startRow);
      if l.result.Err? then ListRun(HandleFailures(l.result.failure), l.calls)
      else
        var post := h.postList(l.result.value);
        if post.Err? then ListRun(HandleFailures(post.failure), l.calls)
        else ListRun(Json(OK, Entities(post.value), ListHeaders(startRow, pageSize, |post.value|)), l.calls)
  }

  /** What the database holds for the query getSearch built, or the failure getSearch ended with. */
  function TableOf<T>(search: Result<Query<T>>): Result<Table<T>> {
    if search.Ok? then Ok(search.value.table) else Err(search.failure)
  }

  /** One controller for one entity type, over the injected session. */
  class Controller<T, U(==)> {
    const session: Session<T, U>
    /** The canonical name of the entity class, as getObjectNotFoundException prints it. */
    const typeName: string
    /** How a key is rendered by String.format's %s. */
    const keyText: U -> string

    constructor (session: Session<T, U>, typeName: string, keyText: U -> string)
      ensures this.session == session && this.typeName == typeName && this.keyText == keyText
    {
      this.session := session;
      this.typeName := typeName;
      this.keyText := keyText;
    }

    method Persist(h: Hooks<T, U>, entity: Option<T>) returns (resp: Response<T, U>)
      requires session.Valid()
      modifies session
      ensures session.Valid()
      ensures var t := PersistTrace(session.config, h, old(session.rows), entity);
              resp == t.response && session.rows == t.rows && session.log == old(session.log) + t.calls
    {
      if entity.None? {
        return NullObjectError;
      }
      var o := entity.value;
      var pre := h.prePersist(o);
      if pre.Err? {
        return HandleFailures(pre.failure);
      }
      var persisted := session.Persist(o);
      if persisted.Err? {
        return HandleFailures(persisted.failure);
      }
      var post := h.postPersist(o);
      if post.Err? {
        return HandleFailures(post.failure);
      }
      var flushed := session.Flush();
      if flushed.Err? {
        return HandleFailures(flushed.failure);
      }
      return Json(OK, Entity(o), []);
    }

    method Fetch(h: Hooks<T, U>, id: U) returns (resp: Response<T, U>)
      requires session.Valid()
      modifies session
      ensures session.Valid()
      ensures var t := FetchTrace(session.config, h, old(session.rows), typeName, keyText, id);
              resp == t.response && session.rows == t.rows && session.log == old(session.log) + t.calls
    {
      var pre := h.preFetch(id);
      if pre.Err? {
        return HandleFailures(pre.failure);
      }
      var found := session.Find(pre.value);
      if found.Err? {
        return HandleFailures(found.failure);
      }
      var post := h.postFetch(found.value);
      if post.Err? {
        return HandleFailures(post.failure);
      }
      if post.value.None? {
        return HandleFailures(NotFound(typeName, keyText, id));
      }
      return Json(OK, Entity(post.value.value), []);
    }

    method Update(h: Hooks<T, U>, id: U, entity: T) returns (resp: Response<T, U>)
      requires session.Valid()
      modifies session
      ensures session.Valid()
      ensures var t := UpdateTrace(session.config, h, old(session.rows), id, entity);
              resp == t.response && session.rows == t.rows && session.log == old(session.log) + t.calls
    {
      var pre := h.preUpdate(id, entity);
      if pre.Err? {
        return HandleFailures(pre.failure);
      }
      var merged := session.Merge(entity);
      if merged.Err? {
        return HandleFailures(merged.failure);
      }
      var flushed := session.Flush();
      if flushed.Err? {
        return HandleFailures(flushed.failure);
      }
      var post := h.postUpdate(id, entity);
      if post.Err? {
        return HandleFailures(post.failure);
      }
      return Json(OK, Entity(post.value), []);
    }

    method Delete(h: Hooks<T, U>, id: U) returns (resp: Response<T, U>)
      requires session.Valid()
      modifies session
      ensures session.Valid()
      ensures var t := DeleteTrace(session.config, h, old(session.rows), typeName, keyText, id);
              resp == t.response && session.rows == t.rows && session.log == old(session.log) + t.calls
    {
      var pre := h.preDelete(id);
      if pre.Err? {
        return HandleFailures(pre.failure);
      }
      var found := session.Find(pre.value);
      if found.Err? {
        return HandleFailures(found.failure);
      }
      if found.value.None? {
        return HandleFailures(NotFound(typeName, keyText, id));
      }
      var removed := session.Remove(found.value.value);
      if removed.Err? {
        return HandleFailures(removed.failure);
      }
      var flushed := session.Flush();
      if flushed.Err? {
        return HandleFailures(flushed.failure);
      }
      var post := h.postDelete(id);
      if post.Err? {
        return HandleFailures(post.failure);
      }
      return Json(NO_CONTENT, Key(id), []);
    }

    method Exist(id: U) returns (resp: Response<T, U>)
      requires session.Valid()
      modifies session
      ensures session.Valid()
      ensures var t := ExistTrace(session.config, old(session.rows), typeName, keyText, id);
              resp == t.response && session.rows == t.rows && session.log == old(session.log) + t.calls
    {
      var found := session.Find(id);
      if found.Err? {
        return HandleFailures(found.failure);
      }
      if found.value.None? {
        return HandleFailures(NotFound(typeName, keyText, id));
      }
      return Json(OK, Key(id), []);
    }

    method GetListSize(search: Result<Query<T>>) returns (resp: Response<T, U>)
      modifies if search.Ok? then {search.value} else {}
      ensures resp == ListSizeRun<T, U>(TableOf(search)).response
      ensures search.Ok? ==> search.value.log == old(search.value.log) + ListSizeRun<T, U>(TableOf(search)).calls
                             && search.value.filters == old(search.value.filters)
    {
      if search.Err? {
        return HandleFailures(search.failure);
      }
      var n := search.value.Count();
      if n.Err? {
        return HandleFailures(n.failure);
      }
      return Json(OK, Count(n.value), [Header("listSize", n.value)]);
    }

    method GetItemsList(search: Query<T>, pageSize: Int32, startRow: Int32) returns (r: Result<seq<T>>)
      requires Countable(search.table)
      modifies search
      ensures var l := ItemsListing(search.table, pageSize, startRow);
              r == l.result && search.log == old(search.log) + l.calls && search.filters == old(search.filters)
    {
      var n := search.Count();
      if n.Err? {
        return Err(n.failure);
      }
      var w := ItemsWindow(n.value, pageSize, startRow);
      if w.Skip? {
        return Ok([]);
      }
      if !ValidPage(w.index, w.size) {
        return Err(PAGE_REFUSED);
      }
      r := search.List(w.index, w.size);
    }

    method GetList(h: Hooks<T, U>, search: Result<Query<T>>, startRow: Int32, pageSize: Int32) returns (resp: Response<T, U>)
      requires search.Ok? ==> Countable(search.value.table)
      modifies if search.Ok? then {search.value} else {}
      ensures resp == ListRunOf(h, TableOf(search), startRow, pageSize).response
      ensures search.Ok? ==> search.value.log == old(search.value.log) + ListRunOf(h, TableOf(search), startRow, pageSize).calls
                             && search.value.filters == old(search.value.filters)
    {
      if search.Err? {
        return HandleFailures(search.failure);
      }
      var items := GetItemsList(search.value, pageSize, startRow);
      if items.Err? {
        return HandleFailures(items.failure);
      }
      var post := h.postList(items.value);
      if post.Err? {
        return HandleFailures(post.failure);
      }
      return Json(OK, Entities(post.value), ListHeaders(startRow, pageSize, |post.value|));
    }
  }
}
