/**
 * What the endpoints of RsRepositoryServiceV3Reactive promise. Each endpoint is shown to
 * be an instance of one reference reading, Chain: its stages run in order, the first that
 * fails ends the run and is mapped once by handleFailures, and no later stage makes its
 * call. Beside that, the table a request leaves is the replay of the calls it made, and
 * the particular rules of each endpoint (null persist, not found, hooks whose output is
 * ignored, update without a lookup, the listing reads) are stated one by one.
 */
module RepositoryFacts {
  import opened Failures
  import opened Paging
  import opened Store
  import opened RepositoryService

  /** One stage of a chain: the call it makes, if any, and the failure it ends with, if any. */
  datatype Stage<C> = Stage(call: Option<C>, failure: Option<Failure>)

  /** The failure a step ended with, if it failed. */
  function FailureIn<X>(r: Result<X>): (f: Option<Failure>)
    ensures f.Some? <==> r.Err?
    ensures f.Some? ==> f.value == r.failure
  {
    if r.Err? then Some(r.failure) else None
  }

  /** The calls the stages make, in order. */
  function CallsOf<C>(stages: seq<Stage<C>>): seq<C>
    decreases |stages|
  {
    if stages == [] then []
    else (if stages[0].call.Some? then [stages[0].call.value] else []) + CallsOf(stages[1..])
  }

  /** A response and the calls made to reach it. */
  datatype Ran<C, T, U> = Ran(response: Response<T, U>, calls: seq<C>)

  /**
   * The reference reading of a pipeline with one recovery point at its end: the stages run
   * in order; the first that fails ends the run and handleFailures maps its failure; when
   * none fails the run answers `success`.
   */
  function Chain<C, T, U>(stages: seq<Stage<C>>, success: Response<T, U>): Ran<C, T, U>
    decreases |stages|
  {
    if stages == [] then Ran(success, [])
    else
      var here := if stages[0].call.Some? then [stages[0].call.value] else [];
      if stages[0].failure.Some? then Ran(HandleFailures(stages[0].failure.value), here)
      else
        var rest := Chain(stages[1..], success);
        Ran(rest.response, here + rest.calls)
  }

  /** One step of Chain: the first stage, then the chain of the rest. */
  lemma ChainStep<C, T, U>(stages: seq<Stage<C>>, success: Response<T, U>)
    requires stages != []
    ensures var here := if stages[0].call.Some? then [stages[0].call.value] else [];
            Chain(stages, success) == if stages[0].failure.Some? then Ran(HandleFailures(stages[0].failure.value), here)
                                      else Ran(Chain(stages[1..], success).response, here + Chain(stages[1..], success).calls)
  {
  }

  lemma CallsOfCons<C>(stages: seq<Stage<C>>)
    requires stages != []
    ensures CallsOf(stages) == (if stages[0].call.Some? then [stages[0].call.value] else []) + CallsOf(stages[1..])
  {
  }

  /**
   * The first failing stage alone decides the response, mapped once by handleFailures,
   * and the calls made are those of the stages up to and including it.
   */
  lemma {:induction false} ChainStopsAtFirstFailure<C, T, U>(stages: seq<Stage<C>>, success: Response<T, U>, i: nat)
    requires i < |stages| && stages[i].failure.Some?
    requires forall j :: 0 <= j < i ==> stages[j].failure.None?
    ensures Chain(stages, success) == Ran(HandleFailures(stages[i].failure.value), CallsOf(stages[..i + 1]))
    decreases i
  {
    var p := stages[..i + 1];
    CallsOfCons(p);
    assert p[0] == stages[0];
    if i == 0 {
      assert p[1..] == [];
    } else {
      var rest := stages[1..];
      forall j | 0 <= j < i - 1 ensures rest[j].failure.None? {
        assert rest[j] == stages[j + 1];
      }
      ChainStopsAtFirstFailure(rest, success, i - 1);
      assert rest[..i] == p[1..];
    }
  }

  /** With no failing stage the run answers `success` after making every stage's call. */
  lemma {:induction false} ChainWithoutFailure<C, T, U>(stages: seq<Stage<C>>, success: Response<T, U>)
    requires forall j :: 0 <= j < |stages| ==> stages[j].failure.None?
    ensures Chain(stages, success) == Ran(success, CallsOf(stages))
    decreases |stages|
  {
    if stages != [] {
      var rest := stages[1..];
      forall j | 0 <= j < |rest| ensures rest[j].failure.None? {
        assert rest[j] == stages[j + 1];
      }
      ChainWithoutFailure(rest, success);
    }
  }

  // ----- persist -----

  /** persist's stages: prePersist, session.persist(object), postPersist, flush. */
  function PersistStages<T, U>(c: Config<T, U>, h: Hooks<T, U>, o: T): seq<Stage<Call<T, U>>> {
    [Stage(None, FailureIn(h.prePersist(o))),
     Stage(Some(Call.Persist(o)), FailureIn(Outcome(c, Call.Persist(o)))),
     Stage(None, FailureIn(h.postPersist(o))),
     Stage(Some(Call.Flush), FailureIn(Outcome(c, Call.Flush)))]
  }

  /** persist is the chain of its four stages answering OK with the original object, and its table is the replay of its calls. */
  lemma PersistIsChain<T, U>(c: Config<T, U>, h: Hooks<T, U>, rows: map<U, T>, o: T)
    ensures var t := PersistTrace(c, h, rows, Some(o));
            Ran(t.response, t.calls) == Chain(PersistStages(c, h, o), Json(OK, Entity(o), []))
            && t.rows == Replay(c, rows, t.calls)
  {
    var s := PersistStages(c, h, o);
    var s1 := s[1..];
    var s2 := s1[1..];
    var s3 := s2[1..];
    var s4 := s3[1..];
    assert s4 == [];
    var success: Response<T, U> := Json(OK, Entity(o), []);
    ChainStep(s3, success);
    ChainStep(s2, success);
    ChainStep(s1, success);
    ChainStep(s, success);
    ReplaySnoc(c, rows, [], Call.Persist(o));
    ReplaySnoc(c, rows, [Call.Persist(o)], Call.Flush);
    assert [Call.Persist(o)] + [Call<T, U>.Flush] == [Call.Persist(o), Call.Flush];
  }

  /** A null object is answered without a single session call. */
  lemma PersistNullMakesNoCall<T, U>(c: Config<T, U>, h: Hooks<T, U>, rows: map<U, T>)
    ensures PersistTrace(c, h, rows, None) == Trace(NullObjectError, [], rows)
  {
  }

  /** persist only ever calls persist(object) then flush, in that order, and answers OK exactly when all four stages pass. */
  lemma PersistOrder<T, U>(c: Config<T, U>, h: Hooks<T, U>, rows: map<U, T>, o: T)
    ensures var t := PersistTrace(c, h, rows, Some(o));
            t.calls <= [Call.Persist(o), Call.Flush]
            && (t.response == Json(OK, Entity(o), []) <==>
                h.prePersist(o).Ok? && h.postPersist(o).Ok? && PersistOp !in c.refused && FlushOp !in c.refused)
  {
  }

  /** Success stores the original object under its key. */
  lemma PersistStoresOriginal<T, U>(c: Config<T, U>, h: Hooks<T, U>, rows: map<U, T>, o: T)
    requires PersistTrace(c, h, rows, Some(o)).response == Json(OK, Entity(o), [])
    ensures PersistTrace(c, h, rows, Some(o)).rows == rows[c.keyOf(o) := o]
  {
  }

  /** What prePersist and postPersist return is ignored: only whether they fail, and with what, matters. */
  lemma PersistIgnoresHookOutputs<T, U>(c: Config<T, U>, h1: Hooks<T, U>, h2: Hooks<T, U>, rows: map<U, T>, o: T)
    requires FailureIn(h1.prePersist(o)) == FailureIn(h2.prePersist(o))
    requires FailureIn(h1.postPersist(o)) == FailureIn(h2.postPersist(o))
    ensures PersistTrace(c, h1, rows, Some(o)) == PersistTrace(c, h2, rows, Some(o))
  {
  }

  // ----- fetch -----

  /**
   * fetch's stages: preFetch, find on the key preFetch gave, postFetch on what find
   * returned, and the null check. A stage after a failing one is never looked at, so
   * the values it is built from (here the original id, or no entity) stand in for ones
   * that do not exist.
   */
  function FetchStages<T, U>(c: Config<T, U>, h: Hooks<T, U>, rows: map<U, T>, typeName: string, keyText: U -> string, id: U): seq<Stage<Call<T, U>>> {
    var pre := h.preFetch(id);
    var k := if pre.Ok? then pre.value else id;
    var found := FindResult(c, rows, k);
    var post := h.postFetch(if found.Ok? then found.value else None);
    [Stage(None, FailureIn(pre)),
     Stage(Some(Call.Find(k)), FailureIn(found)),
     Stage(None, FailureIn(post)),
     Stage(None, if post.Ok? && post.value.None? then Some(NotFound(typeName, keyText, id)) else None)]
  }

  /** The entity fetch answers with when every stage passes. */
  function FetchSuccess<T, U>(c: Config<T, U>, h: Hooks<T, U>, rows: map<U, T>, id: U): Response<T, U> {
    var pre := h.preFetch(id);
    var k := if pre.Ok? then pre.value else id;
    var found := FindResult(c, rows, k);
    var post := h.postFetch(if found.Ok? then found.value else None);
    if post.Ok? && post.value.Some? then Json(OK, Entity(post.value.value), []) else NullObjectError
  }

  /** fetch is the chain of its stages, and it leaves the table as it is. */
  lemma FetchIsChain<T, U>(c: Config<T, U>, h: Hooks<T, U>, rows: map<U, T>, typeName: string, keyText: U -> string, id: U)
    ensures var t := FetchTrace(c, h, rows, typeName, keyText, id);
            Ran(t.response, t.calls) == Chain(FetchStages(c, h, rows, typeName, keyText, id), FetchSuccess(c, h, rows, id))
            && t.rows == rows && t.rows == Replay(c, rows, t.calls)
  {
    var s := FetchStages(c, h, rows, typeName, keyText, id);
    var s1 := s[1..];
    var s2 := s1[1..];
    var s3 := s2[1..];
    var s4 := s3[1..];
    assert s4 == [];
    var success: Response<T, U> := FetchSuccess(c, h, rows, id);
    ChainStep(s3, success);
    ChainStep(s2, success);
    ChainStep(s1, success);
    ChainStep(s, success);
    var t := FetchTrace(c, h, rows, typeName, keyText, id);
    ReplayReadsOnly(c, rows, t.calls);
  }

  /**
   * When postFetch yields null the answer is NOT_FOUND naming the ORIGINAL id, even when
   * preFetch looked up another key.
   */
  lemma FetchNotFound<T, U>(c: Config<T, U>, h: Hooks<T, U>, rows: map<U, T>, typeName: string, keyText: U -> string, id: U, k: U)
    requires h.preFetch(id) == Ok(k) && FindOp !in c.refused && h.postFetch(Lookup(rows, k)) == Ok(None)
    ensures FetchTrace(c, h, rows, typeName, keyText, id)
            == Trace(Json(NOT_FOUND, Message(NotFoundMessage(typeName, keyText(id))), []), [Call.Find(k)], rows)
  {
  }

  /** With the base hooks fetch answers the stored entity, or NOT_FOUND when the key is absent. */
  lemma FetchWithDefaults<T, U>(c: Config<T, U>, rows: map<U, T>, typeName: string, keyText: U -> string, id: U)
    requires FindOp !in c.refused
    ensures var t := FetchTrace(c, DefaultHooks(), rows, typeName, keyText, id);
            t.calls == [Call.Find(id)]
            && (id in rows ==> t.response == Json(OK, Entity(rows[id]), []))
            && (id !in rows ==> t.response == HandleFailures(NotFound(typeName, keyText, id)))
  {
  }

  // ----- update -----

  /** update's stages: preUpdate, merge(object), flush, postUpdate. */
  function UpdateStages<T, U>(c: Config<T, U>, h: Hooks<T, U>, id: U, o: T): seq<Stage<Call<T, U>>> {
    [Stage(None, FailureIn(h.preUpdate(id, o))),
     Stage(Some(Call.Merge(o)), FailureIn(Outcome(c, Call.Merge(o)))),
     Stage(Some(Call.Flush), FailureIn(Outcome(c, Call.Flush))),
     Stage(None, FailureIn(h.postUpdate(id, o)))]
  }

  /** update answers with what postUpdate returns. */
  function UpdateSuccess<T, U>(h: Hooks<T, U>, id: U, o: T): Response<T, U> {
    var post := h.postUpdate(id, o);
    if post.Ok? then Json(OK, Entity(post.value), []) else NullObjectError
  }

  /** update is the chain of its four stages, and its table is the replay of its calls. */
  lemma UpdateIsChain<T, U>(c: Config<T, U>, h: Hooks<T, U>, rows: map<U, T>, id: U, o: T)
    ensures var t := UpdateTrace(c, h, rows, id, o);
            Ran(t.response, t.calls) == Chain(UpdateStages(c, h, id, o), UpdateSuccess(h, id, o))
            && t.rows == Replay(c, rows, t.calls)
  {
    var s := UpdateStages(c, h, id, o);
    var s1 := s[1..];
    var s2 := s1[1..];
    var s3 := s2[1..];
    var s4 := s3[1..];
    assert s4 == [];
    var success: Response<T, U> := UpdateSuccess(h, id, o);
    ChainStep(s3, success);
    ChainStep(s2, success);
    ChainStep(s1, success);
    ChainStep(s, success);
    ReplaySnoc(c, rows, [], Call.Merge(o));
    ReplaySnoc(c, rows, [Call.Merge(o)], Call.Flush);
    assert [Call.Merge(o)] + [Call<T, U>.Flush] == [Call.Merge(o), Call.Flush];
  }

  /**
   * update makes no lookup: with the base hooks and a database that accepts it, an
   * object whose key is not stored is merged in and answered OK, never NOT_FOUND.
   */
  lemma UpdateHasNoNotFound<T, U>(c: Config<T, U>, rows: map<U, T>, id: U, o: T)
    requires MergeOp !in c.refused && FlushOp !in c.refused
    ensures var t := UpdateTrace(c, DefaultHooks(), rows, id, o);
            t.response == Json(OK, Entity(o), []) && t.rows == rows[c.keyOf(o) := o]
            && t.calls == [Call.Merge(o), Call.Flush]
  {
  }

  /** The id update is called with only reaches the hooks: merge and flush see the object alone. */
  lemma UpdateCallsIgnoreId<T, U>(c: Config<T, U>, h: Hooks<T, U>, rows: map<U, T>, id1: U, id2: U, o: T)
    requires FailureIn(h.preUpdate(id1, o)) == FailureIn(h.preUpdate(id2, o))
    ensures UpdateTrace(c, h, rows, id1, o).calls == UpdateTrace(c, h, rows, id2, o).calls
    ensures UpdateTrace(c, h, rows, id1, o).rows == UpdateTrace(c, h, rows, id2, o).rows
  {
  }

  // ----- delete -----

  /**
   * delete's stages: preDelete, find on the key preDelete gave, the null check,
   * remove(entity found), flush, postDelete. As in FetchStages, the stages after a
   * failing one are built from stand-in values that are never looked at.
   */
  function DeleteStages<T, U>(c: Config<T, U>, h: Hooks<T, U>, rows: map<U, T>, typeName: string, keyText: U -> string, id: U): seq<Stage<Call<T, U>>> {
    var pre := h.preDelete(id);
    var k := if pre.Ok? then pre.value else id;
    var found := FindResult(c, rows, k);
    var present := found.Ok? && found.value.Some?;
    [Stage(None, FailureIn(pre)),
     Stage(Some(Call.Find(k)), FailureIn(found)),
     Stage(None, if found.Ok? && found.value.None? then Some(NotFound(typeName, keyText, id)) else None),
     Stage(if present then Some(Call.Remove(found.value.value)) else None, if RemoveOp in c.refused then Some(Refusal(c)) else None),
     Stage(Some(Call.Flush), FailureIn(Outcome(c, Call.Flush))),
     Stage(None, FailureIn(h.postDelete(id)))]
  }

  /** delete's response and calls are those of the chain of its six stages, answering NO_CONTENT with the original id. */
  lemma DeleteRunsChain<T, U>(c: Config<T, U>, h: Hooks<T, U>, rows: map<U, T>, typeName: string, keyText: U -> string, id: U)
    ensures var t := DeleteTrace(c, h, rows, typeName, keyText, id);
            Ran(t.response, t.calls) == Chain(DeleteStages(c, h, rows, typeName, keyText, id), Json(NO_CONTENT, Key(id), []))
  {
    var s := DeleteStages(c, h, rows, typeName, keyText, id);
    var s1 := s[1..];
    var s2 := s1[1..];
    var s3 := s2[1..];
    var s4 := s3[1..];
    var s5 := s4[1..];
    var s6 := s5[1..];
    assert s6 == [];
    var success: Response<T, U> := Json(NO_CONTENT, Key(id), []);
    ChainStep(s5, success);
    ChainStep(s4, success);
    ChainStep(s3, success);
    ChainStep(s2, success);
    ChainStep(s1, success);
    ChainStep(s, success);
  }

  /** The table delete leaves is the replay of the calls it made. */
  lemma DeleteTableIsReplay<T, U>(c: Config<T, U>, h: Hooks<T, U>, rows: map<U, T>, typeName: string, keyText: U -> string, id: U)
    ensures var t := DeleteTrace(c, h, rows, typeName, keyText, id);
            t.rows == Replay(c, rows, t.calls)
  {
    var pre := h.preDelete(id);
    if pre.Ok? {
      var k := pre.value;
      var found := FindResult(c, rows, k);
      ReplayReadsOnly(c, rows, [Call.Find(k)]);
      if found.Ok? && found.value.Some? {
        var o := found.value.value;
        ReplaySnoc(c, rows, [Call.Find(k)], Call.Remove(o));
        ReplaySnoc(c, rows, [Call.Find(k), Call.Remove(o)], Call.Flush);
        assert [Call.Find(k)] + [Call.Remove(o)] == [Call.Find(k), Call.Remove(o)];
        assert [Call.Find(k), Call.Remove(o)] + [Call.Flush] == [Call.Find(k), Call.Remove(o), Call.Flush];
      }
    }
  }

  /** delete is the chain of its six stages answering NO_CONTENT with the original id, and its table is the replay of its calls. */
  lemma DeleteIsChain<T, U>(c: Config<T, U>, h: Hooks<T, U>, rows: map<U, T>, typeName: string, keyText: U -> string, id: U)
    ensures var t := DeleteTrace(c, h, rows, typeName, keyText, id);
            Ran(t.response, t.calls) == Chain(DeleteStages(c, h, rows, typeName, keyText, id), Json(NO_CONTENT, Key(id), []))
            && t.rows == Replay(c, rows, t.calls)
  {
    DeleteRunsChain(c, h, rows, typeName, keyText, id);
    DeleteTableIsReplay(c, h, rows, typeName, keyText, id);
  }

  /**
   * When find yields null, delete answers NOT_FOUND for the original id after the single
   * find: remove and flush are never called and the table is untouched.
   */
  lemma DeleteNotFound<T, U>(c: Config<T, U>, h: Hooks<T, U>, rows: map<U, T>, typeName: string, keyText: U -> string, id: U, k: U)
    requires h.preDelete(id) == Ok(k) && FindOp !in c.refused && k !in rows
    ensures DeleteTrace(c, h, rows, typeName, keyText, id)
            == Trace(Json(NOT_FOUND, Message(NotFoundMessage(typeName, keyText(id))), []), [Call.Find(k)], rows)
  {
  }

  /** ... and postDelete does not run: replacing it changes nothing. */
  lemma DeleteNotFoundSkipsPostDelete<T, U>(c: Config<T, U>, h: Hooks<T, U>, g: U -> Result<U>, rows: map<U, T>, typeName: string, keyText: U -> string, id: U)
    requires h.preDelete(id).Ok? && FindOp !in c.refused && h.preDelete(id).value !in rows
    ensures DeleteTrace(c, h.(postDelete := g), rows, typeName, keyText, id) == DeleteTrace(c, h, rows, typeName, keyText, id)
  {
  }

  /**
   * A successful delete removes the key of the entity it found and answers the original
   * id; what postDelete returns is ignored. In a table where each entity sits under its
   * own key, as a Session keeps it, that is the key looked up.
   */
  lemma DeleteRemovesFound<T, U>(c: Config<T, U>, h: Hooks<T, U>, rows: map<U, T>, typeName: string, keyText: U -> string, id: U)
    requires DeleteTrace(c, h, rows, typeName, keyText, id).response == Json(NO_CONTENT, Key(id), [])
    ensures var k := h.preDelete(id).value;
            h.preDelete(id).Ok? && k in rows
            && DeleteTrace(c, h, rows, typeName, keyText, id).rows == rows - {c.keyOf(rows[k])}
            && DeleteTrace(c, h, rows, typeName, keyText, id).calls == [Call.Find(k), Call.Remove(rows[k]), Call.Flush]
            && (Keyed(c, rows) ==> k !in DeleteTrace(c, h, rows, typeName, keyText, id).rows)
  {
  }

  // ----- exist -----

  /** exist's stages: find on the id itself, then the null check. */
  function ExistStages<T, U>(c: Config<T, U>, rows: map<U, T>, typeName: string, keyText: U -> string, id: U): seq<Stage<Call<T, U>>> {
    var found := FindResult(c, rows, id);
    [Stage(Some(Call.Find(id)), FailureIn(found)),
     Stage(None, if found.Ok? && found.value.None? then Some(NotFound(typeName, keyText, id)) else None)]
  }

  /** exist is the chain of its two stages answering OK with the id; it changes nothing. */
  lemma ExistIsChain<T, U>(c: Config<T, U>, rows: map<U, T>, typeName: string, keyText: U -> string, id: U)
    ensures var t := ExistTrace(c, rows, typeName, keyText, id);
            Ran(t.response, t.calls) == Chain(ExistStages(c, rows, typeName, keyText, id), Json(OK, Key(id), []))
            && t.rows == rows
  {
    var s := ExistStages(c, rows, typeName, keyText, id);
    var s1 := s[1..];
    var s2 := s1[1..];
    assert s2 == [];
    var success: Response<T, U> := Json(OK, Key(id), []);
    ChainStep(s1, success);
    ChainStep(s, success);
  }

  /** exist answers OK exactly when the key is stored (and find is not refused), NOT_FOUND when it is absent. */
  lemma ExistAnswers<T, U>(c: Config<T, U>, rows: map<U, T>, typeName: string, keyText: U -> string, id: U)
    requires FindOp !in c.refused
    ensures var t := ExistTrace(c, rows, typeName, keyText, id);
            t.calls == [Call.Find(id)]
            && (t.response == Json(OK, Key(id), []) <==> id in rows)
            && (id !in rows ==> t.response == Json(NOT_FOUND, Message(NotFoundMessage(typeName, keyText(id))), []))
  {
  }

  // ----- listSize and list -----

  /** getListSize's stages: getSearch(null), then count(). */
  function ListSizeStages<T>(search: Result<Table<T>>): seq<Stage<QueryCall>> {
    [Stage(None, FailureIn(search)),
     Stage(Some(CountCall), if search.Ok? then FailureIn(CountResult(search.value)) else None)]
  }

  /** getListSize is the chain of its two stages answering the count, in the body and in the listSize header. */
  lemma ListSizeIsChain<T, U>(search: Result<Table<T>>)
    ensures var r := ListSizeRun<T, U>(search);
            var n := if search.Ok? then |search.value.selected| else 0;
            Ran(r.response, r.calls) == Chain(ListSizeStages(search), Json(OK, Count(n), [Header("listSize", n)]))
  {
    var s := ListSizeStages(search);
    var n := if search.Ok? then |search.value.selected| else 0;
    var s1 := s[1..];
    var s2 := s1[1..];
    assert s2 == [];
    var success: Response<T, U> := Response<T, U>.Json(OK, Count(n), [Header("listSize", n)]);
    ChainStep(s1, success);
    ChainStep(s, success);
  }

  /** No rows: count is read, no page is read, and the list is empty. */
  lemma EmptyResultReadsNoPage<T>(t: Table<T>, pageSize: Int32, startRow: Int32)
    requires CountOp !in t.refused && t.selected == []
    ensures ItemsListing(t, pageSize, startRow) == Listing(Ok([]), [CountCall])
  {
  }

  /** Rows and a non-zero page size: page (startRow / pageSize, pageSize) is read, with Java's truncating division. */
  lemma ItemsReadPageOfStartRow<T>(t: Table<T>, pageSize: Int32, startRow: Int32)
    requires Countable(t) && CountOp !in t.refused && t.selected != [] && pageSize != 0
    ensures var l := ItemsListing(t, pageSize, startRow);
            var index := JavaDiv(startRow, pageSize);
            (ValidPage(index, pageSize) ==> l.calls == [CountCall, PageCall(index, pageSize)] && l.result == ListResult(t, index, pageSize))
            && (!ValidPage(index, pageSize) ==> l == Listing(Err(PAGE_REFUSED), [CountCall]))
  {
  }

  /** Rows and a zero page size: one page of every row; all of them when the count fits in an int. */
  lemma ZeroPageSizeListsEverything<T>(t: Table<T>, startRow: Int32)
    requires 0 < |t.selected| <= INT_MAX && CountOp !in t.refused && ListOp !in t.refused
    ensures ItemsListing(t, 0, startRow) == Listing(Ok(t.selected), [CountCall, PageCall(0, |t.selected|)])
  {
    ZeroPageSizeReadsAll(t.selected);
  }

  /** A count read that fails ends getItemsList before any page is read. */
  lemma CountFailureReadsNoPage<T>(t: Table<T>, pageSize: Int32, startRow: Int32)
    requires Countable(t) && CountOp in t.refused
    ensures ItemsListing(t, pageSize, startRow) == Listing(Err(Unclassified(t.fault)), [CountCall])
  {
  }

  /**
   * The listSize header counts the page, not the result list: 25 rows, pages of 10 from
   * row 20 answer the last 5 rows with listSize 5.
   */
  lemma ListSizeHeaderIsPageLength<T, U>(rows: seq<T>)
    requires |rows| == 25
    ensures var r := ListRunOf<T, U>(DefaultHooks(), Ok(Table(rows, {}, "")), 20, 10);
            r.response == Json(OK, Entities(rows[20..]), ListHeaders(20, 10, 5))
            && r.calls == [CountCall, PageCall(2, 10)]
  {
    ThirdPageExample();
    assert PageSlice(rows, 2, 10) == rows[20..];
  }

  /**
   * getList's stages: getSearch(orderBy), count(), Page.of's check of the index and size,
   * the page read, postList. A zero count skips the page stages and hands postList the
   * empty list. As in FetchStages, the stages after a failing one are built from stand-in
   * values that are never looked at.
   */
  function ListStages<T, U>(h: Hooks<T, U>, search: Result<Table<T>>, startRow: Int32, pageSize: Int32): seq<Stage<QueryCall>>
    requires search.Ok? ==> Countable(search.value)
  {
    var t := if search.Ok? then search.value else Table([], {}, "");
    var n := CountResult(t);
    var paged := n.Ok? && n.value != 0;
    var index := if pageSize != 0 then JavaDiv(startRow, pageSize) else 0;
    var size := if pageSize != 0 then pageSize else if n.Ok? then IntValue(n.value) else 0;
    var page := if paged && ValidPage(index, size) then ListResult(t, index, size) else Ok([]);
    [Stage(None, FailureIn(search)),
     Stage(Some(CountCall), FailureIn(n)),
     Stage(None, if paged && !ValidPage(index, size) then Some(PAGE_REFUSED) else None),
     Stage(if paged then Some(PageCall(index, size)) else None, FailureIn(page)),
     Stage(None, FailureIn(h.postList(if page.Ok? then page.value else [])))]
  }

  /** getList's success: OK with the list postList returned, the two paging parameters and that list's length. */
  function ListSuccess<T, U>(h: Hooks<T, U>, search: Result<Table<T>>, startRow: Int32, pageSize: Int32): Response<T, U>
    requires search.Ok? ==> Countable(search.value)
  {
    var t := if search.Ok? then search.value else Table([], {}, "");
    var n := CountResult(t);
    var paged := n.Ok? && n.value != 0;
    var index := if pageSize != 0 then JavaDiv(startRow, pageSize) else 0;
    var size := if pageSize != 0 then pageSize else if n.Ok? then IntValue(n.value) else 0;
    var page := if paged && ValidPage(index, size) then ListResult(t, index, size) else Ok([]);
    var post := h.postList(if page.Ok? then page.value else []);
    var items := if post.Ok? then post.value else [];
    Json(OK, Entities(items), ListHeaders(startRow, pageSize, |items|))
  }

  /** getList is the chain of its five stages answering ListSuccess. */
  lemma ListIsChain<T, U>(h: Hooks<T, U>, search: Result<Table<T>>, startRow: Int32, pageSize: Int32)
    requires search.Ok? ==> Countable(search.value)
    ensures var r := ListRunOf(h, search, startRow, pageSize);
            Ran(r.response, r.calls) == Chain(ListStages(h, search, startRow, pageSize), ListSuccess(h, search, startRow, pageSize))
  {
    var s := ListStages(h, search, startRow, pageSize);
    var s1 := s[1..];
    var s2 := s1[1..];
    var s3 := s2[1..];
    var s4 := s3[1..];
    var s5 := s4[1..];
    assert s5 == [];
    var success := ListSuccess(h, search, startRow, pageSize);
    ChainStep(s4, success);
    ChainStep(s3, success);
    ChainStep(s2, success);
    ChainStep(s1, success);
    ChainStep(s, success);
  }

  /** Every list getList answers carries a listSize header equal to its length, beside the paging parameters as given. */
  lemma ListSizeHeaderIsListLength<T, U>(h: Hooks<T, U>, search: Result<Table<T>>, startRow: Int32, pageSize: Int32)
    requires search.Ok? ==> Countable(search.value)
    ensures var r := ListRunOf(h, search, startRow, pageSize).response;
            r.Json? && r.body.Entities? ==> r.status == OK && r.headers == ListHeaders(startRow, pageSize, |r.body.items|)
  {
  }

  /**
   * With the base hooks, rows, a positive page size and a non-negative startRow, getList
   * answers the page that holds row startRow, and listSize is that page's length, at most
   * pageSize.
   */
  lemma ListAnswersPage<T, U>(t: Table<T>, startRow: Int32, pageSize: Int32)
    requires Countable(t) && t.refused == {} && t.selected != []
    requires pageSize > 0 && startRow >= 0
    ensures var index := JavaDiv(startRow, pageSize);
            var page := PageSlice(t.selected, index, pageSize);
            ListRunOf<T, U>(DefaultHooks(), Ok(t), startRow, pageSize)
              == ListRun(Json(OK, Entities(page), ListHeaders(startRow, pageSize, |page|)), [CountCall, PageCall(index, pageSize)])
            && |page| <= pageSize
  {
    PageHoldsStartRow(startRow, pageSize);
  }

  /** A refused page read is mapped once by handleFailures: postList does not run. */
  lemma PageReadFailure<T, U>(h: Hooks<T, U>, g: seq<T> -> Result<seq<T>>, t: Table<T>, startRow: Int32, pageSize: Int32)
    requires Countable(t) && CountOp !in t.refused && ListOp in t.refused && t.selected != []
    requires pageSize > 0 && startRow >= 0
    ensures var r := ListRunOf(h, Ok(t), startRow, pageSize);
            r == ListRun(HandleFailures(Unclassified(t.fault)), [CountCall, PageCall(JavaDiv(startRow, pageSize), pageSize)])
            && r == ListRunOf(h.(postList := g), Ok(t), startRow, pageSize)
  {
    PageHoldsStartRow(startRow, pageSize);
  }

  /** A failing postList is mapped once by handleFailures, after the reads getItemsList made. */
  lemma PostListFailure<T, U>(h: Hooks<T, U>, t: Table<T>, startRow: Int32, pageSize: Int32, f: Failure)
    requires Countable(t) && ItemsListing(t, pageSize, startRow).result.Ok?
    requires h.postList(ItemsListing(t, pageSize, startRow).result.value) == Err(f)
    ensures ListRunOf(h, Ok(t), startRow, pageSize) == ListRun(HandleFailures(f), ItemsListing(t, pageSize, startRow).calls)
  {
  }

  /** A failing getSearch reaches the client through handleFailures, and no read is made. */
  lemma ListSearchFailure<T, U>(h: Hooks<T, U>, f: Failure, startRow: Int32, pageSize: Int32)
    ensures ListRunOf<T, U>(h, Err(f), startRow, pageSize) == ListRun(HandleFailures(f), [])
  {
  }

  // ----- across endpoints -----

  /** Create then fetch: with the base hooks, fetching the key of a stored object answers that object. */
  lemma PersistThenFetch<T, U>(c: Config<T, U>, rows: map<U, T>, typeName: string, keyText: U -> string, o: T)
    requires PersistOp !in c.refused && FlushOp !in c.refused && FindOp !in c.refused
    ensures var stored := PersistTrace(c, DefaultHooks(), rows, Some(o));
            stored.response == Json(OK, Entity(o), [])
            && FetchTrace(c, DefaultHooks(), stored.rows, typeName, keyText, c.keyOf(o)).response == Json(OK, Entity(o), [])
  {
  }

  /**
   * Two requests on one session, a persist and then a delete: the table after both is
   * the replay of the two requests' calls, in the order they were made, from the table
   * the first one started with.
   */
  lemma PersistThenDeleteReplaysBoth<T, U>(c: Config<T, U>, h: Hooks<T, U>, rows: map<U, T>, o: T, typeName: string, keyText: U -> string, id: U)
    ensures var p := PersistTrace(c, h, rows, Some(o));
            var d := DeleteTrace(c, h, p.rows, typeName, keyText, id);
            d.rows == Replay(c, rows, p.calls + d.calls)
  {
    var p := PersistTrace(c, h, rows, Some(o));
    var d := DeleteTrace(c, h, p.rows, typeName, keyText, id);
    PersistIsChain(c, h, rows, o);
    DeleteTableIsReplay(c, h, p.rows, typeName, keyText, id);
    ReplayAppend(c, rows, p.calls, d.calls);
  }

  /** A ReactiveException from a hook reaches the client with its own status and message, whatever the status. */
  lemma HookDomainErrorVerbatim<T, U>(c: Config<T, U>, h: Hooks<T, U>, rows: map<U, T>, o: T, status: Status, message: string)
    requires h.prePersist(o) == Err(Reactive(status, message))
    ensures PersistTrace(c, h, rows, Some(o)) == Trace(Json(status, Message(message), []), [], rows)
  {
  }

  /** Only a failure reaches a client as a Message or Fault body: every answer is the success one or a mapped failure. */
  lemma FailuresOnlyThroughHandleFailures<T, U>(c: Config<T, U>, h: Hooks<T, U>, rows: map<U, T>, typeName: string, keyText: U -> string, id: U)
    ensures var r := DeleteTrace(c, h, rows, typeName, keyText, id).response;
            r == Json(NO_CONTENT, Key(id), []) || exists f :: r == HandleFailures(f)
    ensures var r := FetchTrace(c, h, rows, typeName, keyText, id).response;
            (r.Json? && r.status == OK && r.body.Entity?) || exists f :: r == HandleFailures(f)
  {
    DeleteIsChain(c, h, rows, typeName, keyText, id);
    FetchIsChain(c, h, rows, typeName, keyText, id);
  }
}
