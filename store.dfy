/**
 * The persistence side the controller drives. A Session stands for the injected
 * Mutiny.Session: find, persist, merge, remove and flush, each recorded in a call log and
 * each either refused by the database or applied to its table. A Query stands for the
 * PanacheQuery that getSearch builds: its sort, the filters attached to it in place, and
 * the count and page reads made on it.
 */
module Store {
  import opened Failures
  import opened OrderBy
  import opened Paging

  /** The kinds of session operation. */
  datatype Op = FindOp | PersistOp | MergeOp | RemoveOp | FlushOp

  /** One call made on the session, with its argument. */
  datatype Call<T, U> = Find(key: U) | Persist(entity: T) | Merge(entity: T) | Remove(entity: T) | Flush

  function OpOf<T, U>(call: Call<T, U>): Op {
    match call
    case Find(_) => FindOp
    case Persist(_) => PersistOp
    case Merge(_) => MergeOp
    case Remove(_) => RemoveOp
    case Flush => FlushOp
  }

  /**
   * What stays fixed for a session: how an entity's key is read, which operations the
   * database refuses, and the error it reports when it does.
   */
  datatype Config<!T, U> = Config(keyOf: T -> U, refused: set<Op>, fault: string)

  /** The failure a refused operation ends with: a database error, not a ReactiveException. */
  function Refusal<T, U>(c: Config<T, U>): (f: Failure)
    ensures f.Unclassified?
  {
    Unclassified(c.fault)
  }

  /** find: the stored entity with that key, or null. */
  function Lookup<T, U>(rows: map<U, T>, k: U): (r: Option<T>)
    ensures r.Some? <==> k in rows
    ensures r.Some? ==> r.value == rows[k]
  {
    if k in rows then Some(rows[k]) else None
  }

  /** What find(k) yields. */
  function FindResult<T, U>(c: Config<T, U>, rows: map<U, T>, k: U): (r: Result<Option<T>>)
    ensures r.Err? <==> FindOp in c.refused
    ensures r.Ok? ==> r.value == Lookup(rows, k)
  {
    if FindOp in c.refused then Err(Refusal(c)) else Ok(Lookup(rows, k))
  }

  /** What persist, merge, remove or flush yields: nothing, or the refusal. */
  function Outcome<T, U>(c: Config<T, U>, call: Call<T, U>): (r: Result<()>)
    ensures r.Err? <==> OpOf(call) in c.refused
    ensures r.Err? ==> r.failure == Refusal(c)
  {
    if OpOf(call) in c.refused then Err(Refusal(c)) else Ok(())
  }

  /** The table once the database has accepted a call: persist and merge store the entity under its key, remove drops its key. */
  function Applied<T, U>(c: Config<T, U>, rows: map<U, T>, call: Call<T, U>): (r: map<U, T>)
    ensures call.Persist? || call.Merge? ==> c.keyOf(call.entity) in r && r[c.keyOf(call.entity)] == call.entity
    ensures call.Remove? ==> c.keyOf(call.entity) !in r
    ensures forall k :: k in rows && !(call.Persist? || call.Merge? || call.Remove?) ==> k in r && r[k] == rows[k]
    ensures forall k :: k in rows && (call.Persist? || call.Merge? || call.Remove?) && k != c.keyOf(call.entity) ==> k in r && r[k] == rows[k]
    ensures forall k :: k in r ==> k in rows || ((call.Persist? || call.Merge?) && k == c.keyOf(call.entity))
  {
    match call
    case Persist(o) => rows[c.keyOf(o) := o]
    case Merge(o) => rows[c.keyOf(o) := o]
    case Remove(o) => rows - {c.keyOf(o)}
    case _ => rows
  }

  /** The table after a call: a refused call changes nothing. */
  function After<T, U>(c: Config<T, U>, rows: map<U, T>, call: Call<T, U>): map<U, T> {
    if OpOf(call) in c.refused then rows else Applied(c, rows, call)
  }

  /** The table a sequence of calls leaves behind, replayed in order from `rows`. */
  function Replay<T, U>(c: Config<T, U>, rows: map<U, T>, calls: seq<Call<T, U>>): map<U, T>
    decreases |calls|
  {
    if calls == [] then rows else After(c, Replay(c, rows, calls[..|calls| - 1]), calls[|calls| - 1])
  }

  /** Every stored entity sits under its own key, as in a persistence context. */
  predicate Keyed<T, U>(c: Config<T, U>, rows: map<U, T>) {
    forall k :: k in rows ==> c.keyOf(rows[k]) == k
  }

  /** A call the database applies keeps every entity under its own key. */
  lemma AfterKeepsKeyed<T, U>(c: Config<T, U>, rows: map<U, T>, call: Call<T, U>)
    requires Keyed(c, rows)
    ensures Keyed(c, After(c, rows, call))
  {
    var r := After(c, rows, call);
    forall k | k in r
      ensures c.keyOf(r[k]) == k
    {
      if !(OpOf(call) in c.refused) && (call.Persist? || call.Merge?) && k == c.keyOf(call.entity) {
        assert r[k] == call.entity;
      } else {
        assert k in rows && r[k] == rows[k];
      }
    }
  }

  /** Replaying one more call applies that call to the replayed table. */
  lemma ReplaySnoc<T, U>(c: Config<T, U>, rows: map<U, T>, calls: seq<Call<T, U>>, call: Call<T, U>)
    ensures Replay(c, rows, calls + [call]) == After(c, Replay(c, rows, calls), call)
  {
    assert (calls + [call])[..|calls|] == calls;
  }

  /** Replaying two logs one after the other is replaying their concatenation. */
  lemma {:induction false} ReplayAppend<T, U>(c: Config<T, U>, rows: map<U, T>, a: seq<Call<T, U>>, b: seq<Call<T, U>>)
    ensures Replay(c, Replay(c, rows, a), b) == Replay(c, rows, a + b)
    decreases |b|
  {
    if b == [] {
      assert a + b == a;
    } else {
      var b0 := b[..|b| - 1];
      ReplayAppend(c, rows, a, b0);
      assert a + b == (a + b0) + [b[|b| - 1]];
      ReplaySnoc(c, rows, a + b0, b[|b| - 1]);
    }
  }

  /** Reads (find) and flushes leave the table as it is. */
  lemma {:induction false} ReplayReadsOnly<T, U>(c: Config<T, U>, rows: map<U, T>, calls: seq<Call<T, U>>)
    requires forall i :: 0 <= i < |calls| ==> calls[i].Find? || calls[i].Flush?
    ensures Replay(c, rows, calls) == rows
    decreases |calls|
  {
    if calls != [] {
      ReplayReadsOnly(c, rows, calls[..|calls| - 1]);
    }
  }

  /** The injected Mutiny.Session, with the table it reads and writes and the log of calls made on it. */
  class Session<T, U(==)> {
    const config: Config<T, U>
    ghost const initial: map<U, T>
    var rows: map<U, T>
    var log: seq<Call<T, U>>

    /** The table is always what the logged calls made of the initial one, and each entity sits under its own key. */
    ghost predicate Valid()
      reads this
    {
      rows == Replay(config, initial, log) && Keyed(config, rows)
    }

    constructor (config: Config<T, U>, rows: map<U, T>)
      requires Keyed(config, rows)
      ensures this.config == config && this.rows == rows && log == [] && Valid()
    {
      this.config := config;
      this.initial := rows;
      this.rows := rows;
      this.log := [];
    }

    /** Records one call and applies its effect. */
    method Perform(call: Call<T, U>)
      requires Valid()
      modifies this
      ensures Valid()
      ensures log == old(log) + [call] && rows == After(config, old(rows), call)
    {
      ReplaySnoc(config, initial, log, call);
      AfterKeepsKeyed(config, rows, call);
      log := log + [call];
      rows := After(config, rows, call);
    }

    method Find(k: U) returns (r: Result<Option<T>>)
      requires Valid()
      modifies this
      ensures Valid()
      ensures log == old(log) + [Call.Find(k)] && rows == old(rows)
      ensures r == FindResult(config, old(rows), k)
    {
      r := if FindOp in config.refused then Err(Refusal(config)) else Ok(Lookup(rows, k));
      Perform(Call.Find(k));
    }

    method Persist(o: T) returns (r: Result<()>)
      requires Valid()
      modifies this
      ensures Valid()
      ensures log == old(log) + [Call.Persist(o)] && rows == After(config, old(rows), Call.Persist(o))
      ensures r == Outcome(config, Call.Persist(o))
    {
      r := Outcome(config, Call.Persist(o));
      Perform(Call.Persist(o));
    }

    method Merge(o: T) returns (r: Result<()>)
      requires Valid()
      modifies this
      ensures Valid()
      ensures log == old(log) + [Call.Merge(o)] && rows == After(config, old(rows), Call.Merge(o))
      ensures r == Outcome(config, Call.Merge(o))
    {
      r := Outcome(config, Call.Merge(o));
      Perform(Call.Merge(o));
    }

    method Remove(o: T) returns (r: Result<()>)
      requires Valid()
      modifies this
      ensures Valid()
      ensures log == old(log) + [Call.Remove(o)] && rows == After(config, old(rows), Call.Remove(o))
      ensures r == Outcome(config, Call.Remove(o))
    {
      r := Outcome(config, Call.Remove(o));
      Perform(Call.Remove(o));
    }

    method Flush() returns (r: Result<()>)
      requires Valid()
      modifies this
      ensures Valid()
      ensures log == old(log) + [Call.Flush] && rows == old(rows)
      ensures r == Outcome(config, Call.Flush)
    {
      r := Outcome(config, Call.Flush);
      Perform(Call.Flush);
    }
  }

  /** The kinds of read made on a query. */
  datatype QueryOp = CountOp | ListOp

  /** One read made on a query: count(), or page(Page.of(index, size)).list(). */
  datatype QueryCall = CountCall | PageCall(index: int, size: int)

  /** A named Hibernate filter attached to a query, with one named parameter. */
  datatype Filter = Filter(name: string, parameter: string, value: string)

  /**
   * What the database holds for a query: the rows it selects, in the order it returns
   * them, at most Long.MAX_VALUE of them; which reads it refuses; the error it reports.
   */
  datatype Table<T> = Table(selected: seq<T>, refused: set<QueryOp>, fault: string)

  predicate Countable<T>(t: Table<T>) {
    |t.selected| <= LONG_MAX
  }

  /** What count() yields. */
  function CountResult<T>(t: Table<T>): (r: Result<nat>)
    ensures r.Err? <==> CountOp in t.refused
    ensures r.Ok? ==> r.value == |t.selected|
  {
    if CountOp in t.refused then Err(Unclassified(t.fault)) else Ok(|t.selected|)
  }

  /** What page(Page.of(index, size)).list() yields for an index and size Page.of accepted. */
  function ListResult<T>(t: Table<T>, index: nat, size: nat): (r: Result<seq<T>>)
    requires size > 0
    ensures r.Err? <==> ListOp in t.refused
    ensures r.Ok? ==> r.value == PageSlice(t.selected, index, size)
  {
    if ListOp in t.refused then Err(Unclassified(t.fault)) else Ok(PageSlice(t.selected, index, size))
  }

  /** A PanacheQuery: built sorted or unsorted, then given filters in place and read. */
  class Query<T> {
    const sort: Option<Sort>
    const table: Table<T>
    var filters: seq<Filter>
    var log: seq<QueryCall>

    constructor (sort: Option<Sort>, table: Table<T>)
      ensures this.sort == sort && this.table == table && filters == [] && log == []
    {
      this.sort := sort;
      this.table := table;
      filters := [];
      log := [];
    }

    /** filter(name, parameters): attaches one more filter; nothing is read. */
    method AddFilter(f: Filter)
      modifies this
      ensures filters == old(filters) + [f] && log == old(log)
    {
      filters := filters + [f];
    }

    /** count() */
    method Count() returns (r: Result<nat>)
      modifies this
      ensures log == old(log) + [CountCall] && filters == old(filters)
      ensures r == CountResult(table)
    {
      log := log + [CountCall];
      r := CountResult(table);
    }

    /** page(Page.of(index, size)).list() */
    method List(index: nat, size: nat) returns (r: Result<seq<T>>)
      requires size > 0
      modifies this
      ensures log == old(log) + [PageCall(index, size)] && filters == old(filters)
      ensures r == ListResult(table, index, size)
    {
      log := log + [PageCall(index, size)];
      r := ListResult(table, index, size);
    }
  }
}
