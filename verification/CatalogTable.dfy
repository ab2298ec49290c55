/** The small contract of the storage engine that the catalog relies on. The
    engine itself (SQL, expression parsing, item sizing) is not part of this model. */
module CatalogTable {
  import opened Common
  import opened CatalogItems

  // ---- Conditions ----------------------------------------------------------

  datatype Condition =
    | AttributeExists(f: Field)
    | AttributeNotExists(f: Field)
    | And(l: Condition, r: Condition)

  /** Conditions are evaluated on the stored row; an absent item has no attributes. */
  predicate Holds(c: Condition, row: Row) {
    match c
    case AttributeExists(f) => f in row
    case AttributeNotExists(f) => f !in row
    case And(l, r) => Holds(l, row) && Holds(r, row)
  }

  function RowAt(t: Table, k: Key): Row {
    if k in t then t[k] else map[]
  }

  // ---- Writes: None is a failed condition ----------------------------------

  function PutItem(t: Table, row: Row, c: Condition): (r: Option<Table>)
    requires HasKey(row)
  {
    if Holds(c, RowAt(t, KeyOf(row))) then Some(t[KeyOf(row) := row]) else None
  }

  /** UpdateItem upserts: without a condition an absent item is created from its
      key and the assigned attributes alone. */
  function UpdateItem(t: Table, k: Key, assignments: Row, c: Condition): Option<Table> {
    if Holds(c, RowAt(t, k))
    then Some(t[k := map[PK := S(k.pk), SK := S(k.sk)] + RowAt(t, k) + assignments])
    else None
  }

  const BATCH_LIMIT := 25

  predicate DistinctKeys(rows: seq<Row>)
    requires forall i | 0 <= i < |rows| :: HasKey(rows[i])
  {
    forall i, j | 0 <= i < j < |rows| :: KeyOf(rows[i]) != KeyOf(rows[j])
  }

  /** What the engine accepts as one BatchWriteItem of put requests. */
  predicate BatchAccepted(rows: seq<Row>) {
    && 0 < |rows| <= BATCH_LIMIT
    && (forall i | 0 <= i < |rows| :: HasKey(rows[i]))
    && DistinctKeys(rows)
  }

  function PutAll(t: Table, rows: seq<Row>): Table
    requires forall i | 0 <= i < |rows| :: HasKey(rows[i])
  {
    if rows == [] then t
    else PutAll(t, rows[..|rows| - 1])[KeyOf(rows[|rows| - 1]) := rows[|rows| - 1]]
  }

  lemma {:induction false} PutAllAppend(t: Table, xs: seq<Row>, ys: seq<Row>)
    requires forall i | 0 <= i < |xs| :: HasKey(xs[i])
    requires forall i | 0 <= i < |ys| :: HasKey(ys[i])
    ensures PutAll(t, xs + ys) == PutAll(PutAll(t, xs), ys)
    decreases |ys|
  {
    if ys == [] {
      assert xs + ys == xs;
    } else {
      assert (xs + ys)[..|xs + ys| - 1] == xs + ys[..|ys| - 1];
      PutAllAppend(t, xs, ys[..|ys| - 1]);
    }
  }

  predicate Expired(row: Row, now: int) {
    Expires in row && row[Expires].N? && row[Expires].n <= now
  }

  /** The TTL sweep removes some of the expired items: the injected engine removes
      all of them at once, real DynamoDB any subset at any time. */
  function Sweep(t: Table, chosen: set<Key>, now: int): Table {
    map k | k in t && !(k in chosen && Expired(t[k], now)) :: t[k]
  }

  // ---- Queries: which keys match -------------------------------------------

  /** PK = pk AND begins_with(SK, prefix), filtered by attribute_not_exists(Expires). */
  function PartitionQuery(t: Table, pk: string, prefix: string): set<Key> {
    set k | k in t && k.pk == pk && prefix <= k.sk && Expires !in t[k]
  }

  /** EntityType = et on EntityTypeIndex with the same filter. The index holds only
      rows that carry both of its key attributes. */
  function IndexQuery(t: Table, et: string): set<Key> {
    set k | k in t && EntityType in t[k] && t[k][EntityType] == S(et) && EntityID in t[k] && t[k][EntityID].S?
            && Expires !in t[k]
  }

  /** s lists members of `all` without repetition; it is the whole of `all` when complete. */
  predicate Listing<T(==)>(s: seq<T>, all: set<T>, complete: bool) {
    && Distinct(s)
    && (forall x | x in s :: x in all)
    && (complete ==> forall x | x in all :: x in s)
  }

  // ---- The engine as the repository sees it --------------------------------

  datatype Reply = Applied | ConditionFailed | Rejected | Fault

  class Engine {
    var table: Table
    var now: int
    /** How many calls have failed for a reason outside the contract below. */
    ghost var faults: nat

    /** The table may exist already, with contents. */
    constructor (table: Table, now: int)
      ensures this.table == table && this.now == now && faults == 0
    {
      this.table := table;
      this.now := now;
      faults := 0;
    }

    /** time.Now().Unix(): the clock may have advanced since it was last read. */
    method Now() returns (n: int)
      modifies this`now
      ensures n == now && old(now) <= now
    {
      var d :| 0 <= d;
      now := now + d;
      n := now;
    }

    method Get(k: Key) returns (r: Reply, row: Row)
      modifies this`faults
      ensures faults == old(faults) + if r == Fault then 1 else 0
      ensures r == Applied || r == Fault
      ensures r == Applied ==> row == RowAt(table, k)
    {
      if * {
        faults := faults + 1;
        return Fault, map[];
      }
      return Applied, RowAt(table, k);
    }

    /** A call that returns an error leaves the table unchanged. */
    method Put(row: Row, c: Condition) returns (r: Reply)
      requires HasKey(row)
      modifies this`table, this`faults
      ensures faults == old(faults) + if r == Fault then 1 else 0
      ensures r == Applied <==> r != Fault && Holds(c, RowAt(old(table), KeyOf(row)))
      ensures r == Applied ==> PutItem(old(table), row, c) == Some(table)
      ensures r != Applied ==> table == old(table) && r != Rejected
    {
      if * {
        faults := faults + 1;
        return Fault;
      }
      var p := PutItem(table, row, c);
      if p == None {
        return ConditionFailed;
      }
      table := p.value;
      return Applied;
    }

    method Update(k: Key, assignments: Row, c: Condition) returns (r: Reply)
      modifies this`table, this`faults
      ensures faults == old(faults) + if r == Fault then 1 else 0
      ensures r == Applied <==> r != Fault && Holds(c, RowAt(old(table), k))
      ensures r == Applied ==> UpdateItem(old(table), k, assignments, c) == Some(table)
      ensures r != Applied ==> table == old(table) && r != Rejected
    {
      if * {
        faults := faults + 1;
        return Fault;
      }
      var p := UpdateItem(table, k, assignments, c);
      if p == None {
        return ConditionFailed;
      }
      table := p.value;
      return Applied;
    }

    /** All or nothing. */
    method BatchWrite(rows: seq<Row>) returns (r: Reply)
      modifies this`table, this`faults
      ensures faults == old(faults) + if r == Fault then 1 else 0
      ensures r == Fault || r == if BatchAccepted(rows) then Applied else Rejected
      ensures r == Applied ==> table == PutAll(old(table), rows)
      ensures r != Applied ==> table == old(table)
    {
      if * {
        faults := faults + 1;
        return Fault;
      }
      if !BatchAccepted(rows) {
        return Rejected;
      }
      table := PutAll(table, rows);
      return Applied;
    }

    /** One query page over the matching keys: no row twice, and every matching row
        unless the engine stopped early and left a LastEvaluatedKey (`more`). */
    method Page(matching: set<Key>) returns (r: Reply, rows: seq<(Key, Row)>, more: bool)
      requires matching <= table.Keys
      modifies this`faults
      ensures faults == old(faults) + if r == Fault then 1 else 0
      ensures r == Applied || r == Fault
      ensures r == Applied ==> Listing(rows, set k | k in matching :: (k, table[k]), !more)
    {
      if * {
        faults := faults + 1;
        return Fault, [], false;
      }
      rows, more := [], false;
      var rest := matching;
      while rest != {} && !more
        invariant rest <= matching && faults == old(faults)
        invariant Distinct(rows)
        invariant forall x | x in rows :: x.0 in matching && x.0 !in rest && x.1 == table[x.0]
        invariant forall k | k in matching - rest :: (k, table[k]) in rows
        decreases rest, !more
      {
        if * {
          more := true;
        } else {
          var k :| k in rest;
          rest := rest - {k};
          rows := rows + [(k, table[k])];
        }
      }
      return Applied, rows, more;
    }

    /** Removes expired items only, and reports how many. */
    method ExpireExpired() returns (r: Reply, n: nat)
      modifies this`table, this`faults
      ensures faults == old(faults) + if r == Fault then 1 else 0
      ensures r == Applied || r == Fault
      ensures r == Applied ==> table == Sweep(old(table), old(table).Keys, now) && n == |old(table)| - |table|
      ensures r == Fault ==> table == old(table)
    {
      if * {
        faults := faults + 1;
        return Fault, 0;
      }
      var before := table;
      table := Sweep(table, table.Keys, now);
      assert table.Keys <= before.Keys;
      assert before.Keys == table.Keys + (before.Keys - table.Keys);
      return Applied, |before| - |table|;
    }
  }
}
