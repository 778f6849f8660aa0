/**
 The database the account purge works on: rows keyed by primary key, single-column foreign keys
 that reference primary keys, and the two kinds of statement the script issues.
 */
module PurgeSchema {
  import opened Wrappers

  type Table = string
  type Column = string
  type Id = string
  /** A row's non-NULL columns; a column that is absent is NULL. */
  type Row = map<Column, Id>
  /** Rows by primary key; a table without a single-column primary key uses any row identifier. */
  type Db = map<Table, map<Id, Row>>
  /** The delete set: identifiers per table. */
  type Scope = map<Table, set<Id>>

  datatype ForeignKey = ForeignKey(
    childTable: Table, childColumn: Column, childNotNull: bool, parentTable: Table)

  datatype Statement =
    | SetNull(table: Table, column: Column, ids: set<Id>)
    | Delete(table: Table, ids: set<Id>)

  const ROOT_ONLY: set<Table> := {"users", "shops", "tenants"}
  const RETAIN: set<Table> := {"audit_logs", "policy_decisions", "meta_data_deletion_requests"}

  function Rows(db: Db, t: Table): map<Id, Row> {
    if t in db then db[t] else map[]
  }

  function Ids(scope: Scope, t: Table): set<Id> {
    if t in scope then scope[t] else {}
  }

  /** SQL `column = ANY(ids)`: NULL matches nothing. */
  predicate Refers(row: Row, column: Column, ids: set<Id>) {
    column in row && row[column] in ids
  }

  /** The stored row `id` of table `t` has `value` in a column. */
  ghost predicate Holds(db: Db, t: Table, id: Id, column: Column, value: Id) {
    t in db && id in db[t] && column in db[t][id] && db[t][id][column] == value
  }

  /** `SELECT pk FROM child WHERE column = ANY(ids)`. */
  function Referencing(db: Db, fk: ForeignKey, ids: set<Id>): set<Id> {
    set id | id in Rows(db, fk.childTable) && Refers(Rows(db, fk.childTable)[id], fk.childColumn, ids)
  }

  lemma {:induction false} ReferencingMeans(db: Db, fk: ForeignKey, ids: set<Id>, id: Id)
    ensures id in Referencing(db, fk, ids) <==> exists v :: v in ids && Holds(db, fk.childTable, id, fk.childColumn, v)
  {
    if id in Referencing(db, fk, ids) {
      assert Holds(db, fk.childTable, id, fk.childColumn, Rows(db, fk.childTable)[id][fk.childColumn]);
    }
  }

  predicate Satisfied(db: Db, fk: ForeignKey) {
    forall id | id in Rows(db, fk.childTable) ::
      var row := Rows(db, fk.childTable)[id];
      && (fk.childColumn in row ==> row[fk.childColumn] in Rows(db, fk.parentTable))
      && (fk.childNotNull ==> fk.childColumn in row)
  }

  /** Referential integrity and the NOT NULL constraints of the foreign-key columns. */
  predicate Integrity(db: Db, fks: seq<ForeignKey>) {
    forall fk | fk in fks :: Satisfied(db, fk)
  }

  /** Every value of a key's column is the identifier of a stored parent row, and NOT NULL columns have values. */
  lemma {:induction false} SatisfiedMeans(db: Db, fk: ForeignKey)
    ensures Satisfied(db, fk) <==>
      && (forall id, v | Holds(db, fk.childTable, id, fk.childColumn, v) ::
            fk.parentTable in db && v in db[fk.parentTable])
      && (fk.childNotNull && fk.childTable in db ==>
            forall id | id in db[fk.childTable] :: exists v :: Holds(db, fk.childTable, id, fk.childColumn, v))
  {
    if Satisfied(db, fk) {
      forall id, v | Holds(db, fk.childTable, id, fk.childColumn, v)
        ensures fk.parentTable in db && v in db[fk.parentTable]
      {
        assert id in Rows(db, fk.childTable);
      }
      if fk.childNotNull && fk.childTable in db {
        forall id | id in db[fk.childTable] ensures exists v :: Holds(db, fk.childTable, id, fk.childColumn, v) {
          assert id in Rows(db, fk.childTable);
          assert Holds(db, fk.childTable, id, fk.childColumn, db[fk.childTable][id][fk.childColumn]);
        }
      }
    }
    forall id | id in Rows(db, fk.childTable) && fk.childColumn in Rows(db, fk.childTable)[id]
      ensures Holds(db, fk.childTable, id, fk.childColumn, Rows(db, fk.childTable)[id][fk.childColumn])
    {}
  }

  /** NOT NULL belongs to the column, not to the key declared on it. */
  ghost predicate ConsistentNullability(fks: seq<ForeignKey>) {
    forall f, g | f in fks && g in fks && f.childTable == g.childTable && f.childColumn == g.childColumn ::
      f.childNotNull == g.childNotNull
  }

  function WithNull(row: Row, column: Column): Row {
    row - {column}
  }

  /** What a statement does to the stored rows, before any constraint is checked. */
  function Effect(db: Db, st: Statement): Db {
    if st.table !in db then db
    else match st
      case SetNull(t, column, ids) =>
        db[t := map id | id in db[t] ::
          if Refers(db[t][id], column, ids) then WithNull(db[t][id], column) else db[t][id]]
      case Delete(t, ids) => db[t := db[t] - ids]
  }

  /** The stored rows after a list of statements. */
  ghost function Run(db: Db, sts: seq<Statement>): Db {
    if sts == [] then db else Run(Effect(db, sts[0]), sts[1..])
  }

  /** Every statement of the list leaves every constraint satisfied, one after the other. */
  ghost predicate EveryStepKeeps(db: Db, fks: seq<ForeignKey>, sts: seq<Statement>) {
    sts == [] || (Integrity(Effect(db, sts[0]), fks) && EveryStepKeeps(Effect(db, sts[0]), fks, sts[1..]))
  }

  /** Where the bare effect of a DELETE keeps every key, no other row refers to what it deletes: no action fires. */
  lemma {:induction false} KeptDeleteFiresNothing(db: Db, fks: seq<ForeignKey>, t: Table, ids: set<Id>, fk: ForeignKey)
    requires Integrity(Effect(db, Delete(t, ids)), fks) && fk in fks && fk.parentTable == t
    ensures forall id | id in Referencing(db, fk, ids) :: fk.childTable == t && id in ids
  {
    var after := Effect(db, Delete(t, ids));
    assert Satisfied(after, fk);
    assert forall id | id in Rows(db, fk.childTable) && (fk.childTable != t || id !in ids) ::
      id in Rows(after, fk.childTable) && Rows(after, fk.childTable)[id] == Rows(db, fk.childTable)[id];
  }

  /**
   A database connection. Where the bare effect of a statement would break a constraint, what happens
   is up to the keys' ON DELETE actions: `react` is None for an error, or what the actions make of it.
   `trail` records every state a statement has produced, `fired` whether a constraint was ever at stake.
   */
  class Connection {
    const fks: seq<ForeignKey>
    const react: (Db, Statement) -> Option<Db>
    var tables: Db
    ghost var trail: seq<Db>
    ghost var fired: bool

    constructor (fks: seq<ForeignKey>, react: (Db, Statement) -> Option<Db>, tables: Db)
      ensures this.fks == fks && this.react == react && this.tables == tables && trail == [] && !fired
    {
      this.fks, this.react, this.tables, trail, fired := fks, react, tables, [], false;
    }

    /** A statement that ends in error changes nothing; one that succeeds leaves every constraint satisfied. */
    method Execute(st: Statement) returns (ok: bool)
      modifies this`tables, this`trail, this`fired
      ensures Integrity(Effect(old(tables), st), fks) ==>
        ok && tables == Effect(old(tables), st) && fired == old(fired)
      ensures !Integrity(Effect(old(tables), st), fks) ==>
        && fired && (ok ==> react(old(tables), st) == Some(tables) && Integrity(tables, fks))
      ensures !ok ==> tables == old(tables)
      ensures trail == if ok then old(trail) + [tables] else old(trail)
    {
      var next := Effect(tables, st);
      if !Integrity(next, fks) {
        fired := true;
        var reaction := react(tables, st);
        if reaction.None? || !Integrity(reaction.value, fks) { return false; }
        next := reaction.value;
      }
      tables, trail := next, trail + [next];
      ok := true;
    }

    /** Runs the statements until one fails; the caller rolls back. */
    method ExecuteAll(sts: seq<Statement>) returns (ok: bool)
      requires !fired
      modifies this`tables, this`trail, this`fired
      ensures !fired <==> EveryStepKeeps(old(tables), fks, sts)
      ensures !fired ==> ok && tables == Run(old(tables), sts)
      ensures ok && fired ==> exists db, st :: react(db, st).Some?
      ensures |old(trail)| <= |trail| && trail[..|old(trail)|] == old(trail)
      ensures forall k | |old(trail)| <= k < |trail| :: Integrity(trail[k], fks)
      ensures ok && Integrity(old(tables), fks) ==> Integrity(tables, fks)
    {
      var i := 0;
      while i < |sts|
        invariant 0 <= i <= |sts|
        invariant !fired ==> (EveryStepKeeps(old(tables), fks, sts) <==> EveryStepKeeps(tables, fks, sts[i..]))
        invariant !fired ==> Run(old(tables), sts) == Run(tables, sts[i..])
        invariant fired ==> !EveryStepKeeps(old(tables), fks, sts) && exists db, st :: react(db, st).Some?
        invariant |old(trail)| <= |trail| && trail[..|old(trail)|] == old(trail)
        invariant forall k | |old(trail)| <= k < |trail| :: Integrity(trail[k], fks)
        invariant Integrity(old(tables), fks) ==> Integrity(tables, fks)
      {
        assert sts[i..][0] == sts[i] && sts[i..][1..] == sts[i + 1..];
        var done := Execute(sts[i]);
        if !done { return false; }
        i := i + 1;
      }
      ok := true;
    }

    /** ROLLBACK: the rows of the transaction's start. */
    method Rollback(start: Db)
      modifies this`tables
      ensures tables == start
    {
      tables := start;
    }
  }
}
