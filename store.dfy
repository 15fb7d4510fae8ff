/**
 * The record store the controllers and the seeding loop talk to: one table per
 * entity kind, keyed by a generated primary key, with find-one, find-all,
 * insert-or-update and delete-by-key. Saving is refused as a whole when the
 * row breaks a column constraint or shares a value of a UNIQUE column with
 * another row; a refused save persists nothing.
 */
module Store {
  import opened Wrappers

  /** A primary key. The database generates one for every inserted row. */
  type Key = nat

  /** A value held in a column under a UNIQUE index. */
  datatype UniqueValue = Username(name: string) | EnrollmentNo(number: int)

  /** Why the store refused a save. */
  datatype SaveError =
    | ColumnRejected   // a NOT NULL or type constraint of the table failed
    | UniqueViolation  // another row already holds one of the row's unique values

  /**
   * An entity object as the program holds it: the primary key it has once it
   * was saved (or that the row carries already), and its other columns.
   */
  datatype Row<F> = Row(id: Option<Key>, fields: F)

  /**
   * What the table enforces: the values a row places under UNIQUE indexes, and
   * the remaining column constraints.
   */
  datatype Schema<!F> = Schema(uniqueOf: F -> set<UniqueValue>, admits: F -> bool)

  /** The rows of one table, and the key the next insert receives. */
  datatype Table<F> = Table(rows: map<Key, F>, nextKey: Key)

  /** The answer of a save: the saved row or the error, and the table afterwards. */
  datatype Saved<F> = Saved(result: Result<Row<F>, SaveError>, table: Table<F>)

  /**
   * The invariant the database keeps: every key is below the next generated
   * one, every row meets the column constraints, and no two rows share a
   * value of a UNIQUE column.
   */
  ghost predicate Consistent<F>(s: Schema<F>, t: Table<F>) {
    && (forall k :: k in t.rows ==> k < t.nextKey && s.admits(t.rows[k]))
    && (forall k, k' :: k in t.rows && k' in t.rows && k != k' ==>
          s.uniqueOf(t.rows[k]) !! s.uniqueOf(t.rows[k']))
  }

  /** The key a save writes: the row's own key, or a freshly generated one. */
  function TargetKey<F>(t: Table<F>, row: Row<F>): Key {
    if row.id.Some? then row.id.value else t.nextKey
  }

  /** Whether a row other than the one at `key` already holds one of `f`'s unique values. */
  predicate Clash<F>(s: Schema<F>, t: Table<F>, key: Key, f: F) {
    exists k :: k in t.rows && k != key && !(s.uniqueOf(t.rows[k]) !! s.uniqueOf(f))
  }

  /**
   * Insert-or-update: a row with a key replaces the row stored at that key
   * (or is inserted there), a row without one is inserted at a new key.
   */
  function SaveTo<F>(s: Schema<F>, t: Table<F>, row: Row<F>): (out: Saved<F>)
    // the save is refused exactly when a constraint fails, and then persists nothing
    ensures out.result.Success? <==> s.admits(row.fields) && !Clash(s, t, TargetKey(t, row), row.fields)
    ensures out.result.Failure? ==> out.table == t
    ensures out.result.Failure? ==>
      (out.result.error == UniqueViolation <==> s.admits(row.fields))
    // a successful save stores exactly the row's columns under its key, and returns the row with that key
    ensures out.result.Success? ==>
      && out.result.value == Row(Some(TargetKey(t, row)), row.fields)
      && out.table.rows == t.rows[TargetKey(t, row) := row.fields]
    // nothing stored before is removed
    ensures t.rows.Keys <= out.table.rows.Keys
  {
    var key := TargetKey(t, row);
    if !s.admits(row.fields) then Saved(Failure(ColumnRejected), t)
    else if Clash(s, t, key, row.fields) then Saved(Failure(UniqueViolation), t)
    else
      Saved(Success(Row(Some(key), row.fields)),
            Table(t.rows[key := row.fields], if key < t.nextKey then t.nextKey else key + 1))
  }

  /**
   * On a consistent table, a row without a key lands on a key that was free,
   * and every save keeps the table invariant.
   */
  lemma SaveKeepsConsistent<F>(s: Schema<F>, t: Table<F>, row: Row<F>)
    requires Consistent(s, t)
    ensures row.id.None? ==> TargetKey(t, row) !in t.rows
    ensures Consistent(s, SaveTo(s, t, row).table)
  {
    var out := SaveTo(s, t, row);
    if out.result.Success? {
      var key := TargetKey(t, row);
      forall k, k' | k in out.table.rows && k' in out.table.rows && k != k'
        ensures s.uniqueOf(out.table.rows[k]) !! s.uniqueOf(out.table.rows[k'])
      {
        if k == key {
          assert !(k' in t.rows && k' != key && !(s.uniqueOf(t.rows[k']) !! s.uniqueOf(row.fields)));
        } else if k' == key {
          assert !(k in t.rows && k != key && !(s.uniqueOf(t.rows[k]) !! s.uniqueOf(row.fields)));
        }
      }
    }
  }

  /** Delete-by-key; a key that is not stored leaves the table as it is. */
  function DeleteFrom<F>(t: Table<F>, key: Key): (r: Table<F>)
    ensures r.rows.Keys == t.rows.Keys - {key}
    ensures forall k :: k in r.rows ==> r.rows[k] == t.rows[k]
    ensures r.nextKey == t.nextKey
  {
    Table(t.rows - {key}, t.nextKey)
  }

  /** Deleting a row keeps the table invariant. */
  lemma DeleteKeepsConsistent<F>(s: Schema<F>, t: Table<F>, key: Key)
    requires Consistent(s, t)
    ensures Consistent(s, DeleteFrom(t, key))
  {
  }

  /**
   * Re-saving a stored row unchanged under its own key always succeeds and
   * changes nothing, because the stored rows already meet every constraint.
   */
  lemma ResaveIsIdentity<F>(s: Schema<F>, t: Table<F>, key: Key)
    requires Consistent(s, t) && key in t.rows
    ensures SaveTo(s, t, Row(Some(key), t.rows[key])) == Saved(Success(Row(Some(key), t.rows[key])), t)
  {
    var f := t.rows[key];
    assert !Clash(s, t, key, f) by {
      forall k | k in t.rows && k != key
        ensures s.uniqueOf(t.rows[k]) !! s.uniqueOf(f)
      {
      }
    }
    assert t.rows[key := f] == t.rows;
  }

  /** `rs` lists every stored row exactly once, each with its key, in some order. */
  ghost predicate Enumerates<F>(rows: map<Key, F>, rs: seq<Row<F>>) {
    && (forall i :: 0 <= i < |rs| ==>
          rs[i].id.Some? && rs[i].id.value in rows && rs[i].fields == rows[rs[i].id.value])
    && (forall i, j :: 0 <= i < j < |rs| ==> rs[i].id != rs[j].id)
    && (forall k :: k in rows ==> exists i :: 0 <= i < |rs| && rs[i].id == Some(k))
  }

  /** The repository of one entity kind: a table the program updates in place. */
  class Repository<F> {
    const schema: Schema<F>
    var rows: map<Key, F>
    var nextKey: Key
    /** Every row handed to `Save`, in call order. */
    ghost var attempts: seq<Row<F>>

    function State(): Table<F>
      reads this
    {
      Table(rows, nextKey)
    }

    ghost predicate Valid()
      reads this
    {
      Consistent(schema, State())
    }

    constructor (schema: Schema<F>)
      ensures Valid() && this.schema == schema
      ensures rows == map[] && nextKey == 0 && attempts == []
    {
      this.schema := schema;
      rows := map[];
      nextKey := 0;
      attempts := [];
    }

    /** findOneOrFail: the row stored at `key`, or nothing when the key is absent. */
    function Find(key: Key): (r: Option<Row<F>>)
      reads this
      ensures r.Some? <==> key in rows
      ensures r.Some? ==> r.value == Row(Some(key), rows[key])
    {
      if key in rows then Some(Row(Some(key), rows[key])) else None
    }

    /**
     * findOneOrFail agrees with find: a key is found exactly when some listed
     * row carries it, and then the found row is that listed row.
     */
    lemma FindAgreesWithFindAll(rs: seq<Row<F>>, key: Key)
      requires Enumerates(rows, rs)
      ensures Find(key).Some? <==> exists i :: 0 <= i < |rs| && rs[i].id == Some(key)
      ensures forall i :: 0 <= i < |rs| && rs[i].id == Some(key) ==> Find(key) == Some(rs[i])
    {
    }

    /** find: every stored row, in an order the store chooses. */
    method FindAll() returns (rs: seq<Row<F>>)
      ensures Enumerates(rows, rs)
    {
      rs := [];
      var remaining := rows.Keys;
      while remaining != {}
        invariant remaining <= rows.Keys
        invariant forall i :: 0 <= i < |rs| ==>
          && rs[i].id.Some? && rs[i].id.value in rows && rs[i].id.value !in remaining
          && rs[i].fields == rows[rs[i].id.value]
        invariant forall i, j :: 0 <= i < j < |rs| ==> rs[i].id != rs[j].id
        invariant forall k :: k in rows && k !in remaining ==> exists i :: 0 <= i < |rs| && rs[i].id == Some(k)
        decreases remaining
      {
        var k :| k in remaining;
        ghost var listed := rs;
        rs := rs + [Row(Some(k), rows[k])];
        forall k' | k' in rows && k' !in remaining - {k}
          ensures exists i :: 0 <= i < |rs| && rs[i].id == Some(k')
        {
          if k' == k {
            assert rs[|rs| - 1].id == Some(k);
          } else {
            var i :| 0 <= i < |listed| && listed[i].id == Some(k');
            assert rs[i] == listed[i];
          }
        }
        remaining := remaining - {k};
      }
    }

    /** save: insert-or-update, refused as a whole on a constraint violation. */
    method Save(row: Row<F>) returns (r: Result<Row<F>, SaveError>)
      requires Valid()
      modifies this
      ensures Valid()
      ensures row.id.None? ==> old(nextKey) !in old(rows)
      ensures Saved(r, State()) == SaveTo(schema, old(State()), row)
      ensures attempts == old(attempts) + [row]
    {
      SaveKeepsConsistent(schema, State(), row);
      var out := SaveTo(schema, State(), row);
      r := out.result;
      rows, nextKey := out.table.rows, out.table.nextKey;
      attempts := attempts + [row];
    }

    /** delete: removes the row at `key`, if there is one. */
    method Delete(key: Key)
      requires Valid()
      modifies this
      ensures Valid()
      ensures State() == DeleteFrom(old(State()), key)
      ensures attempts == old(attempts)
    {
      DeleteKeepsConsistent(schema, State(), key);
      rows := rows - {key};
    }
  }
}
