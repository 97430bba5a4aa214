/**
 * The `Department` class: instances bound to rows of the `departments`
 * table, and the class-level identity map `Department.all` that keeps at
 * most one live instance per persisted id.
 *
 * The class-level state (the table and `all`) is the `Store` object; the
 * instance methods `save`, `update` and `delete` take it as a parameter and
 * the class methods are its methods.
 */
module Departments {
  import opened Wrappers
  import opened Table

  /** The `KeyError` that `del Department.all[key]` raises for a key it does not hold. */
  datatype Error = KeyError(key: Option<int>)

  class Department {
    var id: Option<int>
    var name: string
    var location: string

    /** `Department(name, location, id=None)`. */
    constructor (name: string, location: string, id: Option<int>)
      ensures this.name == name && this.location == location && this.id == id
    {
      this.id := id;
      this.name := name;
      this.location := location;
    }

    /**
     * Inserts a row holding this instance's name and location, stamps the
     * generated id onto the instance and registers it in the identity map.
     * The source does not check that the instance is transient; the identity
     * map stays consistent as long as it was not already cached (in
     * particular when it had no id).
     */
    method Save(store: Store)
      requires store.Valid()
      modifies this, store
      ensures id.Some? && id.value !in Ids(old(store.table))
      ensures store.table == old(store.table) + [Row(id.value, name, location)]
      ensures store.all == old(store.all)[id.value := this]
      ensures name == old(name) && location == old(location)
      ensures this !in old(store.all).Values ==> store.Valid()
      ensures old(id).None? ==> store.Valid()
    {
      var rowid := NextRowId(store.table);
      InsertKeepsDistinct(store.table, Row(rowid, name, location));
      store.table := store.table + [Row(rowid, name, location)];
      id := Some(rowid);
      store.all := store.all[rowid := this];
    }

    /**
     * Overwrites the row whose id is this instance's id with its name and
     * location; with no id, or an id no row has, no row changes.
     */
    method Update(store: Store)
      requires store.Valid()
      modifies store`table
      ensures store.table == UpdateWhere(old(store.table), IdIs(id), name, location)
      ensures store.Valid()
    {
      UpdateKeepsIds(store.table, IdIs(id), name, location);
      store.table := UpdateWhere(store.table, IdIs(id), name, location);
    }

    /**
     * Deletes the row with this instance's id, then removes that key from the
     * identity map and clears the id. The row is deleted (and committed)
     * before the map is touched, so when the key is not in the map the row is
     * gone yet `KeyError` is raised and the map and the id stay as they were.
     */
    method Delete(store: Store) returns (r: Outcome<Error>)
      requires store.Valid()
      modifies this, store
      ensures store.table == DeleteWhere(old(store.table), IdIs(old(id)))
      ensures name == old(name) && location == old(location)
      ensures old(id).Some? && old(id).value in old(store.all) ==>
                r == Pass && id == None && store.all == old(store.all) - {old(id).value}
      ensures !(old(id).Some? && old(id).value in old(store.all)) ==>
                r == Fail(KeyError(old(id))) && id == old(id) && store.all == old(store.all)
      ensures store.Valid()
    {
      DeleteKeepsDistinct(store.table, IdIs(id));
      store.table := DeleteWhere(store.table, IdIs(id));
      if id.Some? && id.value in store.all {
        store.all := store.all - {id.value};
        id := None;
        r := Pass;
      } else {
        r := Fail(KeyError(id));
      }
    }
  }

  class Store {
    /** The rows of `departments`, in storage order. */
    var table: seq<Row>
    /** The identity map `Department.all`, from primary key to its live instance. */
    var all: map<int, Department>

    /**
     * The identity-map invariant: every key maps to an instance holding that
     * id; and the table's primary key is unique.
     */
    ghost predicate Valid()
      reads this, all.Values
    {
      DistinctIds(table) && forall k :: k in all ==> all[k].id == Some(k)
    }

    /** The instance a row with id `k` would be reconciled into, if one is cached. */
    ghost function Cached(k: int): set<Department>
      reads this
    {
      if k in all then {all[k]} else {}
    }

    /** An empty table and an empty identity map. */
    constructor ()
      ensures Valid() && table == [] && all == map[]
    {
      table := [];
      all := map[];
    }

    /**
     * `drop_table`: empties the table and leaves the identity map as it was,
     * so instances of rows that are gone stay reachable through it.
     */
    method DropTable()
      requires Valid()
      modifies this`table
      ensures table == [] && all == old(all)
      ensures Valid()
    {
      table := [];
    }

    /** `create(name, location)`: a new instance, saved. */
    method Create(name: string, location: string) returns (d: Department)
      requires Valid()
      modifies this
      ensures fresh(d) && d.name == name && d.location == location
      ensures d.id.Some? && d.id.value !in Ids(old(table))
      ensures table == old(table) + [Row(d.id.value, name, location)]
      ensures all == old(all)[d.id.value := d]
      ensures Valid()
    {
      d := new Department(name, location, None);
      d.Save(this);
    }

    /**
     * `instance_from_db(row)`: the identity map's instance for the row's id,
     * overwritten with the row's name and location, or a new instance built
     * from the row and registered under its id.
     */
    method InstanceFromRow(row: Row) returns (d: Department)
      requires Valid()
      modifies this`all, Cached(row.id)
      ensures d.id == Some(row.id) && d.name == row.name && d.location == row.location
      ensures row.id in old(all) ==> d == old(all)[row.id] && all == old(all)
      ensures row.id !in old(all) ==> fresh(d) && all == old(all)[row.id := d]
      ensures forall k :: k in old(all) ==> k in all && all[k] == old(all)[k]
      ensures Valid()
    {
      if row.id in all {
        d := all[row.id];
        d.name := row.name;
        d.location := row.location;
      } else {
        d := new Department(row.name, row.location, None);
        d.id := Some(row.id);
        all := all[row.id := d];
      }
    }

    /**
     * `get_all`: one instance per row, in table order, each reconciled
     * through the identity map. Cached instances keep their identity;
     * cached instances whose row is gone are left alone.
     */
    method GetAll() returns (ds: seq<Department>)
      requires Valid()
      modifies this`all, all.Values
      ensures Valid() && table == old(table)
      ensures |ds| == |table|
      ensures forall i :: 0 <= i < |table| ==> table[i].id in all && ds[i] == all[table[i].id]
      ensures forall i :: 0 <= i < |table| ==>
                ds[i].id == Some(table[i].id) && ds[i].name == table[i].name && ds[i].location == table[i].location
      ensures forall k :: k in old(all) ==> k in all && all[k] == old(all)[k]
      ensures forall k :: k in all && k !in old(all) ==> k in Ids(table) && fresh(all[k])
      ensures forall k :: k in old(all) && k !in Ids(table) ==>
                all[k].name == old(all[k].name) && all[k].location == old(all[k].location)
    {
      var rows := table;
      ghost var m0 := all;
      ds := [];
      var i := 0;
      while i < |rows|
        invariant 0 <= i <= |rows|
        invariant Valid() && table == rows
        invariant |ds| == i
        invariant forall j :: 0 <= j < i ==>
                    rows[j].id in all && ds[j] == all[rows[j].id] && ds[j].name == rows[j].name && ds[j].location == rows[j].location
        invariant forall k :: k in m0 ==>
                    k in all && all[k] == m0[k] &&
                    (k !in Ids(rows) ==> m0[k].name == old(m0[k].name) && m0[k].location == old(m0[k].location))
        invariant forall k :: k in all && k !in m0 ==> k in Ids(rows) && fresh(all[k])
      {
        var row := rows[i];
        assert row in rows;
        forall j | 0 <= j < i ensures ds[j] !in Cached(row.id) {
          assert rows[j].id != row.id;
        }
        var d := InstanceFromRow(row);
        ds := ds + [d];
        i := i + 1;
      }
    }

    /**
     * `find_by_id(k)`: the reconciled instance of the row with id `k`, or
     * `None` when no row has that id.
     */
    method FindById(k: int) returns (r: Option<Department>)
      requires Valid()
      modifies this`all, Cached(k)
      ensures Valid() && table == old(table)
      ensures k !in Ids(table) ==> r == None && all == old(all)
      ensures k !in Ids(table) && k in all ==>
                all[k].name == old(all[k].name) && all[k].location == old(all[k].location)
      ensures k in Ids(table) ==> r.Some? && k in all && r.value == all[k] && r.value.id == Some(k)
      ensures k in Ids(table) ==> forall i :: 0 <= i < |table| && table[i].id == k ==>
                r.value.name == table[i].name && r.value.location == table[i].location
      ensures k in old(all) ==> all == old(all) && (r == None || r.value == old(all)[k])
      ensures k !in old(all) && r.Some? ==> fresh(r.value) && all == old(all)[k := r.value]
    {
      SelectById(table, k);
      match FirstMatch(table, IdIs(Some(k)))
      case None =>
        r := None;
      case Some(i) =>
        var d := InstanceFromRow(table[i]);
        r := Some(d);
    }

    /**
     * `find_by_name(name)`: the reconciled instance of the first row, in
     * table order, with that name, or `None` when no row has it.
     */
    method FindByName(name: string) returns (r: Option<Department>)
      requires Valid()
      modifies this`all, var m := FirstMatch(table, NameIs(name)); if m.Some? then Cached(table[m.value].id) else {}
      ensures Valid() && table == old(table)
      ensures FirstMatch(table, NameIs(name)).None? ==> r == None && all == old(all)
      ensures var m := FirstMatch(table, NameIs(name));
                m.Some? ==> var row := table[m.value];
                  r.Some? && row.id in all && r.value == all[row.id] &&
                  r.value.id == Some(row.id) && r.value.name == name && r.value.location == row.location &&
                  (row.id in old(all) ==> r.value == old(all)[row.id] && all == old(all)) &&
                  (row.id !in old(all) ==> fresh(r.value) && all == old(all)[row.id := r.value])
    {
      match FirstMatch(table, NameIs(name))
      case None =>
        r := None;
      case Some(i) =>
        var d := InstanceFromRow(table[i]);
        r := Some(d);
    }
  }
}
