/**
 * Client code that uses only the operations' contracts, showing the
 * behaviours the identity map is there to guarantee.
 */
module Scenarios {
  import opened Wrappers
  import opened Table
  import opened Departments

  /** Two lookups of one id, with no delete between them, give the same instance. */
  method FindByIdTwice(store: Store, k: int) returns (a: Option<Department>, b: Option<Department>)
    requires store.Valid()
    modifies store, store.all.Values
    ensures a == b
    ensures a.Some? <==> k in Ids(store.table)
  {
    a := store.FindById(k);
    b := store.FindById(k);
  }

  /** A created department is found again by its id: the same instance, with the given fields. */
  method CreateThenFind(store: Store, name: string, location: string)
    returns (d: Department, found: Option<Department>)
    requires store.Valid()
    modifies store
    ensures found == Some(d) && d.name == name && d.location == location
  {
    d := store.Create(name, location);
    assert Row(d.id.value, name, location) in store.table;
    found := store.FindById(d.id.value);
  }

  /** An edit of a cached instance that was never saved is lost when its row is read again. */
  method ReadDiscardsLocalEdit(store: Store, d: Department, newName: string)
    returns (found: Option<Department>)
    requires store.Valid() && d.id.Some? && d.id.value in store.all && store.all[d.id.value] == d
    requires d.id.value in Ids(store.table)
    modifies store, d
    ensures found == Some(d) && d.id == old(d.id)
    ensures forall i :: 0 <= i < |store.table| && store.table[i].id == d.id.value ==>
              d.name == store.table[i].name
  {
    d.name := newName;
    found := store.FindById(d.id.value);
  }

  /** After an update, a later lookup of the id observes the new location. */
  method UpdateThenFind(store: Store, d: Department, location: string)
    returns (found: Option<Department>)
    requires store.Valid() && d.id.Some? && d.id.value in Ids(store.table)
    modifies store, store.all.Values, d
    ensures found.Some? && found.value.id == d.id && found.value.location == location
  {
    var k := d.id.value;
    SelectById(store.table, k);
    var i := FirstMatch(store.table, IdIs(Some(k))).value;
    d.location := location;
    d.Update(store);
    assert store.table[i].id == k && store.table[i].location == location;
    assert store.table[i] in store.table;
    found := store.FindById(k);
  }

  /** After a delete the id is cleared, the old id finds nothing and the table has one row fewer. */
  method DeleteThenFind(store: Store, d: Department) returns (found: Option<Department>)
    requires store.Valid() && d.id.Some? && d.id.value in store.all && d.id.value in Ids(store.table)
    modifies store, d
    ensures d.id == None && found == None
    ensures |store.table| == |old(store.table)| - 1
  {
    var k := d.id.value;
    DeleteShrinks(store.table, k);
    DeleteIds(store.table, k);
    var outcome := d.Delete(store);
    found := store.FindById(k);
  }

  /** Of two departments with the same name, the one inserted first is found by name. */
  method FindByNameTie(name: string, location1: string, location2: string)
    returns (first: Department, found: Option<Department>)
    ensures found == Some(first) && first.location == location1
  {
    var store := new Store();
    first := store.Create(name, location1);
    var second := store.Create(name, location2);
    found := store.FindByName(name);
  }

  /** Reading every row of an empty table gives no instances. */
  method GetAllOnEmptyTable() returns (ds: seq<Department>)
    ensures ds == []
  {
    var store := new Store();
    ds := store.GetAll();
  }

  /** Dropping the table leaves the cached instance reachable through the map, yet no lookup finds it. */
  method DropLeavesStaleEntry(name: string, location: string)
    returns (d: Department, found: Option<Department>, cached: bool)
    ensures found == None && cached
  {
    var store := new Store();
    d := store.Create(name, location);
    var k := d.id.value;
    store.DropTable();
    found := store.FindById(k);
    cached := k in store.all && store.all[k] == d;
  }

  /**
   * Saving an instance that is already saved registers it under a second id
   * while the first key still maps to it: the identity map no longer holds.
   */
  method SaveTwiceBreaksIdentityMap(name: string, location: string)
    returns (store: Store, d: Department)
    ensures d.id.Some? && d.id.value in store.all && store.all[d.id.value] == d
    ensures !store.Valid()
  {
    store := new Store();
    d := store.Create(name, location);
    var first := d.id.value;
    d.Save(store);
    assert store.all[first] == d && d.id != Some(first);
  }
}
