# Department identity map

A model of the `Department` class in `lib/department.py`: a small
object-relational layer that binds `Department` instances (`id`, `name`,
`location`) to rows of one SQLite table `departments(id INTEGER PRIMARY KEY,
name TEXT, location TEXT)`. It keeps a class-level dictionary
`Department.all` from primary key to the one live instance of that row.

The model is written in Dafny and has four modules:

- `Wrappers` (`wrappers.dfy`): `Option` (Python's `None`) and `Outcome` (an operation that
  completes or raises).
- `Table` (`table.dfy`): the table as its sequence of rows in storage order. It has
  pure functions for the effect of each SQL statement the class issues, and
  lemmas about them:
  - `NextRowId`: SQLite's rowid choice for an INSERT.
  - `UpdateWhere`: `UPDATE ... WHERE`.
  - `DeleteWhere`: `DELETE ... WHERE`.
  - `FirstMatch`: `SELECT ... WHERE` followed by `fetchone`.
- `Departments` (`department.dfy`): class `Department`, with mutable fields `id: Option<int>`, `name` and
  `location`, and its instance methods `Save`, `Update` and `Delete`. Class `Store` holds
  the class-level state, the table and the identity map `all`, and has the class methods
  (`Create`, `InstanceFromRow`, `GetAll`, `FindById`, `FindByName`, `DropTable`).
- `Scenarios` (`scenarios.dfy`): client methods that use only the operations' contracts. Each
  one proves a behaviour the identity map is meant to guarantee, such as
  reference identity across lookups, reconciliation, update, delete, name ties, the
  empty table and the stale entry after a drop.

The central invariant is `Store.Valid()`. Every key `k` of `all` maps to an
instance whose `id` is `Some(k)`, and no two rows share an id. The constructor
establishes it. `Update`, `Delete`, `InstanceFromRow`, `GetAll`, `FindById`,
`FindByName`, `DropTable` and `Create` preserve it. `Save` preserves it when the
instance is not already cached, and in particular when it is transient (`id == None`).
The source does not guard `save` against an instance that is already saved, and
`Scenarios.SaveTwiceBreaksIdentityMap` shows that such a call breaks the invariant.
Every operation takes `Valid()` as its object invariant on entry. The queries
need it to promise that a cached instance's `id` equals its row's id.

On four points the code behaves differently from what a reader might expect
of an identity map, and the model follows the code:

- Ids may be reused. The column is `INTEGER PRIMARY KEY` without
  `AUTOINCREMENT` (lib/department.py:21). SQLite then hands out one more than
  the largest id present, so after the row with the largest id is deleted, its id can come back.
- `drop_table` does not clear `Department.all` (lib/department.py:29-35).
- `delete` on an id that is not in the map raises `KeyError` from `del`
  (lib/department.py:80). By then the `DELETE` statement has already been committed (lines 76-77).
  `Department.Delete` returns `Fail(KeyError(id))` in that case, with the row removed and the map and id
  unchanged.
- `save` does not check that the instance is transient (lib/department.py:37-50).

## Model

| member | source | states |
|---|---|---|
| `Departments.Department.constructor` | lib/department.py:8-11 | A new instance holds exactly the given name, location and id (`None` by default). |
| `Departments.Department.Save` | lib/department.py:37-50 | Afterwards `id` is an id that no row had before. The table gains exactly one row, at the end, holding that id and the instance's name and location. `all` maps the new id to this very instance and is otherwise unchanged. The identity-map invariant is kept when the instance was not cached before, in particular when it was transient. |
| `Departments.Store.Create` | lib/department.py:52-57 | Returns a fresh instance with exactly the given name and location and a newly allocated id. It is registered under that id in `all`, and its row is appended to the table. The invariant is kept. |
| `Departments.Department.Update` | lib/department.py:59-67 | The new table is the old one with the row whose id equals the instance's id rewritten to its name and location. `all` is not touched. The invariant is kept. |
| `Departments.Department.Delete` | lib/department.py:69-83 | The row with the instance's id is removed and the other rows keep their order. If the id is a key of `all`, that key is removed, `id` becomes `None` and the result is `Pass`. Otherwise the map and id are unchanged and `KeyError` is raised. The invariant is kept. |
| `Departments.Store.InstanceFromRow` | lib/department.py:86-102 | The result holds the row's id, name and location. If the id was cached, the result is the very same cached object and `all` is unchanged. Otherwise the result is a fresh object, and `all` gains exactly the key `row.id`, mapped to it. No other key changes its target, only the reconciled object is modified, and the invariant is kept. |
| `Departments.Store.GetAll` | lib/department.py:105-114 | Returns one instance per row, in table order, each equal in id, name and location to its row and equal to `all[row.id]`. Every previously cached key keeps its object. New keys are row ids mapped to fresh objects. Cached instances whose id has no row keep their fields. The table is unchanged and the invariant is kept. |
| `Departments.Store.FindById` | lib/department.py:117-126 | Returns `None`, with nothing changed, exactly when no row has id `k`. Otherwise it returns `all[k]`, holding id `k` and that row's name and location. That object is the previously cached one if `k` was cached, and a fresh one registered under `k` otherwise. |
| `Departments.Store.FindByName` | lib/department.py:129-138 | Returns `None`, with nothing changed, when no row has the name. Otherwise it returns the instance reconciled from the first row in table order with that name. That instance is `all` at the row's id: the cached object if there was one, otherwise a fresh one. |
| `Departments.Store.DropTable` | lib/department.py:29-35 | Empties the table and leaves `all` exactly as it was. The invariant is kept. |
| `Departments.Store.constructor` | lib/department.py:6 | Starts with an empty table and an empty identity map, which satisfy the invariant. |
| `Table.MaxId` | lib/department.py:21 | The result is at least every id in a non-empty table and is itself one of the table's ids. |
| `Table.NextRowId` | lib/department.py:49 | The id an INSERT receives is greater than every id in the table, so no row has it yet. |
| `Table.FirstMatch` | lib/department.py:134-137 | The result is the index of a row the WHERE clause selects, with no selected row before it. It is `None` exactly when the clause selects no row. |
| `Table.UpdateWhere` | lib/department.py:61-66 | Same length and the same ids in the same order. Selected rows get the new name and location, and every other row is identical. When nothing is selected the table is unchanged. |
| `Table.DeleteWhere` | lib/department.py:71-76 | A row remains exactly when it was present and is not selected, and the table never grows. |
| `Table.InsertKeepsDistinct` | lib/department.py:42-46 | Inserting a row under an id no row has keeps ids unique and adds exactly that id. |
| `Table.UpdateKeepsIds` | lib/department.py:61-66 | An UPDATE keeps the set of ids and their uniqueness. |
| `Table.UpdateById` | lib/department.py:59-67 | With unique ids, updating by the id of row `i` rewrites row `i` and leaves every other row as it was. |
| `Table.DeleteKeepsDistinct` | lib/department.py:71-76 | A DELETE keeps ids unique. |
| `Table.DeleteIds` | lib/department.py:71-76 | Deleting by id `k` removes `k`, and only `k`, from the table's ids. |
| `Table.DeleteById` | lib/department.py:69-77 | With unique ids, deleting by the id of row `i` yields the table without row `i`, with every other row in its order. |
| `Table.DeleteMissing` | lib/department.py:71-76 | A DELETE that selects no row leaves the table unchanged. |
| `Table.DeleteShrinks` | lib/department.py:69-77 | Deleting a present id from a table with unique ids removes exactly one row. |
| `Table.SelectById` | lib/department.py:119-125 | `SELECT ... WHERE id = k` finds a row exactly when `k` is one of the table's ids, and the row found has id `k`. |
| `Table.FirstMatchAt` | lib/department.py:131-137 | When row `n` is selected and no earlier row is, `fetchone` returns row `n`. |
| `Table.SelectInserted` | lib/department.py:41-50 | A row just inserted under a fresh id is the row a select by that id returns. |
| `Scenarios.FindByIdTwice` | lib/department.py:92-93 | Two lookups of the same id, with no delete between them, return the same object reference. They find something exactly when a row has that id. |
| `Scenarios.CreateThenFind` | lib/department.py:52-57 | Looking up a created department by its id returns that very instance, with the given name and location. |
| `Scenarios.ReadDiscardsLocalEdit` | lib/department.py:94-96 | An unsaved edit to a cached instance is overwritten by its row's name when the row is read by id. |
| `Scenarios.UpdateThenFind` | lib/department.py:59-67 | After `update`, a lookup of the same id sees the new location. |
| `Scenarios.DeleteThenFind` | lib/department.py:69-83 | After `delete`, the instance's id is `None`, a lookup of the old id finds nothing, and the table has one row fewer. |
| `Scenarios.FindByNameTie` | lib/department.py:129-138 | Of two departments with the same name, `find_by_name` returns the one inserted first. |
| `Scenarios.GetAllOnEmptyTable` | lib/department.py:105-114 | Reading every row of an empty table returns an empty sequence. |
| `Scenarios.DropLeavesStaleEntry` | lib/department.py:29-35 | After `drop_table`, a saved instance is still reachable through `all`, yet a lookup by its id finds nothing. |
| `Scenarios.SaveTwiceBreaksIdentityMap` | lib/department.py:49-50 | Saving an already-saved instance leaves its first key pointing at an object whose id is now different. The identity-map invariant then fails. |

## Left out

- `Departments.Department.Save`: promises only that the new id is one no row had. It does not promise SQLite's exact choice, even though the body uses `NextRowId`, SQLite's usual rule (the largest id plus one, or 1 for an empty table). When the largest id is already 2^63-1, SQLite instead picks an unused id at random. The model does not cover that case, and ids are unbounded integers.
- `create_table` (lib/department.py:17-26): whether the table exists is not modelled. The table always exists, so creating it would change nothing.
- `CURSOR`, `CONN`, `execute`, `commit` and the SQL text: these are calls into SQLite. Each statement is replaced by its effect on the abstract table. A failure inside SQLite (I/O error, full disk) is not modelled.
- Whether SQLite's `SELECT *` without `ORDER BY` returns rows in storage order is assumed, not modelled. The table is kept as a sequence in that order.
- `find_by_name`'s `name is ?` (lib/department.py:134) is null-safe. The model treats names as non-null strings and uses plain equality.
- `Departments.Store.FindById`: takes an integer. The source also accepts `None`, which selects no row and returns `None`.
- Python's dynamic typing: `id` is modelled as `Option<int>`, and `name` and `location` as strings.
- The truthiness tests `if department` and `if row` (lib/department.py:93, 126, 138) are modelled as presence tests. Instances and row tuples are always truthy.
- `__repr__` (lib/department.py:13-14): string formatting only.
- Concurrency, and a crash between a committed statement and the update of `all`: the code has neither.
- `all` is a class attribute, so it is shared by the whole process. The model keeps it as one `Store` object that every operation receives.
