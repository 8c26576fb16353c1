/** The records of the two datastores, the key and cross-store constraints on
    them, and the queries the handlers issue. */
module Schema {
  import opened Tables

  /** A column that may hold SQL NULL. */
  datatype Option<T> = None | Some(value: T)

  /** A document of the MongoDB `managers` collection; `id` is its `_id`. */
  datatype Manager = Manager(id: string, name: string, salary: int)

  /** A row of the MySQL `store` table; `mgrid` is NULL for a store without a manager. */
  datatype Store = Store(sid: string, location: string, mgrid: Option<string>)

  /** A row of the MySQL `product` table. */
  datatype Product = Product(pid: string, productdesc: string)

  /** A row of the MySQL `product_store` table: product `pid` is sold in store `sid`. */
  datatype ProductStore = ProductStore(pid: string, sid: string, price: real)

  const ManagerIdLength := 4
  const MinNameLength := 6
  const MinSalary := 30000
  const MaxSalary := 70000

  /** The manager record constraints of the data model: a 4-character id, a name
      longer than 5 characters and a salary from 30000 to 70000 inclusive. */
  predicate WellFormedManager(m: Manager) {
    |m.id| == ManagerIdLength && |m.name| >= MinNameLength && MinSalary <= m.salary <= MaxSalary
  }

  /** Whether a document with `_id == id` is in the collection. */
  predicate ManagerExists(managers: seq<Manager>, id: string) {
    exists m :: m in managers && m.id == id
  }

  /** After inserting `m`, the lookup finds exactly the old ids and `m.id`. */
  lemma ManagerExistsAfterInsert(managers: seq<Manager>, m: Manager, id: string)
    ensures ManagerExists(managers + [m], id) <==> id == m.id || ManagerExists(managers, id)
  {
    if ManagerExists(managers + [m], id) && id != m.id {
      var x :| x in managers + [m] && x.id == id;
      assert x in managers;
    }
  }

  predicate ProductExists(products: seq<Product>, pid: string) {
    exists p :: p in products && p.pid == pid
  }

  // Key constraints the datastores enforce themselves: `_id` in MongoDB, the
  // primary keys `sid` and `pid` in MySQL.

  predicate UniqueManagerIds(managers: seq<Manager>) {
    forall i, j :: 0 <= i < j < |managers| ==> managers[i].id != managers[j].id
  }

  predicate UniqueStoreIds(stores: seq<Store>) {
    forall i, j :: 0 <= i < j < |stores| ==> stores[i].sid != stores[j].sid
  }

  predicate UniqueProductIds(products: seq<Product>) {
    forall i, j :: 0 <= i < j < |products| ==> products[i].pid != products[j].pid
  }

  // Cross-table rules that only the handlers protect.

  /** Every manager record meets the data model's constraints. */
  predicate ManagersWellFormed(managers: seq<Manager>) {
    forall m :: m in managers ==> WellFormedManager(m)
  }

  /** A manager runs at most one store. */
  predicate OneStorePerManager(stores: seq<Store>) {
    forall i, j :: 0 <= i < j < |stores| && stores[i].mgrid.Some? ==> stores[i].mgrid != stores[j].mgrid
  }

  /** Every store's manager is a document of the managers collection. */
  predicate StoreManagersExist(managers: seq<Manager>, stores: seq<Store>) {
    forall s :: s in stores && s.mgrid.Some? ==> ManagerExists(managers, s.mgrid.value)
  }

  /** Every store has a non-empty location. */
  predicate StoreLocationsNonEmpty(stores: seq<Store>) {
    forall s :: s in stores ==> |s.location| >= 1
  }

  /** Every `product_store` row names a product of the `product` table. */
  predicate ListedProductsExist(products: seq<Product>, productStores: seq<ProductStore>) {
    forall l :: l in productStores ==> ProductExists(products, l.pid)
  }

  // The queries.

  /** `SELECT * FROM product_store WHERE pid = ?` */
  function SalesOf(productStores: seq<ProductStore>, pid: string): (r: seq<ProductStore>)
    ensures forall l :: l in r <==> l in productStores && l.pid == pid
  {
    Where(productStores, (l: ProductStore) => l.pid == pid)
  }

  /** `SELECT * FROM store WHERE mgrid = ? AND sid != ?`; a NULL mgrid equals nothing. */
  function StoresManagedElsewhere(stores: seq<Store>, mgrid: string, sid: string): (r: seq<Store>)
    ensures forall s :: s in r <==> s in stores && s.mgrid == Some(mgrid) && s.sid != sid
  {
    Where(stores, (s: Store) => s.mgrid == Some(mgrid) && s.sid != sid)
  }

  /** The `product` table after `DELETE FROM product WHERE pid = ?`. */
  function WithoutProduct(products: seq<Product>, pid: string): (r: seq<Product>)
    ensures forall p :: p in r <==> p in products && p.pid != pid
    ensures !ProductExists(r, pid)
  {
    Where(products, (p: Product) => p.pid != pid)
  }

  /** The `store` table after `UPDATE store SET location = ?, mgrid = ? WHERE sid = ?`:
      the rows of store `sid` get the new location and manager, no other row changes,
      and no row moves. */
  function UpdateStore(stores: seq<Store>, sid: string, location: string, mgrid: string): (r: seq<Store>)
    ensures |r| == |stores|
    ensures forall i :: 0 <= i < |r| ==> r[i].sid == stores[i].sid
    ensures forall i :: 0 <= i < |r| && stores[i].sid != sid ==> r[i] == stores[i]
    ensures forall i :: 0 <= i < |r| && stores[i].sid == sid ==>
      r[i].location == location && r[i].mgrid == Some(mgrid)
  {
    seq(|stores|, i requires 0 <= i < |stores| =>
      if stores[i].sid == sid then stores[i].(location := location, mgrid := Some(mgrid)) else stores[i])
  }

  /** Removing rows keeps the primary key unique. */
  lemma {:induction false} WithoutProductKeepsKeys(products: seq<Product>, pid: string)
    requires UniqueProductIds(products)
    ensures UniqueProductIds(WithoutProduct(products, pid))
  {
    if products != [] {
      var rest := products[1..];
      assert UniqueProductIds(rest) by {
        forall i, j | 0 <= i < j < |rest| ensures rest[i].pid != rest[j].pid {
          assert rest[i] == products[i + 1] && rest[j] == products[j + 1];
        }
      }
      WithoutProductKeepsKeys(rest, pid);
      var tail := WithoutProduct(rest, pid);
      if products[0].pid != pid {
        assert WithoutProduct(products, pid) == [products[0]] + tail;
        forall q | q in tail ensures q.pid != products[0].pid {
          assert q in rest;
          var j :| 0 <= j < |rest| && rest[j] == q;
          assert products[j + 1] == q;
        }
      } else {
        assert WithoutProduct(products, pid) == tail;
      }
    }
  }

  /** A successful store edit keeps every manager at one store at most, and leaves
      the new manager at store `sid` only. */
  lemma UpdateStoreKeepsOneStorePerManager(stores: seq<Store>, sid: string, location: string, mgrid: string)
    requires UniqueStoreIds(stores) && OneStorePerManager(stores)
    requires forall s :: s in stores && s.sid != sid ==> s.mgrid != Some(mgrid)
    ensures OneStorePerManager(UpdateStore(stores, sid, location, mgrid))
    ensures forall s :: s in UpdateStore(stores, sid, location, mgrid) && s.mgrid == Some(mgrid) ==> s.sid == sid
  {
  }

  /** Deleting a product that is already gone leaves the table as it is. */
  lemma WithoutProductIdempotent(products: seq<Product>, pid: string)
    ensures WithoutProduct(WithoutProduct(products, pid), pid) == WithoutProduct(products, pid)
  {
    WhereIdempotent(products, (p: Product) => p.pid != pid);
  }

  /** Deleting a product id that no row has leaves the table as it is. */
  lemma WithoutAbsentProduct(products: seq<Product>, pid: string)
    requires !ProductExists(products, pid)
    ensures WithoutProduct(products, pid) == products
  {
    WhereAll(products, (p: Product) => p.pid != pid);
  }

  /** Updating a store id that no row has leaves the table as it is. */
  lemma UpdateAbsentStore(stores: seq<Store>, sid: string, location: string, mgrid: string)
    requires forall s :: s in stores ==> s.sid != sid
    ensures UpdateStore(stores, sid, location, mgrid) == stores
  {
  }

  /** An update with a non-empty location keeps every store's location non-empty. */
  lemma UpdateStoreKeepsLocations(stores: seq<Store>, sid: string, location: string, mgrid: string)
    requires StoreLocationsNonEmpty(stores) && |location| >= 1
    ensures StoreLocationsNonEmpty(UpdateStore(stores, sid, location, mgrid))
  {
    var r := UpdateStore(stores, sid, location, mgrid);
    forall s | s in r ensures |s.location| >= 1 {
      var i :| 0 <= i < |r| && r[i] == s;
      if stores[i].sid != sid {
        assert stores[i] in stores;
      }
    }
  }
}
