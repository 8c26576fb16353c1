/** The three form handlers that write: each runs its guards with early return
    and then issues one write against the datastores. */
module Handlers {
  import opened Rules
  import opened Tables
  import opened Schema
  import opened Validation

  /** The contents of both datastores as the handlers see them. */
  class Database {
    /** The MongoDB `managers` collection. */
    var managers: seq<Manager>
    /** The MySQL `store`, `product` and `product_store` tables. */
    var stores: seq<Store>
    var products: seq<Product>
    var productStores: seq<ProductStore>

    /** The key constraints that the datastores enforce themselves. */
    ghost predicate Valid()
      reads this
    {
      UniqueManagerIds(managers) && UniqueStoreIds(stores) && UniqueProductIds(products)
    }

    /** The cross-table rules that only the handlers' guards protect. */
    ghost predicate Consistent()
      reads this
    {
      && ManagersWellFormed(managers)
      && OneStorePerManager(stores)
      && StoreLocationsNonEmpty(stores)
      && StoreManagersExist(managers, stores)
      && ListedProductsExist(products, productStores)
    }

    constructor (managers: seq<Manager>, stores: seq<Store>, products: seq<Product>, productStores: seq<ProductStore>)
      requires UniqueManagerIds(managers) && UniqueStoreIds(stores) && UniqueProductIds(products)
      ensures Valid()
      ensures this.managers == managers && this.stores == stores
      ensures this.products == products && this.productStores == productStores
    {
      this.managers := managers;
      this.stores := stores;
      this.products := products;
      this.productStores := productStores;
    }

    /** POST /managers/add */
    method AddManager(managerId: string, name: string, salary: int) returns (outcome: Outcome<AddManagerError>)
      requires Valid()
      modifies this
      ensures Valid()
      ensures outcome == ValidateNewManager(old(managers), managerId, name, salary)
      ensures managers == if outcome.Accepted? then old(managers) + [Manager(managerId, name, salary)] else old(managers)
      ensures outcome.Accepted? ==> ManagerExists(managers, managerId)
      ensures stores == old(stores) && products == old(products) && productStores == old(productStores)
      ensures old(Consistent()) ==> Consistent()
    {
      if |managerId| != ManagerIdLength || ManagerExists(managers, managerId) {
        return Rejected(IdInvalidOrTaken);
      }
      if |name| < MinNameLength {
        return Rejected(NameTooShort);
      }
      if salary < MinSalary || salary > MaxSalary {
        return Rejected(SalaryOutOfRange);
      }
      var m := Manager(managerId, name, salary);
      InsertKeepsManagers(managers, stores, m);
      managers := managers + [m];
      return Accepted;
    }

    /** POST /stores/edit/:sid */
    method EditStore(sid: string, location: string, mgrid: string) returns (outcome: Outcome<EditStoreError>)
      requires Valid()
      modifies this
      ensures Valid()
      ensures outcome == ValidateStoreEdit(old(managers), old(stores), sid, location, mgrid)
      ensures stores == if outcome.Accepted? then UpdateStore(old(stores), sid, location, mgrid) else old(stores)
      ensures outcome.Accepted? ==> forall s :: s in stores && s.mgrid == Some(mgrid) ==> s.sid == sid
      ensures managers == old(managers) && products == old(products) && productStores == old(productStores)
      ensures old(Consistent()) ==> Consistent()
    {
      if |location| < 1 {
        return Rejected(LocationEmpty);
      }
      if |mgrid| != ManagerIdLength {
        return Rejected(ManagerIdWrongLength);
      }
      var managerExists := ManagerExists(managers, mgrid);
      if !managerExists {
        return Rejected(ManagerNotFound);
      }
      var existingAssignment := StoresManagedElsewhere(stores, mgrid, sid);
      if |existingAssignment| > 0 {
        assert existingAssignment[0] in existingAssignment;
        return Rejected(ManagerAssignedElsewhere);
      }
      var updated := UpdateStore(stores, sid, location, mgrid);
      if Consistent() {
        UpdateStoreKeepsOneStorePerManager(stores, sid, location, mgrid);
        UpdateStoreKeepsLocations(stores, sid, location, mgrid);
        forall s | s in updated && s.mgrid.Some? ensures ManagerExists(managers, s.mgrid.value) {
          var i :| 0 <= i < |updated| && updated[i] == s;
          if stores[i].sid != sid {
            assert stores[i] in stores;
          }
        }
      }
      stores := updated;
      return Accepted;
    }

    /** GET /products/delete/:pid */
    method DeleteProduct(pid: string) returns (outcome: Outcome<DeleteProductError>)
      requires Valid()
      modifies this
      ensures Valid()
      ensures outcome == ValidateProductDelete(old(productStores), pid)
      ensures products == if outcome.Accepted? then WithoutProduct(old(products), pid) else old(products)
      ensures outcome.Accepted? ==> !ProductExists(products, pid)
      ensures managers == old(managers) && stores == old(stores) && productStores == old(productStores)
      ensures old(Consistent()) ==> Consistent()
    {
      var sales := SalesOf(productStores, pid);
      if |sales| > 0 {
        assert sales[0] in sales;
        return Rejected(SoldInStore);
      }
      var remaining := WithoutProduct(products, pid);
      WithoutProductKeepsKeys(products, pid);
      forall l | l in productStores && ProductExists(products, l.pid) ensures ProductExists(remaining, l.pid) {
        var p :| p in products && p.pid == l.pid;
        assert p in remaining;
      }
      products := remaining;
      return Accepted;
    }
  }

  /** Appending a well-formed manager with a new id keeps the ids unique and every
      store's manager present, and keeps all earlier managers. */
  lemma InsertKeepsManagers(managers: seq<Manager>, stores: seq<Store>, m: Manager)
    requires UniqueManagerIds(managers) && !ManagerExists(managers, m.id)
    ensures UniqueManagerIds(managers + [m])
    ensures ManagerExists(managers + [m], m.id)
    ensures forall id :: ManagerExists(managers, id) ==> ManagerExists(managers + [m], id)
    ensures StoreManagersExist(managers, stores) ==> StoreManagersExist(managers + [m], stores)
  {
  }

  /** Adding the same manager twice: the first add is accepted when the id is new
      and the record well formed, and the second is then rejected for its id
      without touching the collection. */
  method AddManagerTwice(db: Database, managerId: string, name: string, salary: int)
    returns (first: Outcome<AddManagerError>, second: Outcome<AddManagerError>)
    requires db.Valid()
    modifies db
    ensures first.Accepted? <==> WellFormedManager(Manager(managerId, name, salary)) && !ManagerExists(old(db.managers), managerId)
    ensures first.Accepted? ==> second == Rejected(IdInvalidOrTaken)
    ensures first.Accepted? ==> db.managers == old(db.managers) + [Manager(managerId, name, salary)]
  {
    first := db.AddManager(managerId, name, salary);
    second := db.AddManager(managerId, name, salary);
  }

  /** Deleting the same product twice: once the first delete is accepted, the
      second is accepted too and changes nothing further. */
  method DeleteProductTwice(db: Database, pid: string)
    returns (first: Outcome<DeleteProductError>, second: Outcome<DeleteProductError>)
    requires db.Valid()
    modifies db
    ensures first.Accepted? ==> second.Accepted? && db.products == WithoutProduct(old(db.products), pid)
    ensures first.Rejected? ==> second.Rejected? && db.products == old(db.products)
  {
    first := db.DeleteProduct(pid);
    second := db.DeleteProduct(pid);
    if first.Accepted? {
      WithoutProductIdempotent(old(db.products), pid);
    }
  }
}
