/** The validation rules of the three handlers, as ordered lists of checks over
    the datastores' current contents. */
module Validation {
  import opened Rules
  import opened Schema

  /** Rejection reasons of adding a manager, one per early return. */
  datatype AddManagerError = IdInvalidOrTaken | NameTooShort | SalaryOutOfRange

  /** Rejection reasons of editing a store, one per early return. */
  datatype EditStoreError = LocationEmpty | ManagerIdWrongLength | ManagerNotFound | ManagerAssignedElsewhere

  /** The one rejection reason of deleting a product. */
  datatype DeleteProductError = SoldInStore

  /** The guards of adding manager `{id, name, salary}`, in the handler's order. */
  function NewManagerChecks(managers: seq<Manager>, id: string, name: string, salary: int): seq<Check<AddManagerError>> {
    [ Check(|id| == ManagerIdLength && !ManagerExists(managers, id), IdInvalidOrTaken),
      Check(|name| >= MinNameLength, NameTooShort),
      Check(MinSalary <= salary <= MaxSalary, SalaryOutOfRange) ]
  }

  /** The outcome of adding a manager to `managers`: accepted exactly when the new
      record meets the data model and its id is new; otherwise the id, name and
      salary rules are tried in that order. */
  function ValidateNewManager(managers: seq<Manager>, id: string, name: string, salary: int): (r: Outcome<AddManagerError>)
    ensures r.Accepted? <==> WellFormedManager(Manager(id, name, salary)) && !ManagerExists(managers, id)
    ensures r == Rejected(IdInvalidOrTaken) <==> |id| != ManagerIdLength || ManagerExists(managers, id)
    ensures r == Rejected(NameTooShort) <==>
      |id| == ManagerIdLength && !ManagerExists(managers, id) && |name| < MinNameLength
    ensures r == Rejected(SalaryOutOfRange) <==>
      |id| == ManagerIdLength && !ManagerExists(managers, id) && |name| >= MinNameLength &&
      (salary < MinSalary || salary > MaxSalary)
  {
    var checks := NewManagerChecks(managers, id, name, salary);
    // Every branch returns the same FirstFailure(checks); the split only picks
    // which check FirstFailureAt is told fails first.
    if !checks[0].passes then FirstFailureAt(checks, 0); FirstFailure(checks)
    else if !checks[1].passes then FirstFailureAt(checks, 1); FirstFailure(checks)
    else if !checks[2].passes then FirstFailureAt(checks, 2); FirstFailure(checks)
    else FirstFailure(checks)
  }

  /** The guards of editing store `sid`, in the handler's order. */
  function StoreEditChecks(managers: seq<Manager>, stores: seq<Store>, sid: string, location: string, mgrid: string)
    : seq<Check<EditStoreError>>
  {
    [ Check(|location| >= 1, LocationEmpty),
      Check(|mgrid| == ManagerIdLength, ManagerIdWrongLength),
      Check(ManagerExists(managers, mgrid), ManagerNotFound),
      Check(|StoresManagedElsewhere(stores, mgrid, sid)| == 0, ManagerAssignedElsewhere) ]
  }

  /** The outcome of setting store `sid` to `location` and manager `mgrid`:
      accepted exactly when the location is not empty, `mgrid` has 4 characters,
      names an existing manager and no store other than `sid` has it; otherwise
      the first of those rules that fails, in that order. */
  function ValidateStoreEdit(managers: seq<Manager>, stores: seq<Store>, sid: string, location: string, mgrid: string)
    : (r: Outcome<EditStoreError>)
    ensures r.Accepted? <==>
      |location| >= 1 && |mgrid| == ManagerIdLength && ManagerExists(managers, mgrid) &&
      forall s :: s in stores && s.sid != sid ==> s.mgrid != Some(mgrid)
    ensures r == Rejected(LocationEmpty) <==> |location| == 0
    ensures r == Rejected(ManagerIdWrongLength) <==> |location| >= 1 && |mgrid| != ManagerIdLength
    ensures r == Rejected(ManagerNotFound) <==>
      |location| >= 1 && |mgrid| == ManagerIdLength && !ManagerExists(managers, mgrid)
    ensures r == Rejected(ManagerAssignedElsewhere) <==>
      |location| >= 1 && |mgrid| == ManagerIdLength && ManagerExists(managers, mgrid) &&
      exists s :: s in stores && s.sid != sid && s.mgrid == Some(mgrid)
  {
    var checks := StoreEditChecks(managers, stores, sid, location, mgrid);
    var elsewhere := StoresManagedElsewhere(stores, mgrid, sid);
    assert |elsewhere| == 0 <==> forall s :: s in stores && s.sid != sid ==> s.mgrid != Some(mgrid) by {
      if |elsewhere| != 0 {
        assert elsewhere[0] in elsewhere;
      }
    }
    // As above, the split only picks which check FirstFailureAt is told fails first.
    if !checks[0].passes then FirstFailureAt(checks, 0); FirstFailure(checks)
    else if !checks[1].passes then FirstFailureAt(checks, 1); FirstFailure(checks)
    else if !checks[2].passes then FirstFailureAt(checks, 2); FirstFailure(checks)
    else if !checks[3].passes then FirstFailureAt(checks, 3); FirstFailure(checks)
    else FirstFailure(checks)
  }

  /** The guard of deleting product `pid`: no `product_store` row may list it. */
  function ProductDeleteChecks(productStores: seq<ProductStore>, pid: string): seq<Check<DeleteProductError>> {
    [ Check(|SalesOf(productStores, pid)| == 0, SoldInStore) ]
  }

  /** The outcome of deleting product `pid`: refused exactly when some store sells it. */
  function ValidateProductDelete(productStores: seq<ProductStore>, pid: string): (r: Outcome<DeleteProductError>)
    ensures r.Accepted? <==> forall l :: l in productStores ==> l.pid != pid
    ensures r.Rejected? <==> exists l :: l in productStores && l.pid == pid
  {
    var sales := SalesOf(productStores, pid);
    assert |sales| == 0 <==> forall l :: l in productStores ==> l.pid != pid by {
      if |sales| != 0 {
        assert sales[0] in sales;
      }
    }
    FirstFailure(ProductDeleteChecks(productStores, pid))
  }

  // Properties of the rules.

  /** The id rule comes first: a bad or taken id is reported whatever the name
      and salary are, so a short name with a taken id reports the id. */
  lemma IdRuleWinsOverName(managers: seq<Manager>, id: string, name: string, salary: int)
    requires |id| != ManagerIdLength || ManagerExists(managers, id)
    ensures ValidateNewManager(managers, id, name, salary) == Rejected(IdInvalidOrTaken)
  {
  }

  /** The boundaries of the name and salary rules: a 5-character name is rejected
      and a 6-character one accepted; salaries 30000 and 70000 are accepted, 29999
      and 70001 rejected. */
  lemma NewManagerBoundaries(managers: seq<Manager>, id: string)
    requires |id| == 4 && !ManagerExists(managers, id)
    ensures ValidateNewManager(managers, id, "Alexa", 50000) == Rejected(NameTooShort)
    ensures ValidateNewManager(managers, id, "Alexan", 50000) == Accepted
    ensures ValidateNewManager(managers, id, "Alexandra", 30000) == Accepted
    ensures ValidateNewManager(managers, id, "Alexandra", 70000) == Accepted
    ensures ValidateNewManager(managers, id, "Alexandra", 29999) == Rejected(SalaryOutOfRange)
    ensures ValidateNewManager(managers, id, "Alexandra", 70001) == Rejected(SalaryOutOfRange)
  {
  }

  /** Once a manager is inserted, adding another manager with the same id is
      rejected for the id, whatever its name and salary. */
  lemma InsertedIdIsTaken(managers: seq<Manager>, id: string, name: string, salary: int, name': string, salary': int)
    ensures ValidateNewManager(managers + [Manager(id, name, salary)], id, name', salary') == Rejected(IdInvalidOrTaken)
  {
  }

  /** An empty location is rejected whatever the manager id and the stores are. */
  lemma EmptyLocationRejected(managers: seq<Manager>, stores: seq<Store>, sid: string, mgrid: string)
    ensures ValidateStoreEdit(managers, stores, sid, "", mgrid) == Rejected(LocationEmpty)
  {
  }

  /** Re-saving a store with the manager it already has is accepted, provided no
      manager runs two stores: the store's own row does not count as a conflict. */
  lemma ResaveOwnManagerAccepted(managers: seq<Manager>, stores: seq<Store>, k: nat, location: string)
    requires OneStorePerManager(stores)
    requires k < |stores| && stores[k].mgrid.Some?
    requires |stores[k].mgrid.value| == ManagerIdLength && ManagerExists(managers, stores[k].mgrid.value)
    requires |location| >= 1
    ensures ValidateStoreEdit(managers, stores, stores[k].sid, location, stores[k].mgrid.value) == Accepted
  {
  }

  /** A manager who runs store A cannot be given to a different store B. */
  lemma TakenManagerRejected(managers: seq<Manager>, stores: seq<Store>, a: Store, sid: string, location: string)
    requires a in stores && a.mgrid.Some? && a.sid != sid
    requires |location| >= 1 && |a.mgrid.value| == ManagerIdLength && ManagerExists(managers, a.mgrid.value)
    ensures ValidateStoreEdit(managers, stores, sid, location, a.mgrid.value) == Rejected(ManagerAssignedElsewhere)
  {
  }
}
