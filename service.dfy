/**
 * The department service: lookups, save, delete and the partial-update merge,
 * over an abstract store that maps each id to the record saved under it.
 */
module Service {
  import opened Wrappers
  import opened Decimal
  import opened Entity

  /** The HTTP-facing lookup result: 200 with the record, or 404 with a message. */
  datatype Response = Found(dept: Dept) | NotFound(message: string)

  /** updateDept either saves the merged record or dies in Optional.get(). */
  datatype UpdateOutcome = Updated(dept: Dept) | LookupFailure

  /** A single-result lookup by code: none, exactly one, or more than one match. */
  datatype CodeLookup = NoMatch | Match(dept: Dept) | NotUnique

  type Store = map<int, Dept>

  const NotFoundPrefix: string := "Department not found with id:"

  /** Each stored record carries the id it is stored under. */
  predicate StoreValid(s: Store) {
    forall k :: k in s ==> s[k].id == Some(k)
  }

  // ---------------------------------------------------------------------
  // The merge rule of updateDept

  /** A patch value is applied only when it is non-null and not "". */
  predicate Applies(p: Option<string>) {
    p.Some? && p.value != ""
  }

  function MergeField(stored: Option<string>, patch: Option<string>): (r: Option<string>)
    ensures r == stored || r == patch
    ensures stored.Some? ==> r.Some?
  {
    if Applies(patch) then patch else stored
  }

  /** The record updateDept saves: stored id, each text field merged on its own. */
  function Merge(existing: Dept, patch: Dept): (r: Dept)
    ensures r.id == existing.id
  {
    Dept(existing.id,
         MergeField(existing.name, patch.name),
         MergeField(existing.address, patch.address),
         MergeField(existing.code, patch.code))
  }

  /** A patch whose every text field is null or "" leaves the record as it was. */
  lemma MergeNoOp(existing: Dept, patch: Dept)
    requires !Applies(patch.name) && !Applies(patch.address) && !Applies(patch.code)
    ensures Merge(existing, patch) == existing
  {
  }

  /**
   * Each field is decided by its own patch value alone: overwritten when the
   * patch value applies, kept otherwise, whatever the other fields hold.
   */
  lemma MergeFieldwise(existing: Dept, patch: Dept)
    ensures Applies(patch.name) ==> Merge(existing, patch).name == patch.name
    ensures !Applies(patch.name) ==> Merge(existing, patch).name == existing.name
    ensures Applies(patch.address) ==> Merge(existing, patch).address == patch.address
    ensures !Applies(patch.address) ==> Merge(existing, patch).address == existing.address
    ensures Applies(patch.code) ==> Merge(existing, patch).code == patch.code
    ensures !Applies(patch.code) ==> Merge(existing, patch).code == existing.code
  {
  }

  /** Changing one patch field changes no other field of the result. */
  lemma MergeIndependent(existing: Dept, patch: Dept, v: Option<string>)
    ensures Merge(existing, patch.(name := v)).(name := None) == Merge(existing, patch).(name := None)
    ensures Merge(existing, patch.(address := v)).(address := None) == Merge(existing, patch).(address := None)
    ensures Merge(existing, patch.(code := v)).(code := None) == Merge(existing, patch).(code := None)
  {
  }

  /** Only the exact empty string is ignored: a blank " " still overwrites. */
  lemma MergeWhitespaceOverwrites(existing: Dept, patch: Dept, blank: string)
    requires |blank| > 0 && forall i :: 0 <= i < |blank| ==> blank[i] == ' '
    ensures Merge(existing, patch.(name := Some(blank))).name == Some(blank)
    ensures Merge(existing, patch.(address := Some(blank))).address == Some(blank)
    ensures Merge(existing, patch.(code := Some(blank))).code == Some(blank)
  {
  }

  /** The patch's id is never read. */
  lemma MergeIgnoresPatchId(existing: Dept, patch: Dept, otherId: Option<int>)
    ensures Merge(existing, patch.(id := otherId)) == Merge(existing, patch)
  {
  }

  /** A present field is never cleared by a merge. */
  lemma MergeNeverClears(existing: Dept, patch: Dept)
    ensures existing.name.Some? ==> Merge(existing, patch).name.Some?
    ensures existing.address.Some? ==> Merge(existing, patch).address.Some?
    ensures existing.code.Some? ==> Merge(existing, patch).code.Some?
  {
  }

  /** Applying the same patch twice gives what applying it once gives. */
  lemma MergeIdempotent(existing: Dept, patch: Dept)
    ensures Merge(Merge(existing, patch), patch) == Merge(existing, patch)
  {
  }

  /**
   * The update path is not validated: a merge keeps the declared constraints
   * when every patch value it applies meets them ...
   */
  lemma MergeKeepsConstraints(existing: Dept, patch: Dept)
    requires MeetsConstraints(existing)
    requires Applies(patch.name) ==> NotBlank(patch.name)
    requires Applies(patch.address) ==> LengthInRange(patch.address)
    ensures MeetsConstraints(Merge(existing, patch))
  {
  }

  /** ... but a blank name or an over-long address in the patch is stored as given. */
  lemma MergeCanBreakConstraints(existing: Dept, patch: Dept, longAddress: string)
    requires |longAddress| > 200
    ensures !MeetsConstraints(Merge(existing, patch.(name := Some(" "))))
    ensures !MeetsConstraints(Merge(existing, patch.(address := Some(longAddress))))
  {
    assert !NotBlank(Some(" "));
  }

  /** An example: {1,"CS","Bldg A","CS01"} patched with {"", "Bldg B", null}. */
  lemma MergeExample()
    ensures Merge(Dept(Some(1), Some("CS"), Some("Bldg A"), Some("CS01")),
                  Dept(None, Some(""), Some("Bldg B"), None))
         == Dept(Some(1), Some("CS"), Some("Bldg B"), Some("CS01"))
  {
  }

  // ---------------------------------------------------------------------
  // Pure views of the store operations

  /** The message of getDept's not-found branch. */
  function NotFoundMessage(id: int): (m: string)
    ensures |m| > |NotFoundPrefix| && m[..|NotFoundPrefix|] == NotFoundPrefix
  {
    NotFoundPrefix + IntToDecimal(id)
  }

  /** Reads the id back out of a not-found message. */
  function NotFoundId(m: string): Option<int>
  {
    if |m| >= |NotFoundPrefix| && m[..|NotFoundPrefix|] == NotFoundPrefix
    then ParseDecimal(m[|NotFoundPrefix|..])
    else None
  }

  /** A not-found message names exactly the id that was looked up. */
  lemma NotFoundMessageCarriesId(id: int)
    ensures NotFoundId(NotFoundMessage(id)) == Some(id)
  {
    assert NotFoundMessage(id)[|NotFoundPrefix|..] == IntToDecimal(id);
    DecimalRoundTrip(id);
  }

  lemma NotFoundMessageInjective(id1: int, id2: int)
    ensures NotFoundMessage(id1) == NotFoundMessage(id2) <==> id1 == id2
  {
    NotFoundMessageCarriesId(id1);
    NotFoundMessageCarriesId(id2);
  }

  /** The store after updateDept, or None when the lookup fails. */
  function UpdatedStore(s: Store, id: int, patch: Dept): (r: Option<Store>)
    ensures r.Some? <==> id in s
    ensures r.Some? ==> r.value.Keys == s.Keys
    ensures r.Some? ==> forall k :: k in s && k != id ==> r.value[k] == s[k]
  {
    if id in s then Some(s[id := Merge(s[id], patch)]) else None
  }

  lemma UpdatePreservesValid(s: Store, id: int, patch: Dept)
    requires StoreValid(s) && id in s
    ensures StoreValid(UpdatedStore(s, id, patch).value)
  {
  }

  /** Applying an update a second time with the same patch changes nothing. */
  lemma UpdateIdempotent(s: Store, id: int, patch: Dept)
    requires id in s
    ensures UpdatedStore(UpdatedStore(s, id, patch).value, id, patch) == UpdatedStore(s, id, patch)
  {
    var once := s[id := Merge(s[id], patch)];
    MergeIdempotent(s[id], patch);
    assert once[id := Merge(once[id], patch)] == once;
  }

  /** Delete is idempotent and never fails. */
  lemma DeleteIdempotent(s: Store, id: int)
    ensures (s - {id}) - {id} == s - {id}
    ensures StoreValid(s) ==> StoreValid(s - {id})
  {
  }

  /** A non-empty set has a member (the witness the such-that choices need). */
  lemma NonemptyHasMember(s: set<int>)
    requires s != {}
    ensures exists x :: x in s
  {
    if forall x :: x !in s {
      assert false;
    }
  }

  /** The ids whose records carry the given code. */
  function CodeMatches(s: Store, code: string): (ids: set<int>)
    ensures forall k :: k in ids <==> k in s && s[k].code == Some(code)
  {
    set k | k in s && s[k].code == Some(code)
  }

  function TheOnly(ids: set<int>): (k: int)
    requires |ids| == 1
    ensures ids == {k}
  {
    NonemptyHasMember(ids);
    var k :| k in ids;
    assert ids == {k} by {
      assert |ids - {k}| == 0;
      assert forall x :: x in ids && x != k ==> x in ids - {k};
    }
    k
  }

  // ---------------------------------------------------------------------
  // The service over its store

  class DepartmentService {
    /** The records the store holds, by id. */
    var store: Store
    /** The IDENTITY counter: the id the next insert receives. */
    var nextId: int

    ghost predicate Valid()
      reads this
    {
      && StoreValid(store)
      && 0 < nextId
      && forall k :: k in store ==> k < nextId
    }

    constructor ()
      ensures Valid() && store == map[]
    {
      store := map[];
      nextId := 1;
    }

    /**
     * getDept: the stored record when the id is present, otherwise a
     * not-found result whose message is the prefix followed by the id.
     */
    function GetDept(id: int): (r: Response)
      reads this
      ensures r.Found? <==> id in store
      ensures r.Found? ==> r.dept == store[id]
      ensures r.NotFound? ==> r.message == NotFoundMessage(id) && NotFoundId(r.message) == Some(id)
    {
      if id in store then Found(store[id])
      else NotFoundMessageCarriesId(id); NotFound(NotFoundMessage(id))
    }

    /**
     * getDeptByCode: the record carrying the code when exactly one does,
     * nothing when none does, and a non-unique-result failure otherwise.
     */
    function GetDeptByCode(code: string): (r: CodeLookup)
      reads this
      ensures r.NoMatch? <==> forall k :: k in store ==> store[k].code != Some(code)
      ensures r.Match? ==> exists k :: k in store && store[k] == r.dept
      ensures r.Match? ==> r.dept.code == Some(code)
      ensures r.Match? ==> forall k :: k in store && store[k].code == Some(code) ==> store[k] == r.dept
      ensures r.NotUnique? <==> exists j, k :: j in store && k in store && j != k && store[j].code == Some(code) && store[k].code == Some(code)
    {
      var ids := CodeMatches(store, code);
      if |ids| == 0 then
        NoMatch
      else if |ids| == 1 then
        var k := TheOnly(ids);
        Match(store[k])
      else
        NonemptyHasMember(ids);
        var j :| j in ids;
        assert |ids - {j}| > 0;
        NonemptyHasMember(ids - {j});
        NotUnique
    }

    /** getAllDept: every stored record once, in no promised order. */
    method GetAllDept() returns (r: seq<Dept>)
      requires Valid()
      ensures |r| == |store|
      ensures forall k :: k in store ==> store[k] in r
      ensures forall i :: 0 <= i < |r| ==> r[i] in store.Values
      ensures forall i, j :: 0 <= i < j < |r| ==> r[i].id != r[j].id
    {
      r := [];
      var rest := store.Keys;
      while rest != {}
        invariant rest <= store.Keys
        invariant |r| + |rest| == |store.Keys|
        invariant forall i :: 0 <= i < |r| ==>
          r[i].id.Some? && r[i].id.value in store && r[i].id.value !in rest && store[r[i].id.value] == r[i]
        invariant forall k :: k in store && k !in rest ==> store[k] in r
        invariant forall i, j :: 0 <= i < j < |r| ==> r[i].id != r[j].id
        decreases |rest|
      {
        NonemptyHasMember(rest);
        var k :| k in rest;
        r := r + [store[k]];
        rest := rest - {k};
      }
    }

    /**
     * save: a record without an id, or with an id the store does not hold,
     * is inserted under a fresh id (written back into the entity); a record
     * whose id is stored replaces the stored one.
     */
    method Save(dept: Department) returns (saved: Dept)
      requires Valid()
      modifies this, dept
      ensures Valid()
      ensures var d := old(dept.Value());
        if d.id.Some? && d.id.value in old(store) then
          && saved == d && store == old(store)[d.id.value := d]
          && dept.Value() == d
        else
          && saved.id.Some? && saved.id.value !in old(store)
          && saved == d.(id := saved.id)
          && store == old(store)[saved.id.value := saved]
          && dept.Value() == (if d.id.None? then saved else d)
    {
      var d := dept.Value();
      if d.id.Some? && d.id.value in store {
        saved := d;
        store := store[d.id.value := d];
      } else {
        var newId := nextId;
        nextId := nextId + 1;
        saved := d.(id := Some(newId));
        store := store[newId := saved];
        if d.id.None? {
          dept.SetId(Some(newId));
        }
      }
    }

    /** deleteDepartmentById: removes the id, present or not; nothing else changes. */
    method DeleteDepartmentById(id: int)
      requires Valid()
      modifies this
      ensures Valid()
      ensures store == old(store) - {id} && nextId == old(nextId)
    {
      store := store - {id};
    }

    /**
     * updateDept: fetch the stored record (failing before anything is
     * written when the id is absent), overwrite each text field whose patch
     * value is non-null and not "", and save the result under the same id.
     */
    method UpdateDept(id: int, patch: Department) returns (r: UpdateOutcome)
      requires Valid()
      modifies this
      ensures Valid()
      ensures r.LookupFailure? <==> id !in old(store)
      ensures r.LookupFailure? ==> store == old(store) && nextId == old(nextId)
      ensures r.Updated? ==> r.dept == Merge(old(store)[id], patch.Value())
      ensures UpdatedStore(old(store), id, patch.Value()) == if r.Updated? then Some(store) else None
    {
      if id !in store {
        return LookupFailure;
      }
      var stored := store[id];
      var db := new Department(stored.id, stored.name, stored.address, stored.code);
      if Applies(patch.GetName()) {
        db.SetName(patch.GetName());
      }
      if Applies(patch.GetCode()) {
        db.SetCode(patch.GetCode());
      }
      if Applies(patch.GetAddress()) {
        db.SetAddress(patch.GetAddress());
      }
      assert db.Value() == Merge(stored, patch.Value());
      var saved := Save(db);
      r := Updated(saved);
    }
  }

  /** A saved new record gets a fresh id under which getDept then finds it. */
  method SaveThenGet(name: string, address: string, code: string)
  {
    var svc := new DepartmentService();
    var entity := new Department(None, Some(name), Some(address), Some(code));
    var saved := svc.Save(entity);
    assert saved.id.Some? && entity.GetId() == saved.id;
    var g := svc.GetDept(saved.id.value);
    assert g == Found(Dept(saved.id, Some(name), Some(address), Some(code)));
    var again := svc.Save(entity);
    assert again == saved && svc.GetDept(saved.id.value) == g;
  }

  /** updateDept on an empty store fails; getDept there answers not-found. */
  method EmptyStoreScenario(patch: Department)
  {
    var svc := new DepartmentService();
    var g := svc.GetDept(999);
    assert g == NotFound(NotFoundMessage(999));
    var u := svc.UpdateDept(999, patch);
    assert u == LookupFailure;
    svc.DeleteDepartmentById(999);
    assert svc.store == map[];
  }
}
