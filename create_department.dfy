/** The "create department" screen's save path: the form's schema gate
    and `handleSave`, which reads every department from the key-value
    store, refuses a name already taken after trim and lower-case, and
    otherwise writes one record under `department_<id>`. */
module CreateDepartment {
  import opened Optional
  import opened JsText
  import opened NameRule
  import opened Departments

  /** The device's key-value store (AsyncStorage), with the two
      operations the screen uses that touch it directly, run
      synchronously: `getAllKeys` and `setItem`. `multiGet` only reads,
      so it is the function `Departments.MultiGet` over `entries`. */
  class KeyValueStore {
    var entries: Store

    constructor (initial: Store)
      ensures entries == initial
    {
      entries := initial;
    }

    /** `getAllKeys`: every key exactly once, in whatever order the
        storage engine lists them. */
    method GetAllKeys() returns (keys: seq<string>)
      ensures forall k :: k in keys <==> k in entries
      ensures forall i, j :: 0 <= i < j < |keys| ==> keys[i] != keys[j]
    {
      keys := [];
      var rest := entries.Keys;
      while rest != {}
        invariant rest <= entries.Keys
        invariant forall k :: k in keys <==> k in entries && k !in rest
        invariant forall i, j :: 0 <= i < j < |keys| ==> keys[i] != keys[j]
        decreases |rest|
      {
        var k :| k in rest;
        keys := keys + [k];
        rest := rest - {k};
      }
    }

    /** `setItem`: writes one key, or fails (I/O, quota) and writes
        nothing. Whether it fails is decided outside the model. */
    method SetItem(key: string, value: Stored, fails: bool) returns (ok: bool)
      modifies this
      ensures ok == !fails
      ensures entries == if ok then old(entries)[key := value] else old(entries)
    {
      ok := !fails;
      if ok {
        entries := entries[key := value];
      }
    }
  }

  /** How a save ends: the schema refused the name; the "already exists"
      alert; the record was written; an exception escaped (`JSON.parse`
      or `.trim()` on a non-string); or `setItem` failed and the catch
      block ran. */
  datatype Outcome = Invalid | Duplicate | Created(dept: Doc) | Threw | WriteFailed

  /** `handleSave(values, resetForm)` with `values.nome == nome` and
      `Date.now().toString() == id`. The outcome is decided by the store
      as it was, up to the order of `getAllKeys` (which only matters when
      a taken name and a non-string name are both present); the only
      write is the new record. */
  method HandleSave(store: KeyValueStore, nome: string, id: string, writeFails: bool)
    returns (outcome: Outcome)
    modifies store
    ensures outcome != Invalid
    ensures HasUnparsable(old(store.entries)) ==> outcome == Threw
    ensures outcome == Threw ==> HasUnparsable(old(store.entries)) || HasNonTextNome(old(store.entries))
    ensures outcome == Duplicate ==> NameTaken(old(store.entries), nome) && !HasUnparsable(old(store.entries))
    ensures !HasUnparsable(old(store.entries)) && !HasNonTextNome(old(store.entries)) ==>
      (outcome == Duplicate <==> NameTaken(old(store.entries), nome))
    ensures outcome.Created? || outcome == WriteFailed ==>
      !NameTaken(old(store.entries), nome) && !HasUnparsable(old(store.entries)) && !HasNonTextNome(old(store.entries))
    ensures !NameTaken(old(store.entries), nome) && !HasUnparsable(old(store.entries)) && !HasNonTextNome(old(store.entries)) ==>
      outcome == if writeFails then WriteFailed else Created(NewDepartment(id, nome))
    ensures store.entries == if outcome.Created? then AfterCreate(old(store.entries), id, nome) else old(store.entries)
    ensures UniqueNames(old(store.entries)) ==> UniqueNames(store.entries)
  {
    var keys := store.GetAllKeys();
    ScanAgreesWithStore(store.entries, keys, nome);
    var departmentKeys := DepartmentKeys(keys);
    var data := MultiGet(store.entries, departmentKeys);
    var departments := ParseAll(data);
    if departments.None? {
      return Threw;
    }
    var found := SomeNameMatches(departments.value, Fold(nome));
    if found == Throws {
      return Threw;
    }
    if found == Match {
      return Duplicate;
    }
    var department := NewDepartment(id, nome);
    ghost var before := store.entries;
    var ok := store.SetItem(DeptKey(id), Parsed(department), writeFails);
    if ok {
      outcome := Created(department);
      if UniqueNames(before) {
        CreatePreservesUniqueNames(before, id, nome);
      }
    } else {
      outcome := WriteFailed;
    }
  }

  /** Formik's `onSubmit`: `handleSave` runs only when the schema accepts
      the value. Everything that is saved through the screen is then a
      valid, trimmed name, and the names stay distinct. */
  method Submit(store: KeyValueStore, nome: string, id: string, writeFails: bool)
    returns (outcome: Outcome)
    modifies store
    ensures !ValidName(Some(nome)) <==> outcome == Invalid
    ensures ValidName(Some(nome)) && HasUnparsable(old(store.entries)) ==> outcome == Threw
    ensures outcome == Threw ==> HasUnparsable(old(store.entries)) || HasNonTextNome(old(store.entries))
    ensures outcome == Duplicate ==> NameTaken(old(store.entries), nome) && !HasUnparsable(old(store.entries))
    ensures outcome.Created? || outcome == WriteFailed ==>
      !NameTaken(old(store.entries), nome) && !HasUnparsable(old(store.entries)) && !HasNonTextNome(old(store.entries))
    ensures ValidName(Some(nome)) && !HasUnparsable(old(store.entries)) && !HasNonTextNome(old(store.entries)) ==>
      (outcome == Duplicate <==> NameTaken(old(store.entries), nome))
    ensures ValidName(Some(nome)) && !NameTaken(old(store.entries), nome) &&
            !HasUnparsable(old(store.entries)) && !HasNonTextNome(old(store.entries)) ==>
      outcome == if writeFails then WriteFailed else Created(NewDepartment(id, nome))
    ensures store.entries == if outcome.Created? then AfterCreate(old(store.entries), id, nome) else old(store.entries)
    ensures UniqueNames(old(store.entries)) ==> UniqueNames(store.entries)
    ensures StoredNamesValid(old(store.entries)) ==> StoredNamesValid(store.entries)
  {
    if !ValidName(Some(nome)) {
      return Invalid;
    }
    ghost var before := store.entries;
    outcome := HandleSave(store, nome, id, writeFails);
    if outcome.Created? {
      if StoredNamesValid(before) {
        CreatePreservesValidNames(before, id, nome);
      }
    }
  }
}
