/** Callers of `LibraryDatabase` that rely on its contracts alone. */
module Scenarios {
  import opened Results
  import opened Hex
  import opened Catalog
  import Credential
  import opened Database

  /** Right after `update_admin_password(password)`, `verify_password(candidate)` compares
      derived keys under the fresh salt, so the password itself is accepted. */
  method SetThenVerify(db: LibraryDatabase, password: string, candidate: string, salt: seq<byte>, kdf: Credential.Kdf)
    returns (updated: Outcome, verified: Result<bool>, again: Result<bool>)
    requires db.Valid() && |salt| == Credential.SaltLength && password != []
    modifies db
    ensures db.Valid() && db.passwordSet && updated == Done
    ensures verified == Ok(Credential.DerivedKey(kdf, candidate, salt) == Credential.DerivedKey(kdf, password, salt))
    ensures again == Ok(true)
  {
    updated := db.UpdateAdminPassword(password, salt, kdf);
    Credential.VerifyStored(kdf, password, salt, candidate);
    verified := db.VerifyPassword(candidate, kdf);
    again := db.VerifyPassword(password, kdf);
  }

  /** A session on a fresh database: a duplicate name is refused and a city edit changes
      only the city. */
  method EditSession() returns (db: LibraryDatabase)
    ensures db.Valid() && db.records == [LibraryRecord("Central", "Gotham", "1 Main St")]
  {
    db := new LibraryDatabase();
    var r := db.AddLibrary("Central", "Metropolis", "1 Main St");
    assert r == Done;
    r := db.AddLibrary("Central", "Othertown", "2 Oak Ave");
    assert db.records[0].name == "Central";
    assert r == Raised(ValueError(DuplicateName));
    r := db.EditLibraryData("Central", EditTypeCity, "Gotham");
    assert FirstNamed(db.records, "Central") == Some(0);
    assert r == Done;
    var info := db.GetReadableLibsInfo();
    assert info == [("Central", "Gotham", "1 Main St")];
  }

  /** The list survives a save and a load into a new database, and a second delete of
      the same name is refused. */
  method PersistenceSession(db: LibraryDatabase) returns (loaded: Outcome, first: Outcome, second: Outcome)
    requires db.Valid() && db.records == [LibraryRecord("Central", "Gotham", "1 Main St")]
    ensures loaded == Done && first == Done && second == Raised(LibraryMissingOnDelete)
  {
    var doc := db.SaveData();
    var reloaded := new LibraryDatabase();
    loaded := reloaded.LoadData(doc);
    assert reloaded.records == db.records;
    first := reloaded.DeleteLibrary("Central");
    assert reloaded.records == [];
    second := reloaded.DeleteLibrary("Central");
  }
}
