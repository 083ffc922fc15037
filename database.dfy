/** `LibraryDatabase`: the ordered list of `Library` objects and the administrator
    credential, with the operations that read and change them in place. */
module Database {
  import opened Results
  import opened Hex
  import opened Catalog
  import Credential
  import Persistence

  /** A library; its fields are reassigned in place by an edit. */
  class Library {
    var name: string
    var city: string
    var address: string

    constructor (name: string, city: string, address: string)
      ensures this.name == name && this.city == city && this.address == address
    {
      this.name, this.city, this.address := name, city, address;
    }
  }

  class LibraryDatabase {
    var libsData: seq<Library>
    var adminPassword: string
    var passwordSet: bool

    /** The records the list holds, in order. */
    ghost var records: seq<LibraryRecord>

    /** Each list element is its own object and shows the record at its position, and
        the flag says whether a credential is stored. */
    ghost predicate Valid()
      reads this, libsData
    {
      |libsData| == |records| &&
      (forall i :: 0 <= i < |libsData| ==>
        libsData[i].name == records[i].name && libsData[i].city == records[i].city &&
        libsData[i].address == records[i].address) &&
      (forall i, j :: 0 <= i < j < |libsData| ==> libsData[i] != libsData[j]) &&
      passwordSet == (adminPassword != [])
    }

    constructor ()
      ensures Valid()
      ensures libsData == [] && records == [] && adminPassword == [] && !passwordSet
    {
      libsData, records := [], [];
      adminPassword := [];
      passwordSet := false;
    }

    /** `load_data` on the value the file decodes to: the list is emptied, then every
        parsed record is appended; only when all of it parses is the password replaced. */
    method LoadData(data: Persistence.Json) returns (r: Outcome)
      requires Valid()
      modifies this
      ensures Valid()
      ensures records == Persistence.ParseDocument(data).records
      ensures forall i :: 0 <= i < |libsData| ==> fresh(libsData[i])
      ensures r == OutcomeOf(Persistence.ParseDocument(data).password)
      ensures r.Done? ==> adminPassword == Persistence.ParseDocument(data).password.value
      ensures r.Raised? ==> adminPassword == old(adminPassword) && passwordSet == old(passwordSet)
    {
      libsData, records := [], [];
      if !data.JObject? {
        return Raised(DatabaseLoadFailure);
      }
      var m := data.fields;
      if Persistence.LibrariesDataKey !in m {
        return Raised(InvalidDatabaseStructure);
      }
      var libraries := Persistence.LibrariesOf(m[Persistence.LibrariesDataKey]);
      if libraries.Err? {
        return Raised(libraries.error);
      }
      var failure := AppendParsed(libraries.value);
      if failure.Some? {
        return Raised(failure.value);
      }
      if Persistence.AdminPasswordKey !in m {
        return Raised(InvalidDatabaseStructure);
      }
      var password := m[Persistence.AdminPasswordKey];
      if !password.JString? {
        return Raised(DatabaseLoadFailure);
      }
      adminPassword := password.s;
      passwordSet := adminPassword != [];
      r := Done;
    }

    /** `load_data`'s loop over the emptied list: appends a new object per element that
        parses, and stops at the first element that does not, with its error. */
    method AppendParsed(items: seq<Persistence.Json>) returns (failure: Option<Error>)
      requires Valid() && libsData == []
      modifies this`libsData, this`records
      ensures Valid()
      ensures records == Persistence.ParseRecords(items).records
      ensures failure == Persistence.ParseRecords(items).failure
      ensures forall i :: 0 <= i < |libsData| ==> fresh(libsData[i])
    {
      var i := 0;
      while i < |items|
        invariant 0 <= i <= |items|
        invariant Valid()
        invariant |records| == i
        invariant forall j :: 0 <= j < i ==> Persistence.ParseRecord(items[j]) == Ok(records[j])
        invariant forall j :: 0 <= j < |libsData| ==> fresh(libsData[j])
      {
        var parsed := Persistence.ParseRecord(items[i]);
        if parsed.Err? {
          Persistence.ParseRecordsStopsAt(items, records);
          return Some(parsed.error);
        }
        var lib := new Library(parsed.value.name, parsed.value.city, parsed.value.address);
        libsData, records := libsData + [lib], records + [parsed.value];
        i := i + 1;
      }
      Persistence.ParseRecordsOfParsable(items, records);
      failure := None;
    }

    /** `save_data`: the value written to the file, which loads back as the current
        records and password. */
    method SaveData() returns (doc: Persistence.Json)
      requires Valid()
      ensures doc == Persistence.Document(records, adminPassword)
      ensures Persistence.ParseDocument(doc) == Persistence.Loaded(records, Ok(adminPassword))
    {
      var items: seq<Persistence.Json> := [];
      var i := 0;
      while i < |libsData|
        invariant 0 <= i <= |libsData|
        invariant |items| == i
        invariant forall j :: 0 <= j < i ==> items[j] == Persistence.RecordJson(records[j])
      {
        var lib := libsData[i];
        items := items + [Persistence.RecordJson(LibraryRecord(lib.name, lib.city, lib.address))];
        i := i + 1;
      }
      ghost var recs := records;
      assert items == seq(|recs|, j requires 0 <= j < |recs| => Persistence.RecordJson(recs[j]));
      doc := Persistence.JObject(map[
        Persistence.LibrariesDataKey := Persistence.JArray(items),
        Persistence.AdminPasswordKey := Persistence.JString(adminPassword)]);
      Persistence.LoadSaved(records, adminPassword);
    }

    /** `add_library`: refuses an empty field, then walks the list and refuses the first
        record with the same name or the same (city, address); otherwise appends a new object. */
    method AddLibrary(name: string, city: string, address: string) returns (r: Outcome)
      requires Valid()
      modifies this
      ensures Valid()
      ensures r == OutcomeOf(Add(old(records), name, city, address))
      ensures records == if r.Done? then Add(old(records), name, city, address).value else old(records)
      ensures r.Done? ==> |libsData| == |old(libsData)| + 1 && libsData[..|old(libsData)|] == old(libsData)
      ensures r.Done? ==> fresh(libsData[|old(libsData)|])
      ensures r.Raised? ==> libsData == old(libsData)
      ensures adminPassword == old(adminPassword) && passwordSet == old(passwordSet)
    {
      if name == [] || city == [] || address == [] {
        return Raised(ValueError(EmptyLibraryField));
      }
      var i := 0;
      while i < |libsData|
        invariant 0 <= i <= |libsData|
        invariant forall j :: 0 <= j < i ==> ClashWith(records[j], name, city, address).None?
      {
        var lib := libsData[i];
        if lib.name == name {
          FirstClashAt(records, name, city, address, i);
          return Raised(ValueError(DuplicateName));
        }
        if address == lib.address && city == lib.city {
          FirstClashAt(records, name, city, address, i);
          return Raised(ValueError(DuplicateAddress));
        }
        i := i + 1;
      }
      var lib := new Library(name, city, address);
      libsData, records := libsData + [lib], records + [LibraryRecord(name, city, address)];
      r := Done;
    }

    /** `get_readable_libs_info`: one (name, city, address) triple per record, in list order. */
    method GetReadableLibsInfo() returns (info: seq<(string, string, string)>)
      requires Valid()
      ensures |info| == |records|
      ensures forall i :: 0 <= i < |records| ==> info[i] == (records[i].name, records[i].city, records[i].address)
    {
      info := [];
      var i := 0;
      while i < |libsData|
        invariant 0 <= i <= |libsData|
        invariant |info| == i
        invariant forall j :: 0 <= j < i ==> info[j] == (records[j].name, records[j].city, records[j].address)
      {
        var lib := libsData[i];
        info := info + [(lib.name, lib.city, lib.address)];
        i := i + 1;
      }
    }

    /** `update_admin_password`, with `salt` the 32 bytes `os.urandom` returned. */
    method UpdateAdminPassword(newPassword: string, salt: seq<byte>, kdf: Credential.Kdf) returns (r: Outcome)
      requires Valid() && |salt| == Credential.SaltLength
      modifies this
      ensures Valid()
      ensures newPassword == [] ==> r == Raised(ValueError(EmptyPassword))
      ensures newPassword == [] ==> adminPassword == old(adminPassword) && passwordSet == old(passwordSet)
      ensures newPassword != [] ==> r == Done && passwordSet
      ensures newPassword != [] ==> adminPassword == Credential.Stored(kdf, newPassword, salt)
      ensures libsData == old(libsData) && records == old(records)
    {
      if newPassword == [] {
        return Raised(ValueError(EmptyPassword));
      }
      var key := Credential.DerivedKey(kdf, newPassword, salt);
      adminPassword := ToHex(salt) + [Credential.Separator] + ToHex(key);
      Credential.StoredIsWellFormed(kdf, newPassword, salt);
      passwordSet := true;
      r := Done;
    }

    /** `verify_password`: a computation on the stored string that changes nothing. */
    method VerifyPassword(password: string, kdf: Credential.Kdf) returns (r: Result<bool>)
      ensures adminPassword == [] || Credential.Separator !in adminPassword ==> r == Ok(false)
      ensures r == Credential.Verify(kdf, adminPassword, password)
    {
      r := Credential.Verify(kdf, adminPassword, password);
    }

    /** `delete_library`: removes the first object whose name matches, keeping the order
        of the others. */
    method DeleteLibrary(libraryName: string) returns (r: Outcome)
      requires Valid()
      modifies this
      ensures Valid()
      ensures r == OutcomeOf(Delete(old(records), libraryName))
      ensures records == if r.Done? then Delete(old(records), libraryName).value else old(records)
      ensures r.Done? ==> (FirstNamed(old(records), libraryName).Some? &&
        var k := FirstNamed(old(records), libraryName).value;
        libsData == old(libsData)[..k] + old(libsData)[k + 1..])
      ensures r.Raised? ==> libsData == old(libsData)
      ensures adminPassword == old(adminPassword) && passwordSet == old(passwordSet)
    {
      var i := 0;
      while i < |libsData|
        invariant 0 <= i <= |libsData|
        invariant forall j :: 0 <= j < i ==> records[j].name != libraryName
      {
        if libsData[i].name == libraryName {
          break;
        }
        i := i + 1;
      }
      if i == |libsData| {
        return Raised(LibraryMissingOnDelete);
      }
      FirstNamedIs(records, libraryName, i);
      RemoveAt(i);
      r := Done;
    }

    /** Takes the object at `k` out of the list, keeping the others in order. */
    method RemoveAt(k: nat)
      requires Valid() && k < |libsData|
      modifies this`libsData, this`records
      ensures Valid()
      ensures libsData == old(libsData)[..k] + old(libsData)[k + 1..]
      ensures records == old(records)[..k] + old(records)[k + 1..]
    {
      ghost var was, wasRecords := libsData, records;
      libsData := libsData[..k] + libsData[k + 1..];
      records := records[..k] + records[k + 1..];
      assert forall j :: 0 <= j < |libsData| ==> libsData[j] == was[if j < k then j else j + 1];
      assert forall j :: 0 <= j < |records| ==> records[j] == wasRecords[if j < k then j else j + 1];
    }

    /** The check `edit_library_data` makes before renaming the object at `k`: whether
        another object (by identity) already has the name `v`. */
    method OtherNamed(k: nat, v: string) returns (found: bool)
      requires Valid() && k < |libsData|
      ensures found <==> exists j :: 0 <= j < |records| && j != k && records[j].name == v
    {
      var lib := libsData[k];
      var j := 0;
      while j < |libsData|
        invariant 0 <= j <= |libsData|
        invariant forall o :: 0 <= o < j && o != k ==> records[o].name != v
      {
        var other := libsData[j];
        if other != lib && other.name == v {
          return true;
        }
        j := j + 1;
      }
      found := false;
    }

    /** The check `edit_library_data` makes before changing the address of the object at
        `k`: whether another object in the same city already has the address `v`. */
    method OtherAtAddress(k: nat, v: string) returns (found: bool)
      requires Valid() && k < |libsData|
      ensures found <==> exists j :: 0 <= j < |records| && j != k && records[j].address == v && records[j].city == records[k].city
    {
      var lib := libsData[k];
      var j := 0;
      while j < |libsData|
        invariant 0 <= j <= |libsData|
        invariant forall o :: 0 <= o < j && o != k ==> records[o].address != v || records[o].city != records[k].city
      {
        var other := libsData[j];
        if other != lib && other.address == v && other.city == lib.city {
          return true;
        }
        j := j + 1;
      }
      found := false;
    }

    /** Reassigns, in place, the field `editType` names of the object at `k`. */
    method SetField(k: nat, editType: string, v: string)
      requires Valid() && k < |libsData|
      modifies libsData[k], this`records
      ensures Valid()
      ensures records == old(records)[k := WithField(old(records)[k], editType, v)]
    {
      var lib := libsData[k];
      if editType == EditTypeName {
        lib.name := v;
      } else if editType == EditTypeCity {
        lib.city := v;
      } else {
        lib.address := v;
      }
      records := records[k := WithField(records[k], editType, v)];
    }

    /** `edit_library_data`: checks its arguments, finds the first object with the given
        name and reassigns one of its fields in place, after checking the new name or
        address against the other objects. */
    method EditLibraryData(libName: string, typeOfEdit: string, newValue: string) returns (r: Outcome)
      requires Valid()
      modifies this, libsData
      ensures Valid()
      ensures libsData == old(libsData)
      ensures r == OutcomeOf(Edit(old(records), libName, typeOfEdit, newValue))
      ensures records == if r.Done? then Edit(old(records), libName, typeOfEdit, newValue).value else old(records)
      ensures adminPassword == old(adminPassword) && passwordSet == old(passwordSet)
    {
      if libName == [] || typeOfEdit == [] || newValue == [] {
        return Raised(ValueError(EmptyEditParameter));
      }
      if typeOfEdit !in ValidEditTypes {
        return Raised(ValueError(InvalidEditType));
      }
      // Every branch taken on the first matching object leaves the loop, so the search
      // stops there; the `else` of the source's loop is the case of no match.
      var i := 0;
      while i < |libsData|
        invariant 0 <= i <= |libsData|
        invariant forall j :: 0 <= j < i ==> records[j].name != libName
      {
        if libsData[i].name == libName {
          break;
        }
        i := i + 1;
      }
      if i == |libsData| {
        return Raised(ValueError(LibraryNotFound));
      }
      FirstNamedIs(records, libName, i);
      if typeOfEdit == EditTypeName {
        var taken := OtherNamed(i, newValue);
        if taken {
          return Raised(ValueError(NameTakenByOther));
        }
      } else if typeOfEdit == EditTypeAddress {
        var taken := OtherAtAddress(i, newValue);
        if taken {
          return Raised(ValueError(AddressTakenInCity));
        }
      }
      SetField(i, typeOfEdit, newValue);
      r := Done;
    }
  }
}
