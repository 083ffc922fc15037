/** The library records as values, and the effect of each record operation of
    `LibraryDatabase` on the ordered record list. */
module Catalog {
  import opened Results

  /** One library, as `get_readable_libs_info` reports it. */
  datatype LibraryRecord = LibraryRecord(name: string, city: string, address: string)

  const EditTypeName: string := "name"
  const EditTypeCity: string := "city"
  const EditTypeAddress: string := "address"
  const ValidEditTypes: set<string> := {EditTypeName, EditTypeCity, EditTypeAddress}

  /** No two records share a name. */
  predicate NamesUnique(s: seq<LibraryRecord>) {
    forall i, j :: 0 <= i < j < |s| ==> s[i].name != s[j].name
  }

  /** No two records share a (city, address) pair. */
  predicate PlacesUnique(s: seq<LibraryRecord>) {
    forall i, j :: 0 <= i < j < |s| ==> s[i].city != s[j].city || s[i].address != s[j].address
  }

  /** The position of the first record called `name`. */
  function FirstNamed(s: seq<LibraryRecord>, name: string): (k: Option<nat>)
    ensures k.Some? ==> k.value < |s| && s[k.value].name == name
    ensures k.Some? ==> forall j :: 0 <= j < k.value ==> s[j].name != name
    ensures k.None? <==> forall j :: 0 <= j < |s| ==> s[j].name != name
  {
    if s == [] then None
    else if s[0].name == name then Some(0)
    else match FirstNamed(s[1..], name)
      case Some(k) => Some(k + 1)
      case None => None
  }

  /** The one position a search for the first record called `name` can stop at. */
  lemma FirstNamedIs(s: seq<LibraryRecord>, name: string, k: nat)
    requires k < |s| && s[k].name == name
    requires forall j :: 0 <= j < k ==> s[j].name != name
    ensures FirstNamed(s, name) == Some(k)
  {
  }

  /** What `add_library`'s check of one existing record `lib` reports: its name is
      compared first, then its (city, address). */
  function ClashWith(lib: LibraryRecord, name: string, city: string, address: string): Option<Reason> {
    if lib.name == name then Some(DuplicateName)
    else if address == lib.address && city == lib.city then Some(DuplicateAddress)
    else None
  }

  /** The report of the first existing record that clashes with the new one. */
  function FirstClash(s: seq<LibraryRecord>, name: string, city: string, address: string): (r: Option<Reason>)
    ensures r.None? <==> forall j :: 0 <= j < |s| ==> ClashWith(s[j], name, city, address).None?
    ensures r.Some? ==> exists j :: 0 <= j < |s| && r == ClashWith(s[j], name, city, address)
  {
    if s == [] then None
    else if ClashWith(s[0], name, city, address).Some? then ClashWith(s[0], name, city, address)
    else
      var r := FirstClash(s[1..], name, city, address);
      assert forall j :: 0 <= j < |s| - 1 ==> s[1..][j] == s[j + 1];
      if r.Some? then
        var j :| 0 <= j < |s| - 1 && r == ClashWith(s[1..][j], name, city, address);
        assert r == ClashWith(s[j + 1], name, city, address);
        r
      else
        r
  }

  /** The report of the first clashing record is that of the record at position `k` when
      none before it clashes and it does. */
  lemma {:induction false} FirstClashAt(s: seq<LibraryRecord>, name: string, city: string, address: string, k: nat)
    requires k < |s| && ClashWith(s[k], name, city, address).Some?
    requires forall j :: 0 <= j < k ==> ClashWith(s[j], name, city, address).None?
    ensures FirstClash(s, name, city, address) == ClashWith(s[k], name, city, address)
  {
    if k > 0 {
      assert ClashWith(s[0], name, city, address).None?;
      assert forall j :: 0 <= j < k - 1 ==> s[1..][j] == s[j + 1];
      FirstClashAt(s[1..], name, city, address, k - 1);
    }
  }

  /** `add_library(name, city, address)` on the record list `s`. */
  function Add(s: seq<LibraryRecord>, name: string, city: string, address: string): (r: Result<seq<LibraryRecord>>)
    ensures (name == [] || city == [] || address == []) ==> r == Err(ValueError(EmptyLibraryField))
    ensures r.Ok? <==>
      name != [] && city != [] && address != [] &&
      forall j :: 0 <= j < |s| ==> s[j].name != name && (s[j].city != city || s[j].address != address)
    ensures r.Ok? ==> r.value == s + [LibraryRecord(name, city, address)]
    ensures r.Err? && name != [] && city != [] && address != [] ==>
      (r.error == ValueError(DuplicateName) && exists j :: 0 <= j < |s| && s[j].name == name) ||
      (r.error == ValueError(DuplicateAddress) && exists j :: 0 <= j < |s| && s[j].city == city && s[j].address == address)
  {
    if name == [] || city == [] || address == [] then Err(ValueError(EmptyLibraryField))
    else match FirstClash(s, name, city, address)
      case Some(why) => Err(ValueError(why))
      case None => Ok(s + [LibraryRecord(name, city, address)])
  }

  /** `delete_library(name)` on the record list `s`. */
  function Delete(s: seq<LibraryRecord>, name: string): (r: Result<seq<LibraryRecord>>)
    ensures r.Err? <==> forall j :: 0 <= j < |s| ==> s[j].name != name
    ensures r.Err? ==> r.error == LibraryMissingOnDelete
    ensures r.Ok? ==> exists k :: (0 <= k < |s| && s[k].name == name &&
      (forall j :: 0 <= j < k ==> s[j].name != name) && r.value == s[..k] + s[k + 1..])
  {
    match FirstNamed(s, name)
    case None => Err(LibraryMissingOnDelete)
    case Some(k) => Ok(s[..k] + s[k + 1..])
  }

  /** `lib` with the field that `editType` names set to `v`. */
  function WithField(lib: LibraryRecord, editType: string, v: string): LibraryRecord {
    if editType == EditTypeName then lib.(name := v)
    else if editType == EditTypeCity then lib.(city := v)
    else lib.(address := v)
  }

  /** `t` is `s` with the record at `k` changed in the field `editType` to `v`,
      everything else as it was. */
  predicate EditedAt(s: seq<LibraryRecord>, t: seq<LibraryRecord>, k: nat, editType: string, v: string) {
    |t| == |s| && k < |s| &&
    (forall j :: 0 <= j < |s| && j != k ==> t[j] == s[j]) &&
    t[k] == WithField(s[k], editType, v)
  }

  /** `edit_library_data(libName, editType, v)` on the record list `s`. */
  function Edit(s: seq<LibraryRecord>, libName: string, editType: string, v: string): (r: Result<seq<LibraryRecord>>)
    ensures (libName == [] || editType == [] || v == []) ==> r == Err(ValueError(EmptyEditParameter))
    ensures libName != [] && v != [] && editType != [] && editType !in ValidEditTypes ==>
      r == Err(ValueError(InvalidEditType))
    ensures (libName != [] && v != [] && editType in ValidEditTypes &&
             forall j :: 0 <= j < |s| ==> s[j].name != libName) ==> r == Err(ValueError(LibraryNotFound))
    ensures r.Ok? ==> editType in ValidEditTypes && exists k :: FirstNamed(s, libName) == Some(k) && EditedAt(s, r.value, k, editType, v)
    ensures r.Err? && r.error == ValueError(NameTakenByOther) ==>
      editType == EditTypeName && exists j :: 0 <= j < |s| && s[j].name == v && Some(j) != FirstNamed(s, libName)
    ensures r.Err? && r.error == ValueError(AddressTakenInCity) ==>
      editType == EditTypeAddress && exists k, j :: (FirstNamed(s, libName) == Some(k) && k != j &&
        0 <= j < |s| && s[j].address == v && s[j].city == s[k].city)
    ensures r.Err? ==> r.error.ValueError?
    ensures (libName != [] && v != [] && editType == EditTypeName && FirstNamed(s, libName).Some?) ==>
      (r.Ok? <==> forall j :: 0 <= j < |s| && j != FirstNamed(s, libName).value ==> s[j].name != v)
    ensures (libName != [] && v != [] && editType == EditTypeAddress && FirstNamed(s, libName).Some?) ==>
      (r.Ok? <==> forall j :: 0 <= j < |s| && j != FirstNamed(s, libName).value ==>
         s[j].address != v || s[j].city != s[FirstNamed(s, libName).value].city)
    ensures (libName != [] && v != [] && editType == EditTypeCity && FirstNamed(s, libName).Some?) ==> r.Ok?
  {
    if libName == [] || editType == [] || v == [] then Err(ValueError(EmptyEditParameter))
    else if editType !in ValidEditTypes then Err(ValueError(InvalidEditType))
    else match FirstNamed(s, libName)
      case None => Err(ValueError(LibraryNotFound))
      case Some(k) =>
        if editType == EditTypeName then
          if exists j :: 0 <= j < |s| && j != k && s[j].name == v then Err(ValueError(NameTakenByOther))
          else Ok(s[k := WithField(s[k], editType, v)])
        else if editType == EditTypeCity then
          Ok(s[k := WithField(s[k], editType, v)])
        else
          if exists j :: 0 <= j < |s| && j != k && s[j].address == v && s[j].city == s[k].city then
            Err(ValueError(AddressTakenInCity))
          else Ok(s[k := WithField(s[k], editType, v)])
  }
}
