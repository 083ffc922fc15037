/** What the record operations promise about the two uniqueness invariants. */
module CatalogProperties {
  import opened Results
  import opened Catalog

  /** A successful add keeps names unique and (city, address) pairs unique. */
  lemma AddPreservesUniqueness(s: seq<LibraryRecord>, name: string, city: string, address: string)
    requires Add(s, name, city, address).Ok?
    ensures NamesUnique(s) ==> NamesUnique(Add(s, name, city, address).value)
    ensures PlacesUnique(s) ==> PlacesUnique(Add(s, name, city, address).value)
  {
    var t := Add(s, name, city, address).value;
    assert forall j :: 0 <= j < |s| ==> t[j] == s[j];
    assert t[|s|] == LibraryRecord(name, city, address);
  }

  /** A successful delete keeps both invariants: what is left is `s` with one record taken out. */
  lemma DeletePreservesUniqueness(s: seq<LibraryRecord>, name: string)
    requires Delete(s, name).Ok?
    ensures NamesUnique(s) ==> NamesUnique(Delete(s, name).value)
    ensures PlacesUnique(s) ==> PlacesUnique(Delete(s, name).value)
  {
    var k := FirstNamed(s, name).value;
    var t := Delete(s, name).value;
    assert forall j :: 0 <= j < |t| ==> t[j] == s[if j < k then j else j + 1];
  }

  /** Deleting a name removes the only record with it when names are unique, so a second
      delete of the same name raises. */
  lemma DeleteTwiceFails(s: seq<LibraryRecord>, name: string)
    requires NamesUnique(s) && Delete(s, name).Ok?
    ensures |Delete(s, name).value| == |s| - 1
    ensures Delete(Delete(s, name).value, name) == Err(LibraryMissingOnDelete)
  {
    var k := FirstNamed(s, name).value;
    var t := Delete(s, name).value;
    assert forall j :: 0 <= j < |t| ==> t[j] == s[if j < k then j else j + 1];
    forall j | 0 <= j < |t| ensures t[j].name != name {
      if j < k {
        assert s[j].name != name;
      } else {
        assert s[k].name == name && k < j + 1;
      }
    }
  }

  /** Every successful edit keeps names unique: a name edit is refused when another record
      has the new name, and the other edits leave names alone. */
  lemma EditPreservesUniqueNames(s: seq<LibraryRecord>, libName: string, editType: string, v: string)
    requires NamesUnique(s) && Edit(s, libName, editType, v).Ok?
    ensures NamesUnique(Edit(s, libName, editType, v).value)
  {
    var k := FirstNamed(s, libName).value;
    var t := Edit(s, libName, editType, v).value;
    assert EditedAt(s, t, k, editType, v);
    if editType == EditTypeName {
      assert forall j :: 0 <= j < |s| && j != k ==> s[j].name != v;
    } else {
      assert forall j :: 0 <= j < |s| ==> t[j].name == s[j].name;
    }
  }

  /** A successful name or address edit keeps (city, address) pairs unique: an address edit
      is refused when another record in the same city has the new address. */
  lemma EditPreservesUniquePlaces(s: seq<LibraryRecord>, libName: string, editType: string, v: string)
    requires PlacesUnique(s) && Edit(s, libName, editType, v).Ok?
    requires editType != EditTypeCity
    ensures PlacesUnique(Edit(s, libName, editType, v).value)
  {
    var k := FirstNamed(s, libName).value;
    var t := Edit(s, libName, editType, v).value;
    assert EditedAt(s, t, k, editType, v);
    if editType == EditTypeAddress {
      assert forall j :: 0 <= j < |s| && j != k && s[j].city == s[k].city ==> s[j].address != v;
    } else {
      assert forall j :: 0 <= j < |s| ==> t[j].city == s[j].city && t[j].address == s[j].address;
    }
  }

  /** A city edit is not checked: moving a library into the city of another library
      with the same address succeeds and breaks (city, address) uniqueness. */
  lemma CityEditCanBreakUniquePlaces(s: seq<LibraryRecord>, libName: string, v: string, j: nat)
    requires libName != [] && v != [] && FirstNamed(s, libName).Some?
    requires j < |s| && j != FirstNamed(s, libName).value
    requires s[j].city == v && s[j].address == s[FirstNamed(s, libName).value].address
    ensures Edit(s, libName, EditTypeCity, v).Ok?
    ensures !PlacesUnique(Edit(s, libName, EditTypeCity, v).value)
  {
    var k := FirstNamed(s, libName).value;
    var t := Edit(s, libName, EditTypeCity, v).value;
    assert EditedAt(s, t, k, EditTypeCity, v);
    assert t[j] == s[j] && t[k].city == v && t[k].address == s[k].address;
    if j < k {
      assert t[j].city == t[k].city && t[j].address == t[k].address;
    } else {
      assert t[k].city == t[j].city && t[k].address == t[j].address;
    }
  }
}
