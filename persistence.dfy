/** The database document that `load_data` reads and `save_data` writes, as an
    abstract JSON value (file text and JSON syntax are not modelled). */
module Persistence {
  import opened Results
  import opened Catalog

  const LibrariesDataKey: string := "libraries_data"
  const AdminPasswordKey: string := "administrator_password"
  const LibNameKey: string := "name"
  const LibCityKey: string := "city"
  const LibAddressKey: string := "address"

  datatype Json =
    | JNull
    | JBool(b: bool)
    | JNumber(n: int)
    | JString(s: string)
    | JArray(items: seq<Json>)
    | JObject(fields: map<string, Json>)

  /** The elements `for lib in value` visits. Only a list yields elements that can be
      records: iterating a non-empty string or object yields strings, and indexing a
      string by a key raises `TypeError`, so those fail as soon as the first element
      is looked at, exactly as a value that cannot be iterated does. */
  function LibrariesOf(value: Json): (r: Result<seq<Json>>)
    ensures value.JArray? ==> r == Ok(value.items)
    ensures r.Ok? && !value.JArray? ==> r.value == []
    ensures r.Err? ==> r.error == DatabaseLoadFailure
    ensures (value.JNull? || value.JBool? || value.JNumber?) ==> r.Err?
    ensures value == JString([]) || value == JObject(map[]) ==> r == Ok([])
    ensures (value.JString? && value.s != []) || (value.JObject? && value.fields != map[]) ==> r == Err(DatabaseLoadFailure)
  {
    match value
    case JArray(items) => Ok(items)
    case JString(s) => if s == [] then Ok([]) else Err(DatabaseLoadFailure)
    case JObject(m) => if m == map[] then Ok([]) else Err(DatabaseLoadFailure)
    case _ => Err(DatabaseLoadFailure)
  }

  /** `Library(lib["name"], lib["city"], lib["address"])` for one element `lib`: a missing
      key is a `KeyError`, indexing anything but an object a `TypeError`. */
  function ParseRecord(lib: Json): (r: Result<LibraryRecord>)
    ensures !lib.JObject? ==> r == Err(DatabaseLoadFailure)
    ensures lib.JObject? && (LibNameKey !in lib.fields || LibCityKey !in lib.fields || LibAddressKey !in lib.fields) ==>
      r == Err(InvalidDatabaseStructure)
    ensures r.Ok? ==> (lib.JObject? &&
      LibNameKey in lib.fields && lib.fields[LibNameKey] == JString(r.value.name) &&
      LibCityKey in lib.fields && lib.fields[LibCityKey] == JString(r.value.city) &&
      LibAddressKey in lib.fields && lib.fields[LibAddressKey] == JString(r.value.address))
    ensures (lib.JObject? && LibNameKey in lib.fields && LibCityKey in lib.fields && LibAddressKey in lib.fields &&
      lib.fields[LibNameKey].JString? && lib.fields[LibCityKey].JString? && lib.fields[LibAddressKey].JString?) ==>
      r.Ok?
  {
    match lib
    case JObject(m) =>
      if LibNameKey !in m || LibCityKey !in m || LibAddressKey !in m then Err(InvalidDatabaseStructure)
      else if m[LibNameKey].JString? && m[LibCityKey].JString? && m[LibAddressKey].JString? then
        Ok(LibraryRecord(m[LibNameKey].s, m[LibCityKey].s, m[LibAddressKey].s))
      else Err(DatabaseLoadFailure)
    case _ => Err(DatabaseLoadFailure)
  }

  /** The records `load_data`'s loop appends to the emptied list before it stops, and
      the error it stops with, if any. */
  datatype Parsed = Parsed(records: seq<LibraryRecord>, failure: Option<Error>)

  function ParseRecords(items: seq<Json>): (p: Parsed)
    ensures |p.records| <= |items|
    ensures forall j :: 0 <= j < |p.records| ==> ParseRecord(items[j]) == Ok(p.records[j])
    ensures p.failure.None? ==> |p.records| == |items|
    ensures p.failure.Some? ==> |p.records| < |items| && ParseRecord(items[|p.records|]) == Err(p.failure.value)
  {
    if items == [] then Parsed([], None)
    else match ParseRecord(items[0])
      case Err(e) => Parsed([], Some(e))
      case Ok(r) =>
        var rest := ParseRecords(items[1..]);
        Parsed([r] + rest.records, rest.failure)
  }

  /** The state `load_data` ends in: the record list (cleared first, then appended to),
      and either the new password string or the error raised. */
  datatype Loaded = Loaded(records: seq<LibraryRecord>, password: Result<string>)

  function ParseDocument(data: Json): (l: Loaded)
    ensures !data.JObject? ==> l == Loaded([], Err(DatabaseLoadFailure))
    ensures data.JObject? && LibrariesDataKey !in data.fields ==> l == Loaded([], Err(InvalidDatabaseStructure))
    ensures data.JObject? && LibrariesDataKey in data.fields && LibrariesOf(data.fields[LibrariesDataKey]).Ok? ==>
      l.records == ParseRecords(LibrariesOf(data.fields[LibrariesDataKey]).value).records
    ensures data.JObject? && LibrariesDataKey in data.fields && LibrariesOf(data.fields[LibrariesDataKey]).Err? ==>
      l == Loaded([], Err(DatabaseLoadFailure))
    ensures l.password.Ok? ==> (data.JObject? && LibrariesDataKey in data.fields &&
      LibrariesOf(data.fields[LibrariesDataKey]).Ok? &&
      ParseRecords(LibrariesOf(data.fields[LibrariesDataKey]).value).failure.None? &&
      AdminPasswordKey in data.fields && data.fields[AdminPasswordKey] == JString(l.password.value))
    ensures (data.JObject? && LibrariesDataKey in data.fields && LibrariesOf(data.fields[LibrariesDataKey]).Ok? &&
      ParseRecords(LibrariesOf(data.fields[LibrariesDataKey]).value).failure.None? &&
      AdminPasswordKey in data.fields && data.fields[AdminPasswordKey].JString?) ==>
      l.password == Ok(data.fields[AdminPasswordKey].s)
    ensures (data.JObject? && LibrariesDataKey in data.fields && LibrariesOf(data.fields[LibrariesDataKey]).Ok? &&
      ParseRecords(LibrariesOf(data.fields[LibrariesDataKey]).value).failure.Some?) ==>
      l.password == Err(ParseRecords(LibrariesOf(data.fields[LibrariesDataKey]).value).failure.value)
    ensures (data.JObject? && LibrariesDataKey in data.fields && LibrariesOf(data.fields[LibrariesDataKey]).Ok? &&
      ParseRecords(LibrariesOf(data.fields[LibrariesDataKey]).value).failure.None? && AdminPasswordKey !in data.fields) ==>
      l.password == Err(InvalidDatabaseStructure)
    ensures l.password.Err? ==> l.password.error == InvalidDatabaseStructure || l.password.error == DatabaseLoadFailure
  {
    match data
    case JObject(m) =>
      if LibrariesDataKey !in m then Loaded([], Err(InvalidDatabaseStructure))
      else if LibrariesOf(m[LibrariesDataKey]).Err? then Loaded([], Err(LibrariesOf(m[LibrariesDataKey]).error))
      else
        var p := ParseRecords(LibrariesOf(m[LibrariesDataKey]).value);
        if p.failure.Some? then Loaded(p.records, Err(p.failure.value))
        else if AdminPasswordKey !in m then Loaded(p.records, Err(InvalidDatabaseStructure))
        else if !m[AdminPasswordKey].JString? then Loaded(p.records, Err(DatabaseLoadFailure))
        else Loaded(p.records, Ok(m[AdminPasswordKey].s))
    case _ => Loaded([], Err(DatabaseLoadFailure))
  }

  /** `asdict(lib)` for one record. */
  function RecordJson(r: LibraryRecord): Json {
    JObject(map[LibNameKey := JString(r.name), LibCityKey := JString(r.city), LibAddressKey := JString(r.address)])
  }

  /** The value `save_data` hands to `json.dump`. */
  function Document(records: seq<LibraryRecord>, password: string): (doc: Json)
    ensures doc.JObject? && doc.fields.Keys == {LibrariesDataKey, AdminPasswordKey}
    ensures doc.fields[AdminPasswordKey] == JString(password)
    ensures doc.fields[LibrariesDataKey].JArray? && |doc.fields[LibrariesDataKey].items| == |records|
    ensures forall i :: 0 <= i < |records| ==> ParseRecord(doc.fields[LibrariesDataKey].items[i]) == Ok(records[i])
  {
    JObject(map[
      LibrariesDataKey := JArray(seq(|records|, i requires 0 <= i < |records| => RecordJson(records[i]))),
      AdminPasswordKey := JString(password)])
  }

  /** A list whose every element parses is parsed entirely. */
  lemma {:induction false} ParseRecordsOfParsable(items: seq<Json>, records: seq<LibraryRecord>)
    requires |items| == |records|
    requires forall j :: 0 <= j < |items| ==> ParseRecord(items[j]) == Ok(records[j])
    ensures ParseRecords(items) == Parsed(records, None)
  {
    if items != [] {
      assert ParseRecord(items[0]) == Ok(records[0]);
      ParseRecordsOfParsable(items[1..], records[1..]);
      assert [records[0]] + records[1..] == records;
    }
  }

  /** A list whose elements parse up to position `k`, and not at `k`, is parsed up to `k`
      and stops with that element's error. */
  lemma {:induction false} ParseRecordsStopsAt(items: seq<Json>, records: seq<LibraryRecord>)
    requires |records| < |items|
    requires forall j :: 0 <= j < |records| ==> ParseRecord(items[j]) == Ok(records[j])
    requires ParseRecord(items[|records|]).Err?
    ensures ParseRecords(items) == Parsed(records, Some(ParseRecord(items[|records|]).error))
  {
    if records != [] {
      assert ParseRecord(items[0]) == Ok(records[0]);
      assert items[1..][|records| - 1] == items[|records|];
      ParseRecordsStopsAt(items[1..], records[1..]);
      assert [records[0]] + records[1..] == records;
    }
  }

  /** Saving and then loading the saved value gives back the record list, in order,
      and the password string. */
  lemma LoadSaved(records: seq<LibraryRecord>, password: string)
    ensures ParseDocument(Document(records, password)) == Loaded(records, Ok(password))
  {
    var items := seq(|records|, i requires 0 <= i < |records| => RecordJson(records[i]));
    forall j | 0 <= j < |items| ensures ParseRecord(items[j]) == Ok(records[j]) {
      assert items[j] == RecordJson(records[j]);
    }
    ParseRecordsOfParsable(items, records);
  }

  /** A document without the records key loads no record; one without the password key
      loads the records and then raises; both raise `InvalidDatabaseStructureError`. */
  lemma LoadMissingKeys(m: map<string, Json>, items: seq<Json>)
    ensures LibrariesDataKey !in m ==> ParseDocument(JObject(m)) == Loaded([], Err(InvalidDatabaseStructure))
    ensures LibrariesDataKey in m && m[LibrariesDataKey] == JArray(items) && AdminPasswordKey !in m &&
            ParseRecords(items).failure.None? ==>
            ParseDocument(JObject(m)) == Loaded(ParseRecords(items).records, Err(InvalidDatabaseStructure))
  {
  }

  /** A record missing one of its keys at position `k`, after `k` records that parse, stops
      the load there with `InvalidDatabaseStructureError`, the `k` records appended. */
  lemma LoadRecordMissingKey(m: map<string, Json>, items: seq<Json>, k: nat)
    requires LibrariesDataKey in m && m[LibrariesDataKey] == JArray(items)
    requires k < |items| && items[k].JObject?
    requires LibNameKey !in items[k].fields || LibCityKey !in items[k].fields || LibAddressKey !in items[k].fields
    requires forall j :: 0 <= j < k ==> ParseRecord(items[j]).Ok?
    ensures |ParseDocument(JObject(m)).records| == k
    ensures ParseDocument(JObject(m)) == Loaded(ParseRecords(items).records, Err(InvalidDatabaseStructure))
  {
    assert ParseRecord(items[k]) == Err(InvalidDatabaseStructure);
  }
}
