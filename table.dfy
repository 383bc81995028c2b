/** The live settings table as a sequence of records: lookup by key and in-place update. */
module Table {
  import opened SettingsTypes
  import opened CText
  import opened Validation

  /** What strncmp(_, _, MaxKeyLength) compares of a key: its C string, cut to 30 chars. */
  function KeyPrefix(key: seq<char>): (p: seq<char>)
    ensures |p| <= MaxKeyLength && '\0' !in p
    ensures |p| <= |CStr(key)| && p == CStr(key)[..|p|]
    ensures |CStr(key)| <= MaxKeyLength ==> p == CStr(key)
  {
    var t := Trunc(CStr(key), MaxKeyLength);
    assert forall i :: 0 <= i < |t| ==> t[i] == CStr(key)[i];
    t
  }

  /** strncmp(a, b, MaxKeyLength) == 0. */
  predicate KeysMatch(a: seq<char>, b: seq<char>) {
    KeyPrefix(a) == KeyPrefix(b)
  }

  /** The key string that the flash scan passes to find: the field copied with strncpy. */
  lemma KeyPrefixIdempotent(key: seq<char>)
    ensures KeyPrefix(KeyPrefix(key)) == KeyPrefix(key)
    ensures KeysMatch(KeyPrefix(key), key)
  {
    CStrOfNulFree(KeyPrefix(key));
  }

  /** Cutting a valid key to the compared length leaves a valid key. */
  lemma KeyPrefixValid(key: seq<char>)
    requires CheckKeyFormat(key)
    ensures CheckKeyFormat(KeyPrefix(key))
  {
    var p := KeyPrefix(key);
    CheckKeyFormatIff(key);
    CStrOfNulFree(p);
    CheckKeyFormatIff(p);
  }

  /** The loop of settings_find_entry from index `i` on. */
  function FirstMatch(table: seq<ConfigEntry>, key: seq<char>, i: nat): (r: Option<nat>)
    requires i <= |table|
    ensures r.Some? ==> i <= r.value < |table| && KeysMatch(table[r.value].key, key)
    ensures r.Some? ==> forall j :: i <= j < r.value ==> !KeysMatch(table[j].key, key)
    ensures r.None? ==> forall j :: i <= j < |table| ==> !KeysMatch(table[j].key, key)
    decreases |table| - i
  {
    if i == |table| then None
    else if KeysMatch(table[i].key, key) then Some(i)
    else FirstMatch(table, key, i + 1)
  }

  /**
   * settings_find_entry over the live entries: nothing for an invalid or absent key,
   * otherwise the index of the first entry whose key matches.
   */
  function Lookup(table: seq<ConfigEntry>, key: seq<char>): (r: Option<nat>)
    ensures r.None? <==>
      !CheckKeyFormat(key) || forall j :: 0 <= j < |table| ==> !KeysMatch(table[j].key, key)
    ensures r.Some? ==> r.value < |table| && KeysMatch(table[r.value].key, key)
    ensures r.Some? ==> forall j :: 0 <= j < r.value ==> !KeysMatch(table[j].key, key)
  {
    if !CheckKeyFormat(key) then None else FirstMatch(table, key, 0)
  }

  /** Conversely, a valid key matching entry `w` and no entry before it is found at `w`. */
  lemma LookupIsFirstMatch(table: seq<ConfigEntry>, key: seq<char>, w: nat)
    requires CheckKeyFormat(key) && w < |table| && KeysMatch(table[w].key, key)
    requires forall j :: 0 <= j < w ==> !KeysMatch(table[j].key, key)
    ensures Lookup(table, key) == Some(w)
  {
  }

  /** A key found among the first `k` entries is found at the same slot in the whole table. */
  lemma LookupFromPrefix(table: seq<ConfigEntry>, k: nat, key: seq<char>)
    requires k <= |table| && Lookup(table[..k], key).Some?
    ensures Lookup(table, key) == Lookup(table[..k], key)
  {
    var w := Lookup(table[..k], key).value;
    assert table[w] == table[..k][w];
    assert forall j :: 0 <= j < w ==> table[j] == table[..k][j];
    LookupIsFirstMatch(table, key, w);
  }

  /** Lookup depends only on which entries match the key. */
  lemma LookupDeterminedByMatches(t1: seq<ConfigEntry>, t2: seq<ConfigEntry>, key: seq<char>)
    requires |t1| == |t2|
    requires forall j :: 0 <= j < |t1| ==> (KeysMatch(t1[j].key, key) <==> KeysMatch(t2[j].key, key))
    ensures Lookup(t1, key) == Lookup(t2, key)
  {
  }

  /** Overwriting an entry with a record of the same key does not move any lookup. */
  lemma LookupIgnoresKeyPreservingWrite(t: seq<ConfigEntry>, w: nat, e: ConfigEntry, key: seq<char>)
    requires w < |t| && KeysMatch(t[w].key, e.key)
    ensures Lookup(t[w := e], key) == Lookup(t, key)
  {
    LookupDeterminedByMatches(t[w := e], t, key);
  }

  /** A record after settingsUpdateEntry: same key, new tag, new value text. */
  function Assign(e: ConfigEntry, dataType: int, value: seq<char>): (r: ConfigEntry)
    ensures r.key == e.key && r.dataType == dataType
    ensures CStr(r.value) == Trunc(CStr(value), MaxValueLength - 1)
  {
    ConfigEntry(e.key, dataType, StoreText(value))
  }

  /**
   * settingsUpdateEntry on the live entries: the first entry matching `key` takes the new
   * tag and the value text cut to 95 chars; every other entry stays as it was.
   */
  function UpdateTable(table: seq<ConfigEntry>, key: seq<char>, dataType: int, value: seq<char>)
    : (r: seq<ConfigEntry>)
    ensures |r| == |table|
    ensures Lookup(table, key).None? ==> r == table
    ensures Lookup(table, key).Some? ==>
      var j := Lookup(table, key).value;
      && r[j].key == table[j].key && r[j].dataType == dataType
      && CStr(r[j].value) == Trunc(CStr(value), MaxValueLength - 1)
      && forall i :: 0 <= i < |table| && i != j ==> r[i] == table[i]
  {
    match Lookup(table, key)
    case None => table
    case Some(j) => table[j := Assign(table[j], dataType, value)]
  }

  /** After an update, find returns the same entry and it holds what was written. */
  lemma FindAfterUpdate(table: seq<ConfigEntry>, key: seq<char>, dataType: int, value: seq<char>)
    requires Lookup(table, key).Some?
    ensures var r := UpdateTable(table, key, dataType, value);
      && Lookup(r, key) == Lookup(table, key)
      && r[Lookup(r, key).value].dataType == dataType
      && CStr(r[Lookup(r, key).value].value) == Trunc(CStr(value), MaxValueLength - 1)
  {
    var j := Lookup(table, key).value;
    LookupIgnoresKeyPreservingWrite(table, j, Assign(table[j], dataType, value), key);
  }
}
