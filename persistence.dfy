/**
 * The flash region as a sequence of records: what erase leaves there, and what a later
 * init reads back from what save wrote.
 */
module Persistence {
  import opened SettingsTypes
  import opened CText
  import opened Validation
  import opened Table
  import opened Load

  /** Erased flash reads back as 0xFF in every byte. */
  const ErasedChar: char := 0xFF as char

  function ErasedField(n: nat): (f: seq<char>)
    ensures |f| == n && forall i :: 0 <= i < n ==> f[i] == ErasedChar
  {
    seq(n, _ => ErasedChar)
  }

  /** A record slot of an erased region: 0xFF key and value fields and a 0xFFFF tag. */
  function ErasedRecord(): ConfigEntry {
    ConfigEntry(ErasedField(MaxKeyLength), 0xFFFF, ErasedField(MaxValueLength))
  }

  /** The region after flash_range_erase, `n` record slots long. */
  function ErasedImage(n: nat): (r: seq<ConfigEntry>)
    ensures |r| == n && forall i :: 0 <= i < n ==> r[i] == ErasedRecord()
  {
    seq(n, _ => ErasedRecord())
  }

  /** An erased region holds no header (it parses as 0) and no valid record. */
  lemma ErasedRegionHasNoRecords(n: nat)
    requires n > 0
    ensures StoredHeader(ErasedImage(n)) == 0
    ensures forall i :: 0 <= i < n ==> EndsScan(ErasedImage(n)[i])
  {
    var e := ErasedRecord();
    assert '\0' !in e.key && '\0' !in e.value;
    CStrOfNulFree(e.key);
    KeyWithForeignCharRejected(e.key, 0);
    assert HeaderText(e.value) == e.value by {
      CStrOfNulFree(e.value);
    }
    StrToULOfNonDigit(e.value);
  }

  /** Loading from an erased region gives the defaults, whatever the magic and version. */
  lemma ErasedRegionLoadsDefaults(buf: seq<ConfigEntry>, count: nat, aug: seq<ConfigEntry>,
                                  code: uint32, n: nat)
    requires count + |aug| <= |buf| && |aug| <= n && 0 < n
    ensures LoadAll(buf, count, aug, code, ErasedImage(n)) == LoadDefaults(buf, count, aug)
  {
    ErasedRegionHasNoRecords(n);
  }

  /** No two defaults share a key (as strncmp compares keys). */
  ghost predicate DistinctKeys(aug: seq<ConfigEntry>) {
    forall i, j :: 0 <= i < j < |aug| ==> !KeysMatch(aug[i].key, aug[j].key)
  }

  /** The first |aug| records are valid and carry the defaults' keys, in the defaults' order. */
  ghost predicate FollowsSchema(t: seq<ConfigEntry>, aug: seq<ConfigEntry>) {
    && |aug| <= |t|
    && forall i :: 0 <= i < |aug| ==> Accepted(t[i]) && KeysMatch(t[i].key, aug[i].key)
  }

  /**
   * Schema drift: whatever the region holds, and whatever live count `c` an earlier init
   * left, a load over valid defaults yields exactly the defaults' keys in their slots, one
   * more live entry per default, each with a valid key and tag.
   */
  lemma LoadFollowsSchema(buf: seq<ConfigEntry>, c: nat, aug: seq<ConfigEntry>, code: uint32,
                          image: seq<ConfigEntry>)
    requires c + |aug| <= |buf| && |aug| <= |image| && 0 < |image|
    requires forall j :: 0 <= j < |aug| ==> Accepted(aug[j])
    ensures var r := LoadAll(buf, c, aug, code, image);
      r.count == c + |aug| && FollowsSchema(r.entries, aug)
  {
    AllValidDefaultsLoadExactly(buf, c, aug);
    var d := LoadDefaults(buf, c, aug);
    assert forall j :: 0 <= j < |aug| ==> d.entries[j] == aug[j] by {
      assert forall j :: 0 <= j < |aug| ==> d.entries[j] == d.entries[..|aug|][j];
    }
    ScanFromShape(d.entries, d.count, image, |aug|, 0);
  }

  /** An update with a valid tag keeps the live table on the schema. */
  lemma UpdateFollowsSchema(t: seq<ConfigEntry>, aug: seq<ConfigEntry>, key: seq<char>,
                            dataType: int, value: seq<char>)
    requires FollowsSchema(t, aug) && CheckTypeFormat(dataType)
    ensures FollowsSchema(UpdateTable(t, key, dataType, value), aug)
  {
    var r := UpdateTable(t, key, dataType, value);
    forall i | 0 <= i < |aug|
      ensures Accepted(r[i]) && KeysMatch(r[i].key, aug[i].key)
    {
      assert r[i].key == t[i].key && (r[i] == t[i] || r[i].dataType == dataType);
    }
  }

  /** The schema only looks at the first |aug| records. */
  lemma FollowsSchemaOfPrefix(saved: seq<ConfigEntry>, t: seq<ConfigEntry>, aug: seq<ConfigEntry>)
    requires FollowsSchema(t, aug) && |aug| <= |saved| && saved[..|aug|] == t[..|aug|]
    ensures FollowsSchema(saved, aug)
  {
    assert forall i :: 0 <= i < |aug| ==> saved[i] == saved[..|aug|][i];
  }

  /** An update of any key other than MAGICVERSION leaves the sentinel slot alone. */
  lemma UpdateKeepsSentinel(t: seq<ConfigEntry>, key: seq<char>, dataType: int,
                            value: seq<char>)
    requires |t| > 0 && KeysMatch(t[0].key, MagicVersionKey)
    requires !KeysMatch(key, MagicVersionKey)
    ensures UpdateTable(t, key, dataType, value)[0] == t[0]
  {
  }

  /**
   * In the middle of a round-trip scan over `m` live entries, find returns slot `i` for
   * saved record `i`: the defaults' slots come first, and only slot `i` has that key.
   */
  lemma RoundTripLookup(t: seq<ConfigEntry>, aug: seq<ConfigEntry>, saved: seq<ConfigEntry>,
                        m: nat, i: nat)
    requires |aug| <= m <= |t| && FollowsSchema(saved, aug) && DistinctKeys(aug)
    requires i < |aug|
    requires forall j :: 0 <= j < i ==> t[j] == saved[j]
    requires forall j :: i <= j < |aug| ==> t[j] == aug[j]
    ensures Lookup(t[..m], KeyPrefix(saved[i].key)) == Some(i)
  {
    var p := KeyPrefix(saved[i].key);
    KeyPrefixIdempotent(saved[i].key);
    KeyPrefixValid(saved[i].key);
    var live := t[..m];
    assert KeysMatch(live[i].key, p);
    forall j | 0 <= j < i
      ensures !KeysMatch(live[j].key, p)
    {
      assert !KeysMatch(aug[j].key, aug[i].key);
    }
  }

  /**
   * The scan of a round trip over `m` live entries puts saved record `i` into slot `i`,
   * for every default, and leaves the live slots past the defaults as they were.
   */
  lemma {:induction false} ScanRestoresFrom(t: seq<ConfigEntry>, aug: seq<ConfigEntry>,
                                            saved: seq<ConfigEntry>, m: nat, i: nat)
    requires |aug| <= m <= |t| && FollowsSchema(saved, aug) && DistinctKeys(aug)
    requires i <= |aug|
    requires forall j :: 0 <= j < i ==> t[j] == saved[j]
    requires forall j :: i <= j < |aug| ==> t[j] == aug[j]
    ensures var r := ScanFrom(t, m, saved, |aug|, i);
      && (forall j :: 0 <= j < |aug| ==> r[j] == saved[j])
      && (forall j :: |aug| <= j < |t| ==> r[j] == t[j])
    decreases |aug| - i
  {
    var n := |aug|;
    if i < n {
      RoundTripLookup(t, aug, saved, m, i);
      AcceptedIsNoTerminator(saved[i]);
      ScanStepHit(t, m, saved[i], i);
      ScanFromStep(t, m, saved, n, i);
      var next := t[i := saved[i]];
      assert forall j :: 0 <= j <= i ==> next[j] == saved[j];
      assert forall j :: i < j < n ==> next[j] == aug[j];
      assert forall j :: n <= j < |t| ==> next[j] == t[j];
      ScanRestoresFrom(next, aug, saved, m, i + 1);
      var r := ScanFrom(next, m, saved, n, i + 1);
      assert ScanFrom(t, m, saved, n, i) == r;
      assert forall j :: 0 <= j < n ==> r[j] == saved[j];
      assert forall j :: n <= j < |t| ==> r[j] == t[j];
    } else {
      ScanFromEnd(t, m, saved, n, i);
      assert forall j :: 0 <= j < n ==> t[j] == saved[j];
    }
  }

  /**
   * Save/load round trip: if the region holds records that follow the schema of the same
   * valid, distinct defaults and carries the same header code, a load restores every one
   * of those records, tag and value included. The load may start from a live count `c`
   * that an earlier init left, as a second init on the same context does: the count
   * grows by the defaults' number, and the slots past the defaults keep what the buffer held.
   */
  lemma SaveThenLoadRestores(buf: seq<ConfigEntry>, c: nat, aug: seq<ConfigEntry>, code: uint32,
                             saved: seq<ConfigEntry>)
    requires c + |aug| <= |buf| && 0 < |saved|
    requires forall j :: 0 <= j < |aug| ==> Accepted(aug[j])
    requires DistinctKeys(aug) && FollowsSchema(saved, aug)
    requires StoredHeader(saved) == code
    ensures var r := LoadAll(buf, c, aug, code, saved);
      && r.count == c + |aug|
      && r.entries[..|aug|] == saved[..|aug|]
      && r.entries[|aug|..] == buf[|aug|..]
  {
    var n := |aug|;
    AllValidDefaultsLoadExactly(buf, c, aug);
    var d := LoadDefaults(buf, c, aug);
    SlicesPointwise(d.entries, aug, buf);
    ScanRestoresFrom(d.entries, aug, saved, d.count, 0);
    var e := ScanFrom(d.entries, d.count, saved, n, 0);
    assert LoadAll(buf, c, aug, code, saved) == Loaded(e, d.count);
    PointwiseSlices(e, saved, buf, n);
  }

  /** A table that starts with `aug` and ends as `buf` does, slot by slot. */
  lemma SlicesPointwise(t: seq<ConfigEntry>, aug: seq<ConfigEntry>, buf: seq<ConfigEntry>)
    requires |aug| <= |t| == |buf| && t[..|aug|] == aug && t[|aug|..] == buf[|aug|..]
    ensures forall j :: 0 <= j < |aug| ==> t[j] == aug[j]
    ensures forall j :: |aug| <= j < |t| ==> t[j] == buf[j]
  {
    var n := |aug|;
    assert forall j :: 0 <= j < n ==> t[j] == t[..n][j];
    assert forall j :: n <= j < |t| ==> t[j] == t[n..][j - n] && buf[j] == buf[n..][j - n];
  }

  /** Conversely, slot by slot agreement below and from `n` gives the two slices. */
  lemma PointwiseSlices(t: seq<ConfigEntry>, saved: seq<ConfigEntry>, buf: seq<ConfigEntry>, n: nat)
    requires n <= |t| == |buf| && n <= |saved|
    requires forall j :: 0 <= j < n ==> t[j] == saved[j]
    requires forall j :: n <= j < |t| ==> t[j] == buf[j]
    ensures t[..n] == saved[..n] && t[n..] == buf[n..]
  {
    assert forall k :: 0 <= k < |t| - n ==> t[n..][k] == buf[n..][k];
  }

  /**
   * The table the default loop leaves, with the sentinel in slot 0, is on its own schema,
   * keys slot 0 as MAGICVERSION and carries the header code.
   */
  lemma DefaultsCarryHeader(aug: seq<ConfigEntry>, code: uint32)
    requires 0 < |aug| && aug[0] == Sentinel(code)
    requires forall j :: 0 <= j < |aug| ==> Accepted(aug[j])
    ensures FollowsSchema(aug, aug) && KeysMatch(aug[0].key, MagicVersionKey)
    ensures StoredHeader(aug) == code
  {
    SentinelFields(code);
    ReservedKey(code);
  }

  /**
   * An update of any key other than MAGICVERSION, with a valid tag, keeps a table on
   * the schema and keeps its header code, so puts can follow one another.
   */
  lemma UpdateKeepsHeader(t: seq<ConfigEntry>, aug: seq<ConfigEntry>, code: uint32,
                          key: seq<char>, dataType: int, value: seq<char>)
    requires 0 < |aug| && FollowsSchema(t, aug) && KeysMatch(aug[0].key, MagicVersionKey)
    requires StoredHeader(t) == code
    requires CheckTypeFormat(dataType) && !KeysMatch(key, MagicVersionKey)
    ensures var r := UpdateTable(t, key, dataType, value);
      FollowsSchema(r, aug) && StoredHeader(r) == code
  {
    UpdateFollowsSchema(t, aug, key, dataType, value);
    UpdateKeepsSentinel(t, key, dataType, value);
  }

  /**
   * A put, a save and a load, as a reboot or as a second init on the same context, which
   * starts from the live count `c` the earlier init left. Take any live table `t` whose
   * first entries follow the schema of the defaults and carry the header code (the
   * defaults themselves, a table restored by a load, or either after other puts). When the
   * region holds `t` after an update of any key other than MAGICVERSION, the load over
   * the same defaults restores the defaults' slots of it, the update included, and those
   * slots are again on the schema under the same code.
   */
  lemma UpdateSurvivesReload(buf: seq<ConfigEntry>, c: nat, aug: seq<ConfigEntry>, code: uint32,
                             t: seq<ConfigEntry>, key: seq<char>, dataType: int,
                             value: seq<char>, saved: seq<ConfigEntry>)
    requires 0 < |aug| && c + |aug| <= |buf| && |t| <= |saved|
    requires forall j :: 0 <= j < |aug| ==> Accepted(aug[j])
    requires DistinctKeys(aug) && KeysMatch(aug[0].key, MagicVersionKey)
    requires FollowsSchema(t, aug) && StoredHeader(t) == code
    requires CheckTypeFormat(dataType) && !KeysMatch(key, MagicVersionKey)
    requires saved[..|t|] == UpdateTable(t, key, dataType, value)
    ensures var r := LoadAll(buf, c, aug, code, saved);
      && r.count == c + |aug| && r.entries[..|aug|] == saved[..|aug|]
      && r.entries[..|aug|] == UpdateTable(t, key, dataType, value)[..|aug|]
      && FollowsSchema(r.entries[..|aug|], aug) && StoredHeader(r.entries[..|aug|]) == code
  {
    UpdateKeepsHeader(t, aug, code, key, dataType, value);
    RegionOnSchema(saved, UpdateTable(t, key, dataType, value), aug, code);
    SaveThenLoadRestores(buf, c, aug, code, saved);
  }

  /**
   * The first cycle: init over the defaults, one put of a key other than MAGICVERSION,
   * a save, and a reboot or a second init carrying the live count `c`. The load restores
   * the updated defaults in the defaults' slots.
   */
  lemma DefaultsUpdateSurvivesReload(buf: seq<ConfigEntry>, c: nat, aug: seq<ConfigEntry>,
                                     code: uint32, key: seq<char>, dataType: int,
                                     value: seq<char>, saved: seq<ConfigEntry>)
    requires 0 < |aug| && aug[0] == Sentinel(code) && c + |aug| <= |buf| && |aug| <= |saved|
    requires forall j :: 0 <= j < |aug| ==> Accepted(aug[j])
    requires DistinctKeys(aug)
    requires CheckTypeFormat(dataType) && !KeysMatch(key, MagicVersionKey)
    requires saved[..|aug|] == UpdateTable(aug, key, dataType, value)
    ensures var r := LoadAll(buf, c, aug, code, saved);
      r.count == c + |aug| && r.entries[..|aug|] == saved[..|aug|]
  {
    DefaultsCarryHeader(aug, code);
    UpdateSurvivesReload(buf, c, aug, code, aug, key, dataType, value, saved);
  }

  /**
   * When the region starts with a table `u` on the schema under the header code, the
   * region and the defaults' slots of `u` are on the schema under that code, and the
   * region holds those slots.
   */
  lemma RegionOnSchema(saved: seq<ConfigEntry>, u: seq<ConfigEntry>, aug: seq<ConfigEntry>,
                       code: uint32)
    requires 0 < |aug| && |u| <= |saved| && saved[..|u|] == u
    requires FollowsSchema(u, aug) && StoredHeader(u) == code
    ensures var p := u[..|aug|];
      && saved[..|aug|] == p && FollowsSchema(saved, aug) && StoredHeader(saved) == code
      && FollowsSchema(p, aug) && StoredHeader(p) == code
  {
    var n := |aug|;
    var p := u[..n];
    assert saved[..n] == p by {
      assert saved[..n] == saved[..|u|][..n];
    }
    FollowsSchemaOfPrefix(saved, u, aug);
    FollowsSchemaOfPrefix(p, u, aug);
    assert saved[0] == p[0] == u[0];
  }

  /**
   * Nothing guards the sentinel's key: find gives the sentinel's slot for MAGICVERSION, and a
   * put on it rewrites the header text that the next save writes to record 0.
   */
  lemma ReservedKeyIsWritable(t: seq<ConfigEntry>, code: uint32, dataType: int, value: seq<char>)
    requires |t| > 0 && t[0] == Sentinel(code)
    ensures Lookup(t, MagicVersionKey) == Some(0)
    ensures var r := UpdateTable(t, MagicVersionKey, dataType, value);
      r[0].dataType == dataType && r[0].value == StoreText(value)
  {
    ReservedKey(code);
    LookupIsFirstMatch(t, MagicVersionKey, 0);
  }
}
