/**
 * A small application in the manner of the example CLI (examples/main.c), cut to the first
 * two of its defaults: TEST1 (a string) and TEST2 (a bool), in the 4096-byte region at
 * the CLI's SETTINGS_ADDRESS. The first boot finds the region erased and starts from the
 * defaults; the application sets TEST2 to true and saves; the next boot reads TEST2 back
 * as "true". A second init on the same context, in place of the reboot, reads it back too,
 * and counts six live entries.
 */
module Example {
  import opened SettingsTypes
  import opened CText
  import opened Validation
  import opened Table
  import opened Load
  import opened Persistence
  import opened Settings

  /**
   * The two defaults, written as the CLI's C initializers; the NUL padding of the fixed-size
   * fields is left implicit, since every operation reads a field up to its first NUL.
   */
  const Test1: ConfigEntry := ConfigEntry("TEST1", TypeString, "TEST PARAM 1")
  const Test2: ConfigEntry := ConfigEntry("TEST2", TypeBool, "false")
  const ExampleDefaults: seq<ConfigEntry> := [Test1, Test2]

  /** The CLI's region offset, SETTINGS_ADDRESS: a page-aligned 0x1FF000. */
  const SettingsAddress: uint32 := 0x1F_F000

  /** A key literal of key chars is valid and compares as itself. */
  lemma LiteralKey(t: seq<char>)
    requires 0 < |t| <= MaxKeyLength && forall i :: 0 <= i < |t| ==> IsKeyChar(t[i])
    ensures KeyPrefix(t) == t && CheckKeyFormat(t)
  {
    assert '\0' !in t by {
      assert forall i :: 0 <= i < |t| ==> t[i] != '\0';
    }
    CStrOfNulFree(t);
    CheckKeyFormatOfText(t);
  }

  /** The sentinel's key compares as MAGICVERSION, and the sentinel passes the checks. */
  lemma SentinelKey(code: uint32)
    ensures KeyPrefix(Sentinel(code).key) == KeyPrefix(MagicVersionKey) == MagicVersionKey
    ensures Accepted(Sentinel(code))
  {
    ReservedKey(code);
    SentinelAccepted(code);
  }

  /** TEST1 and TEST2 are valid keys, told apart by find. */
  lemma TestKeys()
    ensures KeyPrefix(Test1.key) == "TEST1" && KeyPrefix(Test2.key) == "TEST2"
    ensures !KeysMatch(Test1.key, Test2.key)
    ensures Accepted(Test1) && Accepted(Test2)
  {
    var k1, k2 := "TEST1", "TEST2";
    assert forall i :: 0 <= i < |k1| ==> IsKeyChar(k1[i]);
    assert forall i :: 0 <= i < |k2| ==> IsKeyChar(k2[i]);
    LiteralKey(k1);
    LiteralKey(k2);
    assert k1 != k2 by {
      assert k1[4] == '1' && k2[4] == '2';
    }
  }

  /** A key of another length than MAGICVERSION never matches the sentinel. */
  lemma ReservedKeyDiffers(code: uint32, key: seq<char>)
    requires |KeyPrefix(key)| != |MagicVersionKey|
    ensures !KeysMatch(Sentinel(code).key, key) && !KeysMatch(key, MagicVersionKey)
  {
    SentinelKey(code);
  }

  /** The keys of the example, as find compares them: all valid, no two alike. */
  lemma ExampleKeys(code: uint32)
    ensures KeyPrefix(Test2.key) == "TEST2"
    ensures !KeysMatch(Sentinel(code).key, Test1.key) && !KeysMatch(Sentinel(code).key, Test2.key)
    ensures !KeysMatch(Test1.key, Test2.key) && !KeysMatch(Test2.key, MagicVersionKey)
    ensures Accepted(Sentinel(code)) && Accepted(Test1) && Accepted(Test2)
  {
    SentinelKey(code);
    TestKeys();
    ReservedKeyDiffers(code, Test1.key);
    ReservedKeyDiffers(code, Test2.key);
  }

  /** Find over three records whose keys are told apart by the key sought. */
  lemma LookupThird(a: ConfigEntry, b: ConfigEntry, c: ConfigEntry, key: seq<char>)
    requires CheckKeyFormat(key) && KeysMatch(c.key, key)
    requires !KeysMatch(a.key, key) && !KeysMatch(b.key, key)
    ensures Lookup([a, b, c], key) == Some(2)
  {
    LookupIsFirstMatch([a, b, c], key, 2);
  }

  /** Three accepted records with pairwise different keys make a valid default table. */
  lemma ThreeDefaults(a: ConfigEntry, b: ConfigEntry, c: ConfigEntry)
    requires Accepted(a) && Accepted(b) && Accepted(c)
    requires !KeysMatch(a.key, b.key) && !KeysMatch(a.key, c.key) && !KeysMatch(b.key, c.key)
    ensures var t := [a, b, c];
      (forall j :: 0 <= j < |t| ==> Accepted(t[j])) && DistinctKeys(t)
  {
  }

  /** settings_init prefixes the two defaults with the sentinel. */
  lemma ExampleAugmented(code: uint32)
    ensures InitDefaults(code, ExampleDefaults) == [Sentinel(code), Test1, Test2]
  {
    InitTwoDefaults(code, Test1, Test2);
  }

  /** For any two defaults numEntries is three, so nothing is cut. */
  lemma InitTwoDefaults(code: uint32, x: ConfigEntry, y: ConfigEntry)
    ensures InitDefaults(code, [x, y]) == [Sentinel(code), x, y]
  {
    var a := Augmented(code, [x, y]);
    assert a == [Sentinel(code), x, y];
    assert a[..3] == a;
  }

  /**
   * The sentinel-prefixed defaults of the example: three records, each accepted by the
   * default loop, no two with the same key, and TEST2 found in slot 2.
   */
  lemma ExampleDefaultsWellFormed(code: uint32)
    ensures var aug := InitDefaults(code, ExampleDefaults);
      && aug == [Sentinel(code), Test1, Test2]
      && (forall j :: 0 <= j < |aug| ==> Accepted(aug[j]))
      && DistinctKeys(aug)
      && Lookup(aug, "TEST2") == Some(2)
  {
    ExampleAugmented(code);
    ExampleKeys(code);
    ThreeDefaults(Sentinel(code), Test1, Test2);
    LookupThird(Sentinel(code), Test1, Test2, Test2.key);
  }

  /** Find gives TEST2 in slot 2 of the first-boot table. */
  lemma ExampleFindsTest2(code: uint32)
    ensures Lookup(InitDefaults(code, ExampleDefaults), "TEST2") == Some(2)
  {
    ExampleDefaultsWellFormed(code);
  }

  /** First boot: over the erased region, init yields the sentinel and the two defaults. */
  lemma ExampleFirstBoot(code: uint32, cap: nat)
    requires 3 <= cap
    ensures var r := InitTable(0, ExampleDefaults, cap, code, ErasedImage(cap));
      r.count == 3 && r.entries[..3] == InitDefaults(code, ExampleDefaults)
  {
    var aug := InitDefaults(code, ExampleDefaults);
    ExampleDefaultsWellFormed(code);
    ErasedRegionLoadsDefaults(Blanks(cap), 0, aug, code, cap);
    AllValidDefaultsLoadExactly(Blanks(cap), 0, aug);
  }

  /** put_bool("TEST2", true) on the first-boot table finds slot 2 and stores "true" there. */
  lemma ExamplePut(code: uint32)
    ensures var t := UpdateTable(InitDefaults(code, ExampleDefaults), "TEST2", TypeBool, "true");
      && |t| == 3 && Lookup(t, "TEST2") == Some(2)
      && t[2].dataType == TypeBool && CStr(t[2].value) == "true"
  {
    var aug := InitDefaults(code, ExampleDefaults);
    ExampleDefaultsWellFormed(code);
    FindAfterUpdate(aug, "TEST2", TypeBool, "true");
    TrueText();
  }

  /** The text put_bool stores for true survives the cut to 95 chars. */
  lemma TrueText()
    ensures Trunc(CStr("true"), MaxValueLength - 1) == "true"
  {
    var v := "true";
    assert forall i :: 0 <= i < |v| ==> v[i] != '\0';
    CStrOfNulFree(v);
  }

  /**
   * Next boot, or a second init on the same context with `c` entries still live: when the
   * region holds the first-boot table with TEST2 set to true, init restores that table in
   * the first three slots and counts `c + 3` entries.
   */
  lemma ExampleReload(code: uint32, c: nat, cap: nat, saved: seq<ConfigEntry>)
    requires c + 3 <= cap && |saved| == cap
    requires saved[..3] == UpdateTable(InitDefaults(code, ExampleDefaults), "TEST2", TypeBool, "true")
    ensures var r := InitTable(c, ExampleDefaults, cap, code, saved);
      r.count == c + 3 && r.entries[..3] == saved[..3]
  {
    var aug := InitDefaults(code, ExampleDefaults);
    ExampleDefaultsWellFormed(code);
    ExampleKeys(code);
    DefaultsUpdateSurvivesReload(Blanks(cap), c, aug, code, "TEST2", TypeBool, "true", saved);
  }

  /**
   * After that reload, find over the `c + 3` live entries gives TEST2 in slot 2, tagged
   * BOOL and reading "true".
   */
  lemma ExampleRestart(code: uint32, c: nat, cap: nat, saved: seq<ConfigEntry>)
    requires c + 3 <= cap && |saved| == cap
    requires saved[..3] == UpdateTable(InitDefaults(code, ExampleDefaults), "TEST2", TypeBool, "true")
    ensures var r := InitTable(c, ExampleDefaults, cap, code, saved);
      && r.count == c + 3 && r.entries[..3] == saved[..3]
      && Lookup(r.entries[..r.count], "TEST2") == Some(2)
      && r.entries[2].dataType == TypeBool && CStr(r.entries[2].value) == "true"
  {
    ExampleReload(code, c, cap, saved);
    ExamplePut(code);
    var r := InitTable(c, ExampleDefaults, cap, code, saved);
    RestoredFinds(r.entries, r.count, saved[..3], "TEST2", 2);
  }

  /** A live table whose first slots hold `u` finds what `u` finds, at the same slot. */
  lemma RestoredFinds(entries: seq<ConfigEntry>, count: nat, u: seq<ConfigEntry>,
                      key: seq<char>, w: nat)
    requires |u| <= count <= |entries| && entries[..|u|] == u && Lookup(u, key) == Some(w)
    ensures Lookup(entries[..count], key) == Some(w) && entries[w] == u[w]
  {
    var live := entries[..count];
    assert live[..|u|] == u;
    LookupFromPrefix(live, |u|, key);
    assert entries[w] == entries[..|u|][w];
  }

  /** The first boot: a context over the erased region, initialised with the defaults. */
  method FirstBoot(magic: uint16, version: uint16) returns (board: SettingsContext, first: int)
    ensures fresh(board) && fresh(board.entries) && board.Valid() && board.Backed()
    ensures board.size == DefaultFlashSize && board.offset == SettingsAddress
    ensures board.count == 3 && board.Live() == InitDefaults(HeaderCode(magic, version), ExampleDefaults)
    ensures first == 3
  {
    var blank := ErasedImage(32);
    board := new SettingsContext(blank);
    first := board.Init(ExampleDefaults, SettingsAddress, DefaultFlashSize, magic, version, blank);
    ExampleFirstBoot(HeaderCode(magic, version), 32);
  }

  /**
   * The next boot: a context over a region holding the first-boot table with TEST2 set to
   * true; init loads three entries and find gives TEST2 holding "true".
   */
  method Restart(magic: uint16, version: uint16, saved: seq<ConfigEntry>)
    returns (second: int, flag: seq<char>)
    requires |saved| == 32
    requires saved[..3]
          == UpdateTable(InitDefaults(HeaderCode(magic, version), ExampleDefaults), "TEST2", TypeBool, "true")
    ensures second == 3 && CStr(flag) == "true"
  {
    var restarted := new SettingsContext(saved);
    second := restarted.Init(ExampleDefaults, SettingsAddress, DefaultFlashSize, magic, version, saved);
    ExampleRestart(HeaderCode(magic, version), 0, 32, saved);
    var found := restarted.FindEntry("TEST2");
    flag := restarted.entries[found.value].value;
  }

  /**
   * The application's update: put_bool("TEST2", true) on a three-entry table holding
   * TEST2 in slot 2, then save; both succeed, and the region then holds the updated table.
   */
  method PutAndSave(board: SettingsContext, ghost aug: seq<ConfigEntry>)
    returns (putStatus: int, saveStatus: int, saved: seq<ConfigEntry>)
    requires board.Valid() && board.Backed() && board.size == DefaultFlashSize
    requires board.count == 3 && board.Live() == aug && Lookup(aug, "TEST2") == Some(2)
    modifies board`flash, board.entries
    ensures putStatus == 0 && saveStatus == 0 && board.flash == saved && |saved| == 32
    ensures board.count == 3 && board.size == DefaultFlashSize && board.offset == old(board.offset)
    ensures saved[..3] == UpdateTable(aug, "TEST2", TypeBool, "true")
  {
    putStatus := board.PutBool("TEST2", true);
    assert board.count * RecordSize <= board.size by {
      assert RecordSize == 128;
    }
    saveStatus := board.Save();
    saved := board.entries[..];
    assert saved[..3] == board.Live();
  }

  /**
   * The example run end to end, for any magic and version (the CLI uses 0x1234 and 1):
   * each boot loads three entries, the put and the save succeed, and after the restart
   * TEST2 holds "true".
   */
  method SaveAndRestart(magic: uint16, version: uint16)
    returns (first: int, putStatus: int, saveStatus: int, second: int, flag: seq<char>)
    ensures first == 3 && putStatus == 0 && saveStatus == 0 && second == 3
    ensures CStr(flag) == "true"
  {
    var board, saved;
    board, first := FirstBoot(magic, version);
    ExampleFindsTest2(HeaderCode(magic, version));
    putStatus, saveStatus, saved := PutAndSave(board, InitDefaults(HeaderCode(magic, version), ExampleDefaults));
    // the second boot reads what the save programmed
    second, flag := Restart(magic, version, saved);
  }

  /**
   * settings_init called a second time on the same context, after a save of the
   * first-boot table with TEST2 set to true: it reads the region as it stands and carries
   * the three entries still live, so it reports six; find then gives TEST2 holding "true".
   */
  method Reinit(board: SettingsContext, magic: uint16, version: uint16, saved: seq<ConfigEntry>)
    returns (second: int, flag: seq<char>)
    requires board.count == 3 && board.offset == SettingsAddress && board.size == DefaultFlashSize
    requires board.flash == saved && |saved| == 32
    requires saved[..3]
          == UpdateTable(InitDefaults(HeaderCode(magic, version), ExampleDefaults), "TEST2", TypeBool, "true")
    modifies board
    ensures second == 6 && CStr(flag) == "true"
  {
    second := board.Init(ExampleDefaults, SettingsAddress, DefaultFlashSize, magic, version, saved);
    ExampleRestart(HeaderCode(magic, version), 3, 32, saved);
    var found := board.FindEntry("TEST2");
    flag := board.entries[found.value].value;
  }

  /**
   * The example run with a second init on the same context in place of the reboot: the
   * first init loads three entries, the second reports six, and TEST2 holds "true".
   */
  method SaveAndReinit(magic: uint16, version: uint16)
    returns (first: int, second: int, flag: seq<char>)
    ensures first == 3 && second == 6 && CStr(flag) == "true"
  {
    var board, putStatus, saveStatus, saved;
    board, first := FirstBoot(magic, version);
    ExampleFindsTest2(HeaderCode(magic, version));
    putStatus, saveStatus, saved := PutAndSave(board, InitDefaults(HeaderCode(magic, version), ExampleDefaults));
    second, flag := Reinit(board, magic, version, saved);
  }
}
