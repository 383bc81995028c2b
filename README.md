# rp-settings: a Dafny model of the flash-backed settings store

rp-settings keeps an application's configuration, as key/value records, in one flash region
of an RP2040 board. Each record has three fixed-size parts:

- a 30-char key field;
- a type tag: INT, STRING or BOOL;
- a 96-char value field, which always holds text.

The sections below describe what `settings_init` does, then what this model covers.

- **Sentinel and defaults.** `settings_init` puts a sentinel record in front of the
  application's defaults. The sentinel has the key `MAGICVERSION` and the 32-bit header
  code `magic << 16 | version` as decimal text.
- **Default loop.** Each default that passes the key and tag checks is copied into its own
  slot of a freshly allocated entry buffer. Copying stops at the first default with an
  empty key.
- **Overlay from flash.** If record 0 of the region carries the same header code, the flash
  records are scanned in order. Each one overwrites the live entry with the same key,
  until a record fails a check.
- **Queries and updates.** `settings_find_entry` and the three `settings_put_*` calls look
  up the first live entry whose key matches in the first 30 chars. The puts rewrite that
  entry's tag and value.
- **Save and erase.** `settings_save` erases the region and programs the whole entry
  buffer into it. `settings_erase` wipes the region and clears the state.

The model is in nine modules:

| module | file | contents |
|---|---|---|
| `SettingsTypes` | `types.dfy` | the record, the tags, the constants and the region capacity |
| `CText` | `ctext.dfy` | C strings inside fixed char fields, `strncpy` into a value field, the texts of `%lu` and `%d`, `strtoul` |
| `Validation` | `validation.dfy` | `checkKeyFormat` and `checkTypeFormat` |
| `Table` | `table.dfy` | find and update on the live entries, as functions on sequences |
| `Load` | `load.dfy` | the header code and sentinel, the default loop, the flash scan, and the whole of init as functions |
| `Persistence` | `persistence.dfy` | the erased region, the schema invariant, and the save/load round trip |
| `CapacityCheck` | `capacity.dfy` | the capacity assertion of init, as written and as corrected |
| `Settings` | `context.dfy` | the class `SettingsContext` (below) |
| `Example` | `example.dfy` | the two-default scenario of the example CLI, end to end |

In `Settings`, class `SettingsContext` holds the state that `settings.c` keeps in statics:

- `configData` (magic, entry buffer, count);
- the region size and offset;
- the flash region's records, as ghost state.

Each method models a C function, or one of its loops, as the Model table says. For example,
`ReadHeader`, `ScanEntries` and `OverlayRecord` are parts of `settingsLoadAllEntries`, and
`Configure` and `NewBuffer` are parts of `settings_init`. The methods keep the C loops. Each
method is proved against the functions of `Table`, `Load` and `Persistence`, and the
properties are lemmas about those functions.

Records are modelled field by field as raw chars, NUL padded. Every comparison reads a
field as its C string, the chars before the first NUL. Two keys match when their C strings
agree in the first 30 chars; that is `strncmp(a, b, 30) == 0`. A record is taken to be 128
bytes: 30 key chars, a 2-byte tag and 96 value chars. A 4096-byte page then holds exactly 32
records.

### Where the model follows the code rather than the header's documentation

- **The API.** `settings.h` declares a context-passing API: the `SettingsContext` struct of
  `src/settings.h:112-116` and a `ctx` parameter on every call, at
  `src/settings.h:136-226`. `settings.c` keeps one instance in statics instead
  (`src/settings.c:5-9`). The model's class is that one instance.
- **The return value of init.** `src/settings.h:133-134` says `settings_init` may return a
  negative value. The code returns `configData.count`, which is never negative.
- **The live count.** `settings_init` never resets `configData.count`. A second init
  therefore counts on from the first one's count. `Settings.SettingsContext.Init` carries
  it over, and `Example.SaveAndReinit` shows a second init returning 6 where the first
  returned 3.
- **The parameters of save.** `settings_save` takes no parameters in the code. The header's
  `disable_interrupts` parameter (`src/settings.h:158`) is not modelled.

## Model

| member | source | states |
|---|---|---|
| SettingsTypes.Capacity | src/settings.c:170-171 | a region of whole 4096-byte pages holds exactly size/128 records with no bytes left over, and the default 4096-byte region holds 32 |
| CText.CStr | src/settings.c:14 | the C string of a field is a NUL-free prefix of it, followed by a NUL unless it reaches the end of the field |
| CText.CStrUnique | src/settings.c:14 | any NUL-free prefix that is followed by a NUL or reaches the end of the field is the field's C string |
| CText.CStrOfNulFree | src/settings.c:14 | a text with no NUL is its own C string |
| CText.Trunc | src/settings.c:146 | the bound of `strncpy`: exactly the first min(length, n) chars |
| CText.Nuls | src/settings.c:192-193 | a zero-filled field of n chars |
| CText.Pad | src/settings.c:192-193 | a text written into an n-char field with NUL padding fills the field exactly |
| CText.CStrOfPad | src/settings.c:192-193 | reading a NUL-padded field back gives the text that was written |
| CText.StoreText | src/settings.c:249-252 | the value field after `strncpy` of 95 chars and the final NUL is 96 chars long, ends in NUL, and reads as the source's C string cut to 95 chars |
| CText.StoreTextIdempotent | src/settings.c:264-269 | the copy `settings_put_string` makes, copied again by the update, equals a single copy |
| CText.StoreTextKeepsShortText | src/settings.c:194-196 | a NUL-free text under 96 chars is stored as itself, NUL padded, and reads back unchanged |
| CText.DecimalText | src/settings.c:190 | the `%lu` text of a number is a non-empty run of digits with no leading zero |
| CText.DecimalRoundTrip | src/settings.c:190 | the digits of the `%lu` text of n have the value n |
| CText.DecimalTextOf32Bits | src/settings.c:189-190 | the text of any 32-bit code has at most 10 digits, so `snprintf` into the 96-char buffer never cuts it |
| CText.DecimalTextLength | src/settings.c:190 | a number below 10^k has at most k digits in its `%lu` text |
| CText.DecimalTextOfPow10 | src/settings.c:190 | the digit bound is tight: 10^k has k + 1 digits |
| CText.LeadingDigits | src/settings.c:104 | the digits `strtoul` reads: the longest prefix of digits, followed by a non-digit unless it reaches the end |
| CText.StrToUL | src/settings.c:104 | `strtoul` in base 10 never exceeds ULONG_MAX, which is 2^32-1 on the target |
| CText.StrToULOfDecimal | src/settings.c:104 | `strtoul` reads back any 32-bit number from its `%lu` text |
| CText.StrToULOfNonDigit | src/settings.c:104 | a text starting with a non-digit reads as 0 |
| CText.IntText | src/settings.c:274 | the `%d` text of a C int has 1 to 11 chars and no NUL, so it fits a value field uncut |
| CText.IntTextRoundTrip | src/settings.c:272-277 | read back as a signed decimal, the stored text of an int gives the int |
| Validation.CheckTypeFormat | src/settings.c:38-45 | a tag is accepted exactly when it is 0, 1 or 2 |
| Validation.AllKeyCharsIff | src/settings.c:19-32 | the character loop accepts a text exactly when every char is an upper-case letter, a digit or `_` |
| Validation.CheckKeyFormatIff | src/settings.c:12-35 | a key is accepted exactly when its C string is non-empty and all its chars are key chars |
| Validation.KeyWithForeignCharRejected | src/settings.c:25-31 | a single char other than A-Z, 0-9 and `_` in the key's C string rejects the key |
| Validation.CheckKeyFormatOfText | src/settings.c:12-35 | a key literal with no NUL is judged by its own chars |
| Validation.CheckKeyFormatOfPadded | src/settings.c:12-35 | a key field holding a text and NUL padding is judged exactly as the text |
| Table.KeyPrefix | src/settings.c:228 | what `strncmp(_, _, 30)` compares of a key: a NUL-free prefix of the key's C string, at most 30 chars long, and the whole C string when it is that short |
| Table.KeyPrefixIdempotent | src/settings.c:145-147 | the `keyStr` copy of a scanned key matches the record's key, and copying it again changes nothing |
| Table.KeyPrefixValid | src/settings.c:145-147 | the `keyStr` copy of a valid key is a valid key |
| Table.FirstMatch | src/settings.c:227-231 | the find loop from index i: a result is the first matching entry at or after i; no result means no entry from i on matches |
| Table.Lookup | src/settings.c:220-234 | find gives nothing exactly when the key is invalid or no live entry matches; otherwise it gives the first live entry that matches |
| Table.LookupIsFirstMatch | src/settings.c:223-231 | conversely, for a valid key, the first matching entry is the one find gives |
| Table.LookupDeterminedByMatches | src/settings.c:227-231 | two tables whose entries match a key at the same positions give the same find result |
| Table.LookupFromPrefix | src/settings.c:220-234 | a key found among the first entries of a table is found at the same slot in the whole table |
| Table.LookupIgnoresKeyPreservingWrite | src/settings.c:245-252 | an update, which keeps the key, moves no find result |
| Table.Assign | src/settings.c:248-252 | the updated entry keeps its key, takes the new tag, and its value reads as the new text cut to 95 chars |
| Table.UpdateTable | src/settings.c:236-258 | the update keeps the table's length; a failed find changes nothing; otherwise only the found entry changes, with the key kept and the tag and value rewritten |
| Table.FindAfterUpdate | src/settings.c:220-258 | after a successful update, find gives the same entry, and it holds the tag and the value that were written |
| Load.HeaderCode | src/settings.c:186 | the header code's high 16 bits are the magic and its low 16 bits are the version |
| Load.HeaderCodeInjective | src/settings.c:186 | different magic/version pairs give different header codes |
| Load.HeaderText | src/settings.c:97-103 | the `magicChar` copy: a NUL-free prefix of record 0's value field, at most 96 chars |
| Load.SentinelFields | src/settings.c:189-196 | the sentinel's key reads MAGICVERSION, its tag is INT, its value reads as the decimal header code, and reading the header back from it gives the code |
| Load.SentinelAccepted | src/settings.c:192-193 | the sentinel passes both checks of the default loop |
| Load.ReservedKey | src/settings.h:73 | MAGICVERSION is a valid key, and it matches the sentinel's key field |
| Load.Augmented | src/settings.c:200-204 | `defaultEntriesWithMagic` has one record more than the defaults |
| Load.NumEntries | src/settings.c:207-208 | `defaultNumEntries + 1`, passed as a uint16: one more than the defaults, wrapping to 0 at 65535 |
| Load.InitDefaults | src/settings.c:207-208 | the records handed to the load loop: at most one more than the defaults |
| Load.AcceptedIsNoTerminator | src/settings.c:51-59 | a default that passes both checks does not end the default loop |
| Load.Blanks | src/settings.c:180-181 | the entry buffer as allocated, read as n zero-filled records |
| Load.LoadDefaultsFrom | src/settings.c:50-70 | the default loop keeps the buffer's length and counts at most one entry per default |
| Load.StopIndex | src/settings.c:50-54 | the default loop stops at the first default with an empty key, or at the end |
| Load.LoadDefaultsFromEffect | src/settings.c:50-70 | from index i, every accepted default before the stop is in its own slot, every other slot is unchanged, and the count grows by the number of accepted defaults |
| Load.LoadDefaultsEffect | src/settings.c:48-80 | the same for the whole default loop: accepted defaults in their own slots, skipped defaults and the slots after the stop unchanged |
| Load.AllValidDefaultsLoadExactly | src/settings.c:48-80 | when every default is valid, the table starts with exactly the defaults, the rest of the buffer is unchanged, and the count grows by their number |
| Load.ScanStep | src/settings.c:144-150 | one scanned record keeps the buffer's length |
| Load.ScanFrom | src/settings.c:115-153 | the scanning loop keeps the buffer's length |
| Load.ScanStepShape | src/settings.c:144-150 | one scanned record keeps every key, keeps accepted entries accepted, and touches no slot outside the live entries |
| Load.ScanFromShape | src/settings.c:115-153 | so does the whole scan |
| Load.InitTable | src/settings.c:156-212 | the table init builds fills a buffer with one slot per record of the region; the live count is at least the count carried over and at most the number of slots |
| Load.HeaderMismatchKeepsDefaults | src/settings.c:106-111 | when the stored header differs from the expected code, the result is the defaults alone |
| Load.LoadAllKeepsDefaultCount | src/settings.c:115-153 | the scan never changes the live count: it is always the count the default loop produced |
| Load.ScanStepHit | src/settings.c:147-150 | unfolding lemma: a scanned record whose key find gives overwrites exactly that live entry |
| Load.ScanStepMiss | src/settings.c:147-151 | unfolding lemma: a scanned record whose key is not live changes nothing |
| Load.ScanFromStep | src/settings.c:116-153 | unfolding lemma: the loop from i applies record i, then goes on from i+1 |
| Load.ScanFromEnd | src/settings.c:122-142 | unfolding lemma: a record with an empty key, a bad key or a bad tag ends the scan with nothing more changed |
| Load.ScanReadsOnlyPrefix | src/settings.c:116 | the scan reads no record at or past `numEntries` |
| Load.ScanStopsAtEnd | src/settings.c:122-142 | records after one that fails a check have no effect |
| Load.ScanLeavesUnmatched | src/settings.c:144-150 | an entry whose key no scanned record matches keeps its contents |
| Load.ScanLastRecordWins | src/settings.c:144-153 | of the records that reach a live entry, the last one is what the entry holds |
| Persistence.ErasedField | src/settings.c:312 | an erased field of n chars, all 0xFF |
| Persistence.ErasedImage | src/settings.c:312 | an erased region of n records, each all 0xFF with tag 0xFFFF |
| Persistence.ErasedRegionHasNoRecords | src/settings.c:97-126 | in an erased region the header reads as 0, and every record there ends the scan |
| Persistence.ErasedRegionLoadsDefaults | src/settings.c:84-111 | over an erased region, loading gives exactly what the default loop gives |
| Persistence.LoadFollowsSchema | src/settings.c:84-153 | whatever the region holds and whatever live count `c` an earlier init left, a load over valid defaults counts `c` plus one live entry per default, carrying the defaults' keys in the defaults' order, each with a valid key and tag |
| Persistence.UpdateFollowsSchema | src/settings.c:236-258 | an update with a valid tag keeps the live table on the defaults' keys, order and validity |
| Persistence.UpdateKeepsSentinel | src/settings.c:245-253 | an update of any key other than MAGICVERSION leaves the sentinel untouched |
| Persistence.RoundTripLookup | src/settings.c:144-150 | during the scan of a saved table, whatever the live count (the defaults' alone, or more carried from an earlier init), each record's key finds the slot it was saved from |
| Persistence.ScanRestoresFrom | src/settings.c:115-153 | scanning a saved table over the defaults, with any live count from the defaults' to the buffer's length, restores every saved record in its own slot and leaves every slot past the defaults as it was |
| Persistence.SaveThenLoadRestores | src/settings.c:84-153 | a region holding a table on the schema of the same valid, distinct defaults, under the same header, loads back exactly into the defaults' slots, tags and values included, for any live count `c` carried from an earlier init: the count becomes `c` plus the defaults' count, and the slots past the defaults keep what the buffer held |
| Persistence.DefaultsCarryHeader | src/settings.c:189-204 | the sentinel-prefixed defaults are on their own schema, key slot 0 as MAGICVERSION and carry the header code |
| Persistence.UpdateKeepsHeader | src/settings.c:236-258 | an update of any key other than MAGICVERSION, with a valid tag, keeps a table on the schema and keeps its header code, so puts can follow one another |
| Persistence.UpdateSurvivesReload | src/settings.c:280-305 | for any live table on the defaults' schema that carries the header code (the defaults, a restored table, or either after other puts): after an update of any key other than MAGICVERSION and a save, a load over the same defaults, as a reboot or as a second init on the same context carrying its live count `c`, restores the updated table in the defaults' slots, counts `c` plus the defaults, and those slots are again on the schema under the same code |
| Persistence.DefaultsUpdateSurvivesReload | src/settings.c:156-305 | the first cycle: from the sentinel-prefixed defaults, one put of a key other than MAGICVERSION and a save, a reboot or a second init carrying count `c` restores the saved defaults' slots and counts `c` plus the defaults |
| Persistence.ReservedKeyIsWritable | src/settings.c:236-258 | find gives the sentinel's slot for MAGICVERSION, and a put on it rewrites the sentinel's tag and value |
| CapacityCheck.AssertedCapacityAdmitsOverflow | src/settings.c:176 | 32 valid defaults pass `defaultNumEntries <= maxEntries` for 4096 bytes, yet the default loop reaches record 32 and accepts it, one slot past the 32 allocated |
| CapacityCheck.FitsCapacityBoundsDefaultLoop | src/settings.c:176-181 | under the corrected bound, every slot the default loop reaches lies inside the allocated buffer, accepted records before the stop are in their own slots, the others stay blank, and the count is at most the number of records |
| Settings.SettingsContext.constructor | src/settings.c:5-9 | the statics before any call: zeroed `configData`, the default size and offset 0 |
| Settings.SettingsContext.FindEntry | src/settings.c:220-234 | the find loop returns the index `Table.Lookup` gives on the live entries |
| Settings.SettingsContext.LoadDefaultEntries | src/settings.c:48-80 | the default loop over the buffer leaves what `Load.LoadDefaults` gives |
| Settings.SettingsContext.ReadHeader | src/settings.c:93-104 | the `magicChar` loop followed by `strtoul` gives `StrToUL(HeaderText(field))` |
| Settings.SettingsContext.ScanEntries | src/settings.c:115-153 | the scanning loop leaves what `Load.ScanFrom` gives |
| Settings.SettingsContext.OverlayRecord | src/settings.c:144-150 | one pass of the body of the scanning loop leaves what `Load.ScanStep` gives |
| Settings.SettingsContext.LoadAllEntries | src/settings.c:84-154 | the defaults, the header check and the scan leave what `Load.LoadAll` gives |
| Settings.SettingsContext.Init | src/settings.c:156-212 | init takes the geometry, allocates a buffer for the whole region, sets the header code, leaves what `Load.InitTable` gives over the records of the region at the new geometry, and returns the live count; with the geometry unchanged it reads the context's own region and leaves it unchanged |
| Settings.SettingsContext.Configure | src/settings.c:160-186 | the geometry is taken, a zero-filled buffer of `Capacity(size)` records is allocated, and the magic becomes the header code; the count and the region are unchanged |
| Settings.SettingsContext.NewBuffer | src/settings.c:180-181 | a fresh, zero-filled buffer of n records |
| Settings.SettingsContext.UpdateEntry | src/settings.c:236-258 | the status is 0 exactly when find succeeds; the live entries become `UpdateTable` of the old ones; no slot past the count changes |
| Settings.SettingsContext.PutBool | src/settings.c:260-262 | the update with the BOOL tag and the text "true" or "false" |
| Settings.SettingsContext.PutString | src/settings.c:264-270 | the update with the STRING tag and the text; the extra copy changes nothing |
| Settings.SettingsContext.PutInteger | src/settings.c:272-278 | the update with the INT tag and the `%d` text of the value |
| Settings.SettingsContext.Save | src/settings.c:280-305 | the status is -1 exactly when count × 128 exceeds the region size, and then the region is unchanged; otherwise the region holds the whole entry buffer |
| Settings.SettingsContext.Erase | src/settings.c:307-320 | the region is erased, the context is zeroed with an empty buffer, the geometry stays, and the status is 0 |
| Example.ExampleDefaultsWellFormed | examples/main.c:205-207 | the sentinel-prefixed TEST1/TEST2 defaults are all accepted, have distinct keys, and hold TEST2 in slot 2 |
| Example.ExampleFirstBoot | examples/main.c:211-212 | over an erased region, init gives the sentinel, TEST1 and TEST2, and three live entries |
| Example.ExamplePut | src/settings.c:260-262 | `put_bool("TEST2", true)` updates slot 2 to BOOL and the text "true" |
| Example.ExampleReload | src/settings.c:156-212 | a region holding that updated table loads back into the first three slots, on a reboot or on a second init carrying any count `c`, and the count is `c + 3` |
| Example.ExampleRestart | src/settings.c:156-234 | after that load, find over the live entries gives TEST2 in slot 2, tagged BOOL and reading "true" |
| Example.FirstBoot | examples/main.c:211-212 | the first boot over the erased 4096-byte region at `SETTINGS_ADDRESS` (0x1FF000, `examples/main.c:22`) returns 3, and the live table is the sentinel-prefixed defaults |
| Example.PutAndSave | src/settings.c:260-305 | the put and the save both return 0, and the region then holds the updated table |
| Example.Restart | src/settings.c:156-234 | the next boot returns 3, and find gives TEST2 holding "true" |
| Example.SaveAndRestart | examples/main.c:205-212 | end to end: both boots return 3, the put and the save return 0, and TEST2 reads "true" after the restart |
| Example.Reinit | src/settings.c:156-234 | a second init on the same context after that save returns 6, since the three live entries are carried, and find gives TEST2 holding "true" |
| Example.SaveAndReinit | src/settings.c:156-305 | end to end with a second init in place of the restart: the first init returns 3, the second 6, and TEST2 reads "true" |

## Left out

- **Hardware.** The flash driver, interrupts and the XIP address mapping are left out. The
  region is ghost state, and only save and erase change what it holds. Init takes the
  records at its new geometry as a parameter. When the geometry is unchanged, that
  parameter must be the context's own region, and init leaves it as it is. When the
  geometry moves, the context's ghost region becomes the records at the new offset.
  Regions other than the context's current one are not modelled.
- **`malloc`.** The buffer it returns is read as zero-filled, and an allocation failure is
  not modelled.
- **Struct layout.** Padding in the C struct and the compiler's `sizeof` are left out; a
  record is taken to be 128 bytes.
- **`strtoul`.** Leading whitespace, a sign, and platforms with a 64-bit `unsigned long` are
  not modelled. Only the leading digits are read, and the value saturates at 2^32-1.
- **Debug output and printing.** The `DPRINTF` output is left out, as is `settings_print`,
  which only formats text.
- **`settings_deinit`.** It is declared in the header but not defined in `settings.c`.
- **The example CLI.** The command loop and the line editor of `examples/main.c` are left
  out. `Example` keeps only two of its four defaults.
- **Entry addresses.** `settings_find_entry` returns the address of an entry in the buffer;
  the model returns its index. Writes through that address, and aliasing, are not modelled.
- **A header field without a NUL.** When the 96 value chars of record 0 hold no NUL,
  `magicChar` is left unterminated, and `strtoul` reads past it
  (`src/settings.c:97-104`). That is undefined behaviour in C. `Load.HeaderText` reads
  exactly the 96 chars.
- **Keys without a NUL.** Passing a key field with no NUL in its 30 chars is undefined
  behaviour in C. The model reads such a key's C string as the whole field.
- **The `maxEntries` parameter** of `settingsLoadAllEntries` is never used by the code, so
  it is not modelled.
- Settings.SettingsContext.Init: requires the corrected capacity bound, in the form the
  carried-over count needs: the count left by an earlier init, plus the defaults, plus the
  sentinel, must fit the region. The code as written asserts a weaker bound (see Findings).
- Settings.SettingsContext.Save: requires the buffer to cover the whole region, as init
  leaves it. Saving after `settings_erase`, which programs the region from address NULL, is
  not modelled.
- Load.HeaderCode: `magic << 16` shifts a `uint16_t` promoted to a signed `int`
  (`src/settings.c:186`). For a magic of 0x8000 or more, that is undefined behaviour in C.
  The model gives `magic * 65536 + version`, which is the value a wrapping target stores.
- **The sentinel's key.** Nothing in the code guards the sentinel's key: a put on
  MAGICVERSION rewrites the sentinel (`Persistence.ReservedKeyIsWritable`).
- **Example defaults.** `Example.Test1` and `Example.Test2` are written as their C initializers,
  without the NUL padding of the fixed fields. Every operation reads a field up to its first
  NUL, so the padding makes no difference.
- **Erase twice.** No separate lemma states that erasing twice changes nothing. That follows
  from the ensures of `Settings.SettingsContext.Erase`.

## Findings

| source | as written | input that shows it | evidently intended | confidence | as-written member | corrected member |
|---|---|---|---|---|---|---|
| src/settings.c:176 | `assert(defaultNumEntries <= maxEntries)` bounds only the application's defaults by the number of slots. The default loop also copies the sentinel, one slot more. | 32 valid defaults in the default 4096-byte region: 32 <= 32 passes, and the loop then writes record 32 of `defaultEntriesWithMagic` into slot 32 of a 32-slot buffer | `defaultNumEntries + 1 <= maxEntries` | not executed | CapacityCheck.AssertedCapacityAdmitsOverflow | CapacityCheck.FitsCapacityBoundsDefaultLoop |
