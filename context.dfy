/**
 * One settings instance: the table held in place in an entry buffer, the region geometry,
 * and the flash region itself as ghost state. Each method models a C function, or one of
 * its loops: ReadHeader, ScanEntries and OverlayRecord are parts of settingsLoadAllEntries,
 * and Configure and NewBuffer are parts of settings_init. Each is proved against the
 * functions of Table, Load and Persistence.
 */
module Settings {
  import opened SettingsTypes
  import opened CText
  import opened Validation
  import opened Table
  import opened Load
  import opened Persistence
  import opened CapacityCheck

  class SettingsContext {
    /** configData.magic: the expected header code. */
    var magic: uint32
    /** configData.entries: the entry buffer, one slot per record of the region. */
    var entries: array<ConfigEntry>
    /** configData.count: how many slots from the start are live. */
    var count: nat
    /** flashSettingsSize and flashSettingsOffset: the region, in bytes. */
    var size: uint32
    var offset: uint32
    /** The records the flash region holds. */
    ghost var flash: seq<ConfigEntry>

    /** The live slots lie inside the buffer. */
    ghost predicate Valid()
      reads this
    {
      count <= entries.Length
    }

    /** The buffer covers the whole region, as settings_init allocates it. */
    ghost predicate Backed()
      reads this
    {
      size % FlashPageSize == 0 && entries.Length == Capacity(size)
    }

    /** The live entries, the ones find and the puts search. */
    function Live(): seq<ConfigEntry>
      reads this, entries
      requires Valid()
    {
      entries[..count]
    }

    /** The statics before any call: zeroed configData, default size, offset 0. */
    constructor (ghost region: seq<ConfigEntry>)
      ensures Valid() && magic == 0 && count == 0 && entries.Length == 0
      ensures size == DefaultFlashSize && offset == 0 && flash == region
    {
      magic := 0;
      entries := new ConfigEntry[0];
      count := 0;
      size := DefaultFlashSize;
      offset := 0;
      flash := region;
    }

    /** settings_find_entry: the index of the live entry whose address it returns. */
    method FindEntry(key: seq<char>) returns (r: Option<nat>)
      requires Valid()
      ensures r == Lookup(Live(), key)
    {
      if !CheckKeyFormat(key) {
        return None;
      }
      var i := 0;
      while i < count
        invariant 0 <= i <= count
        invariant forall j :: 0 <= j < i ==> !KeysMatch(entries[j].key, key)
      {
        if KeysMatch(entries[i].key, key) {
          assert Live()[i] == entries[i];
          return Some(i);
        }
        i := i + 1;
      }
      assert forall j :: 0 <= j < count ==> Live()[j] == entries[j];
      return None;
    }

    /** settingsLoadDefaultEntries: copy the accepted defaults to their own slots. */
    method LoadDefaultEntries(aug: seq<ConfigEntry>)
      requires Valid() && count + |aug| <= entries.Length
      modifies this`count, entries
      ensures Valid()
      ensures Loaded(entries[..], count) == LoadDefaults(old(entries[..]), old(count), aug)
    {
      var i := 0;
      while i < |aug|
        invariant 0 <= i <= |aug|
        invariant LoadDefaultsFrom(entries[..], count, aug, i)
               == LoadDefaultsFrom(old(entries[..]), old(count), aug, 0)
      {
        if |CStr(aug[i].key)| == 0 {
          break;
        }
        if CheckTypeFormat(aug[i].dataType) && CheckKeyFormat(aug[i].key) {
          entries[i] := aug[i];
          count := count + 1;
        }
        i := i + 1;
      }
    }

    /** The magicChar loop: copy the value field of record 0 up to NUL, then strtoul. */
    static method ReadHeader(field: seq<char>) returns (code: uint32)
      ensures code == StrToUL(HeaderText(field))
    {
      var text: seq<char> := [];
      var i := 0;
      while i < MaxValueLength && i < |field|
        invariant 0 <= i <= MaxValueLength && i <= |field|
        invariant text == field[..i] && '\0' !in text
      {
        if field[i] == '\0' {
          break;
        }
        text := text + [field[i]];
        i := i + 1;
      }
      CStrUnique(Trunc(field, MaxValueLength), text);
      code := StrToUL(text);
    }

    /** The scanning loop of settingsLoadAllEntries over the first `n` records of `image`. */
    method ScanEntries(image: seq<ConfigEntry>, n: nat)
      requires Valid() && n <= |image|
      modifies entries
      ensures entries[..] == ScanFrom(old(entries[..]), count, image, n, 0)
    {
      var i := 0;
      while i < n
        invariant 0 <= i <= n
        invariant ScanFrom(entries[..], count, image, n, i)
               == ScanFrom(old(entries[..]), count, image, n, 0)
      {
        var rec := image[i];
        // empty key, malformed key or unknown tag: the end of the saved records
        if EndsScan(rec) {
          ScanFromEnd(entries[..], count, image, n, i);
          return;
        }
        ScanFromStep(entries[..], count, image, n, i);
        OverlayRecord(rec);
        i := i + 1;
      }
      ScanFromEnd(entries[..], count, image, n, i);
    }

    /** One pass of the scanning loop: find the live entry with the record's key, overwrite it. */
    method OverlayRecord(rec: ConfigEntry)
      requires Valid() && !EndsScan(rec)
      modifies entries
      ensures entries[..] == ScanStep(old(entries[..]), count, rec)
    {
      var keyStr := KeyPrefix(rec.key);
      var existing := FindEntry(keyStr);
      assert old(entries[..])[..count] == Live();
      if existing.Some? {
        ScanStepHit(old(entries[..]), count, rec, existing.value);
        entries[existing.value] := rec;
      } else {
        ScanStepMiss(old(entries[..]), count, rec);
      }
    }

    /**
     * settingsLoadAllEntries: load the defaults, then, if record 0 carries the expected
     * header code, overlay the flash records onto them until one fails the checks.
     */
    method LoadAllEntries(aug: seq<ConfigEntry>, image: seq<ConfigEntry>)
      requires Valid() && count + |aug| <= entries.Length && |aug| <= |image| && 0 < |image|
      modifies this`count, entries
      ensures Valid()
      ensures Loaded(entries[..], count) == LoadAll(old(entries[..]), old(count), aug, magic, image)
    {
      LoadDefaultEntries(aug);
      var stored := ReadHeader(image[0].value);
      if stored != magic {
        return;
      }
      ScanEntries(image, |aug|);
    }

    /**
     * settings_init: take the geometry, allocate a buffer for the whole region, build the
     * header code and its sentinel, and load the sentinel-prefixed defaults against the
     * records `image` of the region at the new geometry. With the geometry unchanged that
     * region is the context's own, and init leaves it as it is. The live count carries over
     * from before the call.
     */
    method Init(defaults: seq<ConfigEntry>, flashOffset: uint32, flashSize: uint32,
                magicIn: uint16, version: uint16, image: seq<ConfigEntry>)
      returns (loaded: int)
      requires |defaults| < 0x1_0000
      requires flashSize % FlashPageSize == 0 && flashOffset % FlashPageSize == 0
      // the corrected capacity bound, counting the entries an earlier init left live
      requires FitsCapacity(count + |defaults|, flashSize)
      requires |image| == Capacity(flashSize)
      // the same region is read as it stands
      requires flashOffset == offset && flashSize == size ==> image == flash
      modifies this
      ensures Valid() && Backed() && fresh(entries)
      ensures size == flashSize && offset == flashOffset && flash == image
      ensures old(offset) == flashOffset && old(size) == flashSize ==> flash == old(flash)
      ensures magic == HeaderCode(magicIn, version)
      ensures Loaded(entries[..], count)
           == InitTable(old(count), defaults, Capacity(flashSize), HeaderCode(magicIn, version), image)
      ensures loaded == count
    {
      flash := image;
      Configure(flashOffset, flashSize, magicIn, version);
      LoadAllEntries(InitDefaults(magic, defaults), image);
      loaded := count;
    }

    /**
     * The first half of settings_init: take the geometry, allocate a buffer for every
     * record of the region and set the header code from the magic and the version.
     */
    method Configure(flashOffset: uint32, flashSize: uint32, magicIn: uint16, version: uint16)
      requires flashSize % FlashPageSize == 0
      modifies this
      ensures size == flashSize && offset == flashOffset && magic == HeaderCode(magicIn, version)
      ensures fresh(entries) && entries[..] == Blanks(Capacity(flashSize))
      ensures count == old(count) && flash == old(flash)
    {
      size := flashSize;
      offset := flashOffset;
      var maxEntries := Capacity(size);
      entries := NewBuffer(maxEntries);
      magic := HeaderCode(magicIn, version);
    }

    /** The malloc of settings_init, read as a zero-filled buffer of `n` records. */
    static method NewBuffer(n: nat) returns (a: array<ConfigEntry>)
      ensures fresh(a) && a[..] == Blanks(n)
    {
      a := new ConfigEntry[n](_ => Blank);
    }

    /** settingsUpdateEntry: retag and rewrite the first live entry matching `key`. */
    method UpdateEntry(key: seq<char>, dataType: int, value: seq<char>) returns (status: int)
      requires Valid()
      modifies entries
      ensures status == if Lookup(old(Live()), key).Some? then 0 else -1
      ensures Live() == UpdateTable(old(Live()), key, dataType, value)
      ensures entries[count..] == old(entries[count..])
    {
      if !CheckKeyFormat(key) {
        return -1;
      }
      var i := 0;
      while i < count
        invariant 0 <= i <= count
        invariant entries[..] == old(entries[..])
        invariant forall j :: 0 <= j < i ==> !KeysMatch(entries[j].key, key)
      {
        if KeysMatch(entries[i].key, key) {
          assert Lookup(Live(), key) == Some(i) by {
            assert Live()[i] == entries[i];
          }
          var e := entries[i];
          entries[i] := e.(dataType := dataType, value := StoreText(value));
          return 0;
        }
        i := i + 1;
      }
      assert forall j :: 0 <= j < count ==> Live()[j] == entries[j];
      return -1;
    }

    /** settings_put_bool: store "true" or "false" with the BOOL tag. */
    method PutBool(key: seq<char>, value: bool) returns (status: int)
      requires Valid()
      modifies entries
      ensures status == if Lookup(old(Live()), key).Some? then 0 else -1
      ensures Live() == UpdateTable(old(Live()), key, TypeBool, if value then "true" else "false")
      ensures entries[count..] == old(entries[count..])
    {
      status := UpdateEntry(key, TypeBool, if value then "true" else "false");
    }

    /** settings_put_string: store the string cut to 95 chars with the STRING tag. */
    method PutString(key: seq<char>, value: seq<char>) returns (status: int)
      requires Valid()
      modifies entries
      ensures status == if Lookup(old(Live()), key).Some? then 0 else -1
      ensures Live() == UpdateTable(old(Live()), key, TypeString, value)
      ensures entries[count..] == old(entries[count..])
    {
      var configValue := StoreText(value);
      StoreTextIdempotent(value);
      status := UpdateEntry(key, TypeString, configValue);
    }

    /** settings_put_integer: store the decimal text of a C int with the INT tag. */
    method PutInteger(key: seq<char>, value: int32) returns (status: int)
      requires Valid()
      modifies entries
      ensures status == if Lookup(old(Live()), key).Some? then 0 else -1
      ensures Live() == UpdateTable(old(Live()), key, TypeInt, IntText(value))
      ensures entries[count..] == old(entries[count..])
    {
      var configValue := IntText(value);
      status := UpdateEntry(key, TypeInt, configValue);
    }

    /**
     * settings_save: refuse if the live entries would not fit the region; otherwise erase
     * the region and program the whole entry buffer into it.
     */
    method Save() returns (status: int)
      requires Backed()
      modifies this`flash
      ensures status == if count * RecordSize > size then -1 else 0
      ensures status == 0 ==> flash == entries[..]
      ensures status != 0 ==> flash == old(flash)
    {
      if count * RecordSize > size {
        return -1;
      }
      // flash_range_erase, then flash_range_program of the whole buffer
      flash := ErasedImage(size / RecordSize);
      flash := entries[..];
      return 0;
    }

    /**
     * settings_erase: erase the region, release the buffer and zero configData; the
     * geometry stays, and the context needs a new init before use.
     */
    method Erase() returns (status: int)
      modifies this
      ensures status == 0 && Valid()
      ensures flash == ErasedImage(size / RecordSize)
      ensures count == 0 && magic == 0 && entries.Length == 0 && fresh(entries)
      ensures size == old(size) && offset == old(offset)
    {
      flash := ErasedImage(size / RecordSize);
      entries := new ConfigEntry[0];
      count := 0;
      magic := 0;
      return 0;
    }
  }
}
