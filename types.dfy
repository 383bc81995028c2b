/** The record layout, type tags and constants of the settings store. */
module SettingsTypes {

  /** Widths of the C parameters that the API takes. */
  type uint16 = x: int | 0 <= x < 0x1_0000
  type uint32 = x: int | 0 <= x < 0x1_0000_0000
  type int32 = x: int | -0x8000_0000 <= x < 0x8000_0000

  /** Capacity in chars of the key field and of the value field of a record. */
  const MaxKeyLength: nat := 30
  const MaxValueLength: nat := 96

  /** The key of the sentinel record that carries the header code. */
  const MagicVersionKey: seq<char> := "MAGICVERSION"

  /** Flash erase-block size and the region size used before any init. */
  const FlashPageSize: nat := 4096
  const DefaultFlashSize: nat := 4096

  /** Bytes of the type tag; with the two text fields a record is 128 bytes. */
  const TypeTagSize: nat := 2
  const RecordSize: nat := MaxKeyLength + TypeTagSize + MaxValueLength

  /** strtoul saturates at ULONG_MAX, which is 2^32 - 1 on the 32-bit target. */
  const ULongMax: nat := 0xFFFF_FFFF

  /** The type tags of SettingsDataType; a record read back from flash may hold any tag. */
  const TypeInt: int := 0
  const TypeString: int := 1
  const TypeBool: int := 2

  /**
   * One configuration record, in memory and in flash, field by field: the raw key field,
   * the type tag and the raw value field. Text fields hold their C string followed by NULs.
   */
  datatype ConfigEntry = ConfigEntry(key: seq<char>, dataType: int, value: seq<char>)

  datatype Option<T> = None | Some(value: T)

  /** Number of whole records that fit in a region of `flashSize` bytes. */
  function Capacity(flashSize: nat): (n: nat)
    requires flashSize % FlashPageSize == 0
    ensures n == flashSize / RecordSize && flashSize % RecordSize == 0
    ensures flashSize == DefaultFlashSize ==> n == 32
  {
    var pages := flashSize / FlashPageSize;
    assert flashSize == pages * FlashPageSize;
    assert flashSize / RecordSize == pages * 32;
    flashSize / RecordSize
  }
}
