/**
 * The capacity assertion of settings_init. As written it bounds the application's defaults
 * by the number of record slots, but the default loop copies the sentinel and the defaults,
 * one slot each, so a default table exactly as long as the region passes the assertion and
 * its last record is written one slot past the buffer.
 */
module CapacityCheck {
  import opened SettingsTypes
  import opened Load

  /** assert(defaultNumEntries <= maxEntries), as written. */
  predicate AssertedCapacity(defaultNum: nat, flashSize: nat)
    requires flashSize % FlashPageSize == 0
  {
    defaultNum <= Capacity(flashSize)
  }

  /**
   * Thirty-two valid defaults in the default 4096-byte region pass the assertion, yet the
   * default loop reaches record 32 of defaultEntriesWithMagic and accepts it, and slot 32 is
   * one past the 32 slots of the buffer.
   */
  lemma AssertedCapacityAdmitsOverflow(code: uint32, defaults: seq<ConfigEntry>)
    requires |defaults| == 32
    requires forall j :: 0 <= j < |defaults| ==> Accepted(defaults[j])
    ensures AssertedCapacity(|defaults|, DefaultFlashSize)
    ensures var aug := InitDefaults(code, defaults);
      && |aug| == 33 && StopIndex(aug, 0) == |aug| && Accepted(aug[32])
      && Capacity(DefaultFlashSize) == 32
  {
    var aug := InitDefaults(code, defaults);
    SentinelAccepted(code);
    forall j | 0 <= j < |aug|
      ensures Accepted(aug[j])
    {
      if j > 0 {
        assert aug[j] == defaults[j - 1];
      }
    }
    var n := StopIndex(aug, 0);
    if n < |aug| {
      AcceptedIsNoTerminator(aug[n]);
    }
  }

  /** The evidently intended bound: the sentinel and the defaults together fit the slots. */
  predicate FitsCapacity(defaultNum: nat, flashSize: nat)
    requires flashSize % FlashPageSize == 0
  {
    defaultNum + 1 <= Capacity(flashSize)
  }

  /**
   * Under the corrected bound every slot the default loop can reach lies inside the buffer
   * settings_init allocates, each accepted record before the stop lands in its own slot and
   * the others stay blank, and at most one entry per record goes live.
   */
  lemma FitsCapacityBoundsDefaultLoop(code: uint32, defaults: seq<ConfigEntry>, flashSize: nat)
    requires |defaults| < 0x1_0000 && flashSize % FlashPageSize == 0
    requires FitsCapacity(|defaults|, flashSize)
    ensures var aug := InitDefaults(code, defaults);
      var r := LoadDefaults(Blanks(Capacity(flashSize)), 0, aug);
      && StopIndex(aug, 0) <= |aug| <= Capacity(flashSize)
      && (forall j :: 0 <= j < StopIndex(aug, 0) && Accepted(aug[j]) ==> r.entries[j] == aug[j])
      && (forall j :: 0 <= j < |r.entries| && (StopIndex(aug, 0) <= j || !Accepted(aug[j]))
            ==> r.entries[j] == Blank)
      && r.count <= |aug|
  {
    var aug := InitDefaults(code, defaults);
    LoadDefaultsEffect(Blanks(Capacity(flashSize)), 0, aug);
  }
}
