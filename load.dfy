/**
 * What settings_init computes: the header code and its sentinel record, the default
 * loading loop, and the flash scan that overlays saved records onto the defaults.
 */
module Load {
  import opened SettingsTypes
  import opened CText
  import opened Validation
  import opened Table

  /** configData.magic: the 16-bit magic in the high half, the 16-bit version in the low half. */
  function HeaderCode(magic: uint16, version: uint16): (code: uint32)
    ensures code / 0x1_0000 == magic && code % 0x1_0000 == version
  {
    magic * 0x1_0000 + version
  }

  /** Two (magic, version) pairs share a header code only if they are equal. */
  lemma HeaderCodeInjective(m1: uint16, v1: uint16, m2: uint16, v2: uint16)
    requires HeaderCode(m1, v1) == HeaderCode(m2, v2)
    ensures m1 == m2 && v1 == v2
  {
  }

  /** The magicChar loop: the value field up to its first NUL, at most 96 chars. */
  function HeaderText(field: seq<char>): (t: seq<char>)
    ensures '\0' !in t && |t| <= MaxValueLength
    ensures |t| <= |field| && t == field[..|t|]
  {
    var f := Trunc(field, MaxValueLength);
    var t := CStr(f);
    assert forall i :: 0 <= i < |t| ==> t[i] == f[i] == field[i];
    t
  }

  /** The header code as settingsLoadAllEntries reads it from the value field of record 0. */
  function StoredHeader(image: seq<ConfigEntry>): uint32
    requires |image| > 0
  {
    StrToUL(HeaderText(image[0].value))
  }

  /** magicEntry of settings_init: MAGICVERSION key, INT tag, the code as decimal text. */
  function Sentinel(code: uint32): ConfigEntry {
    ConfigEntry(Pad(MagicVersionKey, MaxKeyLength), TypeInt, StoreText(DecimalText(code)))
  }

  /**
   * The sentinel's key field reads as MAGICVERSION, its value field as the decimal text
   * of the code, and reading the header back from that field gives the code again.
   */
  lemma SentinelFields(code: uint32)
    ensures var e := Sentinel(code);
      && CStr(e.key) == MagicVersionKey && e.dataType == TypeInt
      && |e.key| == MaxKeyLength && |e.value| == MaxValueLength
      && CStr(e.value) == DecimalText(code)
      && StrToUL(HeaderText(e.value)) == code
  {
    var text := DecimalText(code);
    DecimalTextOf32Bits(code);
    assert '\0' !in text by {
      assert forall i :: 0 <= i < |text| ==> IsDigit(text[i]);
    }
    assert '\0' !in MagicVersionKey;
    CStrOfPad(MagicVersionKey, MaxKeyLength);
    StoreTextKeepsShortText(text);
    var e := Sentinel(code);
    assert HeaderText(e.value) == text by {
      assert Trunc(e.value, MaxValueLength) == e.value;
    }
    StrToULOfDecimal(code);
  }

  /** The sentinel passes both checks of the default loop, so it always lands in slot 0. */
  lemma SentinelAccepted(code: uint32)
    ensures Accepted(Sentinel(code))
  {
    var k := MagicVersionKey;
    assert '\0' !in k && forall i :: 0 <= i < |k| ==> IsKeyChar(k[i]);
    CheckKeyFormatOfText(k);
    CheckKeyFormatOfPadded(k, MaxKeyLength);
  }

  /** MAGICVERSION is a valid key, and find matches it against the sentinel's key field. */
  lemma ReservedKey(code: uint32)
    ensures CheckKeyFormat(MagicVersionKey) && KeyPrefix(MagicVersionKey) == MagicVersionKey
    ensures KeysMatch(Sentinel(code).key, MagicVersionKey)
  {
    var k := MagicVersionKey;
    assert '\0' !in k && forall i :: 0 <= i < |k| ==> IsKeyChar(k[i]);
    CheckKeyFormatOfText(k);
    CStrOfNulFree(k);
    CStrOfPad(k, MaxKeyLength);
  }

  /** defaultEntriesWithMagic: the sentinel, then the application's defaults in order. */
  function Augmented(code: uint32, defaults: seq<ConfigEntry>): (r: seq<ConfigEntry>)
    ensures |r| == |defaults| + 1
  {
    [Sentinel(code)] + defaults
  }

  /** What settings_init hands to settingsLoadAllEntries: numEntries records of defaultEntriesWithMagic. */
  function InitDefaults(code: uint32, defaults: seq<ConfigEntry>): (aug: seq<ConfigEntry>)
    requires |defaults| < 0x1_0000
    ensures |aug| <= |defaults| + 1
  {
    Augmented(code, defaults)[..NumEntries(|defaults|)]
  }

  /** defaultNumEntries + 1 passed as a uint16 numEntries. */
  function NumEntries(defaultNum: uint16): (n: uint16)
    ensures n <= defaultNum + 1
    ensures defaultNum < 0xFFFF ==> n == defaultNum + 1
    ensures defaultNum == 0xFFFF ==> n == 0
  {
    (defaultNum + 1) % 0x1_0000
  }

  /** A default or flash record with an empty key ends the list. */
  predicate Terminator(e: ConfigEntry) {
    |CStr(e.key)| == 0
  }

  /** A default that passes both checks and is copied into the table. */
  predicate Accepted(e: ConfigEntry) {
    CheckTypeFormat(e.dataType) && CheckKeyFormat(e.key)
  }

  lemma AcceptedIsNoTerminator(e: ConfigEntry)
    requires Accepted(e)
    ensures !Terminator(e)
  {
  }

  /** The zero-filled record (the model's reading of a freshly allocated entry). */
  const Blank: ConfigEntry :=
    ConfigEntry(Pad([], MaxKeyLength), TypeInt, Pad([], MaxValueLength))

  function Blanks(n: nat): (r: seq<ConfigEntry>)
    ensures |r| == n && forall i :: 0 <= i < n ==> r[i] == Blank
  {
    if n == 0 then [] else Blanks(n - 1) + [Blank]
  }

  /** Table contents and live count after a loading step. */
  datatype Loaded = Loaded(entries: seq<ConfigEntry>, count: nat)

  /**
   * settingsLoadDefaultEntries from index `i` on: stop at an empty key, skip a default
   * with a bad tag or key, otherwise copy default `i` into slot `i` and count it.
   */
  function LoadDefaultsFrom(buf: seq<ConfigEntry>, count: nat, aug: seq<ConfigEntry>, i: nat)
    : (r: Loaded)
    requires i <= |aug| <= |buf|
    ensures |r.entries| == |buf|
    ensures count <= r.count <= count + (|aug| - i)
    decreases |aug| - i
  {
    if i == |aug| || Terminator(aug[i]) then Loaded(buf, count)
    else if !CheckTypeFormat(aug[i].dataType) then LoadDefaultsFrom(buf, count, aug, i + 1)
    else if !CheckKeyFormat(aug[i].key) then LoadDefaultsFrom(buf, count, aug, i + 1)
    else LoadDefaultsFrom(buf[i := aug[i]], count + 1, aug, i + 1)
  }

  function LoadDefaults(buf: seq<ConfigEntry>, count: nat, aug: seq<ConfigEntry>): Loaded
    requires |aug| <= |buf|
  {
    LoadDefaultsFrom(buf, count, aug, 0)
  }

  /** The first index from `i` whose default has an empty key, or the end. */
  function StopIndex(aug: seq<ConfigEntry>, i: nat): (n: nat)
    requires i <= |aug|
    ensures i <= n <= |aug|
    ensures n < |aug| ==> Terminator(aug[n])
    ensures forall j :: i <= j < n ==> !Terminator(aug[j])
    decreases |aug| - i
  {
    if i == |aug| || Terminator(aug[i]) then i else StopIndex(aug, i + 1)
  }

  /** How many defaults in [i, n) pass both checks. */
  function AcceptedCount(aug: seq<ConfigEntry>, i: nat, n: nat): nat
    requires i <= n <= |aug|
    decreases n - i
  {
    if i == n then 0 else (if Accepted(aug[i]) then 1 else 0) + AcceptedCount(aug, i + 1, n)
  }

  lemma {:induction false} LoadDefaultsFromEffect(
    buf: seq<ConfigEntry>, count: nat, aug: seq<ConfigEntry>, i: nat)
    requires i <= |aug| <= |buf|
    ensures var r := LoadDefaultsFrom(buf, count, aug, i);
      var n := StopIndex(aug, i);
      && r.count == count + AcceptedCount(aug, i, n)
      && forall j :: 0 <= j < |buf| ==>
           r.entries[j] == if i <= j < n && Accepted(aug[j]) then aug[j] else buf[j]
    decreases |aug| - i
  {
    if i < |aug| && !Terminator(aug[i]) {
      var next := if Accepted(aug[i]) then buf[i := aug[i]] else buf;
      var c := if Accepted(aug[i]) then count + 1 else count;
      LoadDefaultsFromEffect(next, c, aug, i + 1);
      assert LoadDefaultsFrom(buf, count, aug, i) == LoadDefaultsFrom(next, c, aug, i + 1);
    }
  }

  /**
   * Default loading stops at the first empty key; below it every accepted default sits in
   * its own slot, a skipped one leaves its slot as it was, and `count` grows by the number
   * of accepted defaults.
   */
  lemma LoadDefaultsEffect(buf: seq<ConfigEntry>, count: nat, aug: seq<ConfigEntry>)
    requires |aug| <= |buf|
    ensures var r := LoadDefaults(buf, count, aug);
      var n := StopIndex(aug, 0);
      && r.count == count + AcceptedCount(aug, 0, n)
      && (forall j :: 0 <= j < n && Accepted(aug[j]) ==> r.entries[j] == aug[j])
      && (forall j :: 0 <= j < n && !Accepted(aug[j]) ==> r.entries[j] == buf[j])
      && (forall j :: n <= j < |buf| ==> r.entries[j] == buf[j])
  {
    LoadDefaultsFromEffect(buf, count, aug, 0);
  }

  lemma {:induction false} AcceptedCountAll(aug: seq<ConfigEntry>, i: nat, n: nat)
    requires i <= n <= |aug|
    requires forall j :: i <= j < n ==> Accepted(aug[j])
    ensures AcceptedCount(aug, i, n) == n - i
    decreases n - i
  {
    if i < n {
      AcceptedCountAll(aug, i + 1, n);
    }
  }

  /** When every default is valid, the table starts with exactly those defaults. */
  lemma AllValidDefaultsLoadExactly(buf: seq<ConfigEntry>, count: nat, aug: seq<ConfigEntry>)
    requires |aug| <= |buf|
    requires forall j :: 0 <= j < |aug| ==> Accepted(aug[j])
    ensures var r := LoadDefaults(buf, count, aug);
      && r.count == count + |aug|
      && r.entries[..|aug|] == aug
      && r.entries[|aug|..] == buf[|aug|..]
  {
    LoadDefaultsFromEffect(buf, count, aug, 0);
    var n := StopIndex(aug, 0);
    if n < |aug| {
      AcceptedIsNoTerminator(aug[n]);
    }
    AcceptedCountAll(aug, 0, |aug|);
  }

  /** A record that makes the flash scan stop: empty key, bad key or bad tag. */
  predicate EndsScan(rec: ConfigEntry) {
    Terminator(rec) || !CheckKeyFormat(rec.key) || !CheckTypeFormat(rec.dataType)
  }

  /**
   * One scanned flash record: find the live entry with its key (compared as the
   * strncpy'd key string) and, if there is one, overwrite that entry with the record.
   */
  function ScanStep(buf: seq<ConfigEntry>, count: nat, rec: ConfigEntry): (r: seq<ConfigEntry>)
    requires count <= |buf| && !EndsScan(rec)
    ensures |r| == |buf|
  {
    match Lookup(buf[..count], KeyPrefix(rec.key))
    case None => buf
    case Some(w) =>
      KeyPrefixIdempotent(rec.key);
      buf[w := rec]
  }

  /** The scanning loop of settingsLoadAllEntries from record `i`, reading at most `n`. */
  function ScanFrom(buf: seq<ConfigEntry>, count: nat, image: seq<ConfigEntry>, n: nat, i: nat)
    : (r: seq<ConfigEntry>)
    requires count <= |buf| && i <= n <= |image|
    ensures |r| == |buf|
    decreases n - i
  {
    if i == n || EndsScan(image[i]) then buf
    else ScanFrom(ScanStep(buf, count, image[i]), count, image, n, i + 1)
  }

  /**
   * `r` is `buf` after writes that keep every key, keep accepted entries accepted, and
   * leave the slots from `count` on alone.
   */
  ghost predicate KeepsShape(r: seq<ConfigEntry>, buf: seq<ConfigEntry>, count: nat) {
    && |r| == |buf|
    && forall j :: 0 <= j < |buf| ==>
         && KeysMatch(r[j].key, buf[j].key)
         && (Accepted(buf[j]) ==> Accepted(r[j]))
         && (count <= j ==> r[j] == buf[j])
  }

  lemma KeepsShapeTrans(r: seq<ConfigEntry>, mid: seq<ConfigEntry>, buf: seq<ConfigEntry>, count: nat)
    requires KeepsShape(r, mid, count) && KeepsShape(mid, buf, count)
    ensures KeepsShape(r, buf, count)
  {
    forall j | 0 <= j < |buf|
      ensures KeysMatch(r[j].key, buf[j].key)
    {
      assert KeysMatch(r[j].key, mid[j].key) && KeysMatch(mid[j].key, buf[j].key);
    }
  }

  /** One scan step writes only a live slot, with a record that keeps that slot's key. */
  lemma ScanStepShape(buf: seq<ConfigEntry>, count: nat, rec: ConfigEntry)
    requires count <= |buf| && !EndsScan(rec)
    ensures KeepsShape(ScanStep(buf, count, rec), buf, count)
  {
    KeyPrefixIdempotent(rec.key);
  }

  /** The whole scan keeps the shape of the table it starts from. */
  lemma {:induction false} ScanFromShape(
    buf: seq<ConfigEntry>, count: nat, image: seq<ConfigEntry>, n: nat, i: nat)
    requires count <= |buf| && i <= n <= |image|
    ensures KeepsShape(ScanFrom(buf, count, image, n, i), buf, count)
    decreases n - i
  {
    if i < n && !EndsScan(image[i]) {
      var next := ScanStep(buf, count, image[i]);
      var r := ScanFrom(next, count, image, n, i + 1);
      ScanStepShape(buf, count, image[i]);
      ScanFromShape(next, count, image, n, i + 1);
      KeepsShapeTrans(r, next, buf, count);
      ScanFromStep(buf, count, image, n, i);
    } else {
      assert ScanFrom(buf, count, image, n, i) == buf;
    }
  }

  /**
   * settingsLoadAllEntries: load the defaults; if the stored header equals `code`, overlay
   * the scanned flash records onto them (the live count is the defaults' count either way).
   */
  function LoadAll(buf: seq<ConfigEntry>, count: nat, aug: seq<ConfigEntry>, code: uint32,
                   image: seq<ConfigEntry>): Loaded
    requires count + |aug| <= |buf| && |aug| <= |image| && 0 < |image|
  {
    var d := LoadDefaults(buf, count, aug);
    if StoredHeader(image) != code then d
    else Loaded(ScanFrom(d.entries, d.count, image, |aug|, 0), d.count)
  }

  /**
   * The table settings_init leaves in a fresh `cap`-slot buffer: the sentinel-prefixed
   * defaults, cut to numEntries, loaded over blanks and overlaid from the region `image`.
   * `count` is the live count carried over from before the call.
   */
  function InitTable(count: nat, defaults: seq<ConfigEntry>, cap: nat, code: uint32,
                     image: seq<ConfigEntry>): (r: Loaded)
    requires |defaults| < 0x1_0000 && count + |defaults| + 1 <= cap && |image| == cap
    ensures |r.entries| == cap && count <= r.count <= cap
  {
    LoadAll(Blanks(cap), count, InitDefaults(code, defaults), code, image)
  }

  /** With a foreign header the result is the defaults alone, and the count is theirs. */
  lemma HeaderMismatchKeepsDefaults(buf: seq<ConfigEntry>, count: nat, aug: seq<ConfigEntry>,
                                    code: uint32, image: seq<ConfigEntry>)
    requires count + |aug| <= |buf| && |aug| <= |image| && 0 < |image|
    requires StoredHeader(image) != code
    ensures LoadAll(buf, count, aug, code, image) == LoadDefaults(buf, count, aug)
  {
  }

  /** Loading never changes the count the defaults produced, header or not. */
  lemma LoadAllKeepsDefaultCount(buf: seq<ConfigEntry>, count: nat, aug: seq<ConfigEntry>,
                                 code: uint32, image: seq<ConfigEntry>)
    requires count + |aug| <= |buf| && |aug| <= |image| && 0 < |image|
    ensures LoadAll(buf, count, aug, code, image).count
         == count + AcceptedCount(aug, 0, StopIndex(aug, 0))
  {
    LoadDefaultsEffect(buf, count, aug);
  }

  /** A scanned record whose key is live overwrites that live entry. */
  lemma ScanStepHit(buf: seq<ConfigEntry>, count: nat, rec: ConfigEntry, w: nat)
    requires count <= |buf| && !EndsScan(rec)
    requires Lookup(buf[..count], KeyPrefix(rec.key)) == Some(w)
    ensures w < count && ScanStep(buf, count, rec) == buf[w := rec]
  {
  }

  /** A scanned record whose key is not live changes nothing. */
  lemma ScanStepMiss(buf: seq<ConfigEntry>, count: nat, rec: ConfigEntry)
    requires count <= |buf| && !EndsScan(rec)
    requires Lookup(buf[..count], KeyPrefix(rec.key)) == None
    ensures ScanStep(buf, count, rec) == buf
  {
  }

  /** One accepted record advances the scan by one ScanStep. */
  lemma ScanFromStep(buf: seq<ConfigEntry>, count: nat, image: seq<ConfigEntry>, n: nat, i: nat)
    requires count <= |buf| && i < n <= |image| && !EndsScan(image[i])
    ensures ScanFrom(buf, count, image, n, i)
         == ScanFrom(ScanStep(buf, count, image[i]), count, image, n, i + 1)
  {
  }

  /** A record that ends the scan leaves the buffer as it is. */
  lemma ScanFromEnd(buf: seq<ConfigEntry>, count: nat, image: seq<ConfigEntry>, n: nat, i: nat)
    requires count <= |buf| && i <= n <= |image| && (i == n || EndsScan(image[i]))
    ensures ScanFrom(buf, count, image, n, i) == buf
  {
  }

  /** The scan reads only the first `n` records of the region. */
  lemma {:induction false} ScanReadsOnlyPrefix(
    buf: seq<ConfigEntry>, count: nat, image: seq<ConfigEntry>, n: nat, i: nat)
    requires count <= |buf| && i <= n <= |image|
    ensures ScanFrom(buf, count, image, n, i) == ScanFrom(buf, count, image[..n], n, i)
    decreases n - i
  {
    if i < n && !EndsScan(image[i]) {
      ScanReadsOnlyPrefix(ScanStep(buf, count, image[i]), count, image, n, i + 1);
    }
  }

  /** Records from the first one that ends the scan onwards are never read. */
  lemma {:induction false} ScanStopsAtEnd(
    buf: seq<ConfigEntry>, count: nat, image: seq<ConfigEntry>, n: nat, k: nat, i: nat)
    requires count <= |buf| && i <= k < n <= |image|
    requires EndsScan(image[k])
    ensures ScanFrom(buf, count, image, n, i) == ScanFrom(buf, count, image, k, i)
    decreases k - i
  {
    if i < k && !EndsScan(image[i]) {
      ScanStopsAtEnd(ScanStep(buf, count, image[i]), count, image, n, k, i + 1);
    }
  }

  /** An entry whose key no remaining record carries keeps its contents through the scan. */
  lemma {:induction false} ScanLeavesUnmatched(
    buf: seq<ConfigEntry>, count: nat, image: seq<ConfigEntry>, n: nat, i: nat, j: nat)
    requires count <= |buf| && i <= n <= |image| && j < |buf|
    requires forall m :: i <= m < n ==> !KeysMatch(buf[j].key, image[m].key)
    ensures ScanFrom(buf, count, image, n, i)[j] == buf[j]
    decreases n - i
  {
    if i < n && !EndsScan(image[i]) {
      var next := ScanStep(buf, count, image[i]);
      KeyPrefixIdempotent(image[i].key);
      assert next[j] == buf[j];
      ScanLeavesUnmatched(next, count, image, n, i + 1, j);
    }
  }

  /**
   * Merge precedence: if record `k` is reached by the scan, `j` is the entry find returns
   * for its key, and no later record carries that key, entry `j` ends up as record `k`.
   */
  lemma {:induction false} ScanLastRecordWins(
    buf: seq<ConfigEntry>, count: nat, image: seq<ConfigEntry>, n: nat, i: nat, k: nat, j: nat)
    requires count <= |buf| && i <= k < n <= |image|
    requires forall m :: i <= m <= k ==> !EndsScan(image[m])
    requires Lookup(buf[..count], KeyPrefix(image[k].key)) == Some(j)
    requires forall m :: k < m < n ==> !KeysMatch(image[m].key, image[k].key)
    ensures ScanFrom(buf, count, image, n, i)[j] == image[k]
    decreases k - i
  {
    var next := ScanStep(buf, count, image[i]);
    assert ScanFrom(buf, count, image, n, i) == ScanFrom(next, count, image, n, i + 1);
    if i < k {
      var hit := Lookup(buf[..count], KeyPrefix(image[i].key));
      if hit.Some? {
        KeyPrefixIdempotent(image[i].key);
        assert next[..count] == buf[..count][hit.value := image[i]];
        LookupIgnoresKeyPreservingWrite(buf[..count], hit.value, image[i], KeyPrefix(image[k].key));
      }
      ScanLastRecordWins(next, count, image, n, i + 1, k, j);
    } else {
      assert next == buf[j := image[k]];
      ScanLeavesUnmatched(next, count, image, n, k + 1, j);
    }
  }
}
