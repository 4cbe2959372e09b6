/** A reader of the NVS page format, independent of the writer, and the proof that it undoes Build. */
module NvsReader {
  import opened Bytes
  import opened Wrappers
  import opened Nvs

  // ---- The reader: bitmap, spans, lengths and checksums

  const EMPTY: nat := 3
  const WRITTEN: nat := 2

  /** The two bits of slot k in the entry-state bitmap. */
  function SlotState(img: seq<byte>, k: nat): nat
    requires |img| >= PAGE_SIZE && k < ENTRIES_PER_PAGE
  {
    img[BITMAP_OFFSET + k / 4] / Mask(k) % 4
  }

  predicate AllInState(img: seq<byte>, lo: nat, hi: nat, state: nat)
    requires |img| >= PAGE_SIZE && hi <= ENTRIES_PER_PAGE
  {
    forall k :: lo <= k < hi ==> SlotState(img, k) == state
  }

  /** The 32 bytes of slot k. */
  function SlotAt(img: seq<byte>, k: nat): (e: seq<byte>)
    requires |img| >= PAGE_SIZE && k < ENTRIES_PER_PAGE
    ensures |e| == ENTRY_SIZE
  {
    img[FIRST_ENTRY_OFFSET + 32 * k..FIRST_ENTRY_OFFSET + 32 * k + 32]
  }

  predicate SumHolds(crc: Crc, e: seq<byte>)
    requires |e| == ENTRY_SIZE
  {
    GetU32(e, 4) == crc(e[..4] + e[8..])
  }

  /** A NUL-terminated field read as a C string. */
  function UpToNul(s: seq<byte>): seq<byte> {
    if s == [] || s[0] == 0 then [] else [s[0]] + UpToNul(s[1..])
  }

  datatype StringItem = StringItem(kv: KV, span: nat)

  function ReadString(crc: Crc, img: seq<byte>, nsIndex: byte, k: nat): (r: Option<StringItem>)
    requires |img| >= PAGE_SIZE && k < ENTRIES_PER_PAGE
    ensures r.Some? ==> 2 <= r.value.span && k + r.value.span <= ENTRIES_PER_PAGE
  {
    var e := SlotAt(img, k);
    var span: nat, len: nat := e[2], GetU16(e, 24);
    if !SumHolds(crc, e) || e[0] != nsIndex || e[1] != TYPE_STRING || e[3] != CHUNK_ANY then None
    else if span < 2 || k + span > ENTRIES_PER_PAGE || !AllInState(img, k, k + span, WRITTEN) then None
    else if len < 1 || len > 32 * (span - 1) then None
    else
      var start := FIRST_ENTRY_OFFSET + 32 * (k + 1);
      var data := img[start..start + len];
      if GetU32(e, 28) != crc(data) || data[len - 1] != 0 then None
      else Some(StringItem(KV(UpToNul(e[8..24]), data[..len - 1]), span))
  }

  function ReadStrings(crc: Crc, img: seq<byte>, nsIndex: byte, k: nat): Option<seq<KV>>
    requires |img| >= PAGE_SIZE && k <= ENTRIES_PER_PAGE
    decreases ENTRIES_PER_PAGE - k
  {
    if AllInState(img, k, ENTRIES_PER_PAGE, EMPTY) then Some([])
    else if k == ENTRIES_PER_PAGE then None
    else
      match ReadString(crc, img, nsIndex, k)
      case None => None
      case Some(item) =>
        match ReadStrings(crc, img, nsIndex, k + item.span)
        case None => None
        case Some(rest) => Some([item.kv] + rest)
  }

  datatype Contents = Contents(namespace: seq<byte>, entries: seq<KV>)

  predicate HeaderHolds(crc: Crc, img: seq<byte>)
    requires |img| >= PAGE_SIZE
  {
    GetU32(img, 0) == PAGE_STATE_ACTIVE && img[8] == PAGE_VERSION_2 && GetU32(img, 28) == crc(img[4..28])
  }

  function Read(crc: Crc, img: seq<byte>): Option<Contents> {
    if |img| < PAGE_SIZE || !HeaderHolds(crc, img) || SlotState(img, 0) != WRITTEN then None
    else
      var e := SlotAt(img, 0);
      if !SumHolds(crc, e) || e[0] != NAMESPACES_INDEX || e[1] != TYPE_U8 || e[2] != 1 then None
      else
        match ReadStrings(crc, img, e[24], 1)
        case None => None
        case Some(kvs) => Some(Contents(UpToNul(e[8..24]), kvs))
  }

  // ---- Reading back one entry

  lemma {:induction false} CStringOfPadded(key: seq<byte>, n: nat)
    ensures UpToNul(key + Repeat(0, n)) == key <==> 0 !in key
    decreases |key|
  {
    var s := key + Repeat(0, n);
    if key == [] {
      assert n > 0 ==> s[0] == 0;
    } else if key[0] == 0 {
      assert s[0] == 0;
    } else {
      assert s[1..] == key[1..] + Repeat(0, n);
      assert key == [key[0]] + key[1..];
      CStringOfPadded(key[1..], n);
      assert UpToNul(s) == [key[0]] + UpToNul(s[1..]);
      if UpToNul(s) == key {
        assert UpToNul(s[1..]) == key[1..];
      }
    }
  }

  /** The key field gives the key back exactly when the key has no NUL in it. */
  lemma KeyReadsBack(key: seq<byte>)
    requires |key| <= MAX_KEY_LEN
    ensures UpToNul(KeyField(key)) == key <==> 0 !in key
  {
    CStringOfPadded(key, 16 - |key|);
  }

  /** An entry's fields are where the reader looks, and its checksum holds. */
  lemma EntryReadsBack(crc: Crc, head: seq<byte>, key: seq<byte>, data: seq<byte>)
    requires |head| == 4 && |key| <= MAX_KEY_LEN && |data| == 8
    ensures var e := Entry(crc, head, key, data);
            e[..4] == head && e[8..24] == KeyField(key) && e[24..] == data && SumHolds(crc, e)
  {
    var e := Entry(crc, head, key, data);
    var sum := crc(Covered(head, key, data));
    assert e[4..8] == Le32(sum);
    ReadLe32(e, 4, sum);
    assert e[..4] + e[8..] == Covered(head, key, data);
  }

  lemma StringDataReadsBack(crc: Crc, kv: KV, e: seq<byte>)
    requires |e| == ENTRY_SIZE && e[24..] == StringData(crc, kv)
    ensures GetU16(e, 24) == (|kv.value| + 1) % 0x1_0000 && GetU32(e, 28) == crc(Terminated(kv.value))
  {
    assert e[24..26] == e[24..][..2] == Le16((|kv.value| + 1) % 0x1_0000);
    assert e[28..32] == e[24..][4..] == Le32(crc(Terminated(kv.value)));
    ReadLe16(e, 24, (|kv.value| + 1) % 0x1_0000);
    ReadLe32(e, 28, crc(Terminated(kv.value)));
  }

  lemma StringHeadReadsBack(kv: KV, e: seq<byte>)
    requires |e| == ENTRY_SIZE && e[..4] == StringHead(kv)
    ensures e[0] == NAMESPACE_INDEX && e[1] == TYPE_STRING && e[2] == SlotsOf(kv) % 0x100 && e[3] == CHUNK_ANY
  {
    assert e[0] == e[..4][0] && e[1] == e[..4][1] && e[2] == e[..4][2] && e[3] == e[..4][3];
  }

  // ---- Reading back a whole page

  /** The first count slots are marked written and the rest empty. */
  ghost predicate Marked(img: seq<byte>, count: nat)
    requires |img| >= PAGE_SIZE
  {
    forall k :: 0 <= k < ENTRIES_PER_PAGE ==> SlotState(img, k) == if k < count then WRITTEN else EMPTY
  }

  /** The slots from k on hold these bytes. */
  ghost predicate HoldsAt(img: seq<byte>, k: nat, bytes: seq<byte>) {
    var off := FIRST_ENTRY_OFFSET + 32 * k;
    off + |bytes| <= |img| && img[off..off + |bytes|] == bytes
  }

  lemma HoldsSplit(img: seq<byte>, k: nat, n: nat, a: seq<byte>, b: seq<byte>)
    requires |a| == 32 * n && HoldsAt(img, k, a + b)
    ensures HoldsAt(img, k, a) && HoldsAt(img, k + n, b)
  {
    var off := FIRST_ENTRY_OFFSET + 32 * k;
    var all := img[off..off + |a + b|];
    assert img[off..off + |a|] == all[..|a|] == a;
    assert img[off + |a|..off + |a| + |b|] == all[|a|..] == b;
  }

  /** The value slots hold the terminated value at their start. */
  lemma ValueReadsBack(img: seq<byte>, k: nat, value: seq<byte>)
    requires HoldsAt(img, k, ValueSlots(value))
    ensures var start := FIRST_ENTRY_OFFSET + 32 * k;
            start + |value| + 1 <= |img| && img[start..start + |value| + 1] == Terminated(value)
  {
    var start := FIRST_ENTRY_OFFSET + 32 * k;
    var n := |value| + 1;
    assert img[start..start + n] == img[start..start + |ValueSlots(value)|][..n];
    assert ValueSlots(value)[..n] == Terminated(value);
  }

  /** A string's slots: its header entry, then its terminated value. */
  lemma ItemLayout(crc: Crc, img: seq<byte>, k: nat, kv: KV)
    requires |img| >= PAGE_SIZE && k < ENTRIES_PER_PAGE && |kv.key| <= MAX_KEY_LEN
    requires HoldsAt(img, k, Item(crc, kv))
    ensures SlotAt(img, k) == Entry(crc, StringHead(kv), kv.key, StringData(crc, kv))
    ensures var start := FIRST_ENTRY_OFFSET + 32 * (k + 1);
            start + |kv.value| + 1 <= |img| && img[start..start + |kv.value| + 1] == Terminated(kv.value)
  {
    hide Entry, StringHead, StringData, ValueSlots, Terminated;
    HoldsSplit(img, k, 1, Entry(crc, StringHead(kv), kv.key, StringData(crc, kv)), ValueSlots(kv.value));
    ValueReadsBack(img, k + 1, kv.value);
  }

  /** Everything the reader checks or takes from a string's header entry. */
  lemma StringEntryReadsBack(crc: Crc, kv: KV)
    requires |kv.key| <= MAX_KEY_LEN
    ensures var e := Entry(crc, StringHead(kv), kv.key, StringData(crc, kv));
            && SumHolds(crc, e) && e[8..24] == KeyField(kv.key)
            && e[0] == NAMESPACE_INDEX && e[1] == TYPE_STRING && e[2] == SlotsOf(kv) % 0x100 && e[3] == CHUNK_ANY
            && GetU16(e, 24) == (|kv.value| + 1) % 0x1_0000 && GetU32(e, 28) == crc(Terminated(kv.value))
  {
    hide StringHead, StringData, KeyField, UpToNul;
    var e := Entry(crc, StringHead(kv), kv.key, StringData(crc, kv));
    EntryReadsBack(crc, StringHead(kv), kv.key, StringData(crc, kv));
    StringHeadReadsBack(kv, e);
    StringDataReadsBack(crc, kv, e);
  }

  /** What the reader returns when every check passes. */
  lemma ReadStringSucceeds(crc: Crc, img: seq<byte>, nsIndex: byte, k: nat, span: nat, len: nat, data: seq<byte>)
    requires |img| >= PAGE_SIZE && 2 <= span && k + span <= ENTRIES_PER_PAGE && 1 <= len <= 32 * (span - 1)
    requires AllInState(img, k, k + span, WRITTEN)
    requires var e := SlotAt(img, k);
             && SumHolds(crc, e) && e[0] == nsIndex && e[1] == TYPE_STRING && e[2] == span && e[3] == CHUNK_ANY
             && GetU16(e, 24) == len && GetU32(e, 28) == crc(data)
    requires var start := FIRST_ENTRY_OFFSET + 32 * (k + 1);
             data == img[start..start + len] && data[len - 1] == 0
    ensures ReadString(crc, img, nsIndex, k)
         == Some(StringItem(KV(UpToNul(SlotAt(img, k)[8..24]), data[..len - 1]), span))
  {
    hide SlotAt, SumHolds, UpToNul, AllInState, GetU16, GetU32;
  }

  /** A string as a reader finds it: its key ends at the first NUL, its value is whole. */
  function AsRead(kv: KV): KV
    requires |kv.key| <= MAX_KEY_LEN
  {
    KV(UpToNul(KeyField(kv.key)), kv.value)
  }

  function AllAsRead(kvs: seq<KV>): (r: seq<KV>)
    requires KeysFit(kvs)
    ensures |r| == |kvs|
  {
    seq(|kvs|, i requires 0 <= i < |kvs| => AsRead(kvs[i]))
  }

  /** Every entry survives exactly when no key has a NUL in it. */
  lemma AllReadBack(kvs: seq<KV>)
    requires KeysFit(kvs)
    ensures AllAsRead(kvs) == kvs <==> forall i :: 0 <= i < |kvs| ==> 0 !in kvs[i].key
  {
    forall i | 0 <= i < |kvs| ensures AsRead(kvs[i]) == kvs[i] <==> 0 !in kvs[i].key {
      KeyReadsBack(kvs[i].key);
    }
    hide AsRead;
    assert AllAsRead(kvs) == kvs ==> forall i :: 0 <= i < |kvs| ==> AllAsRead(kvs)[i] == kvs[i];
  }

  lemma ItemReadsBack(crc: Crc, img: seq<byte>, count: nat, k: nat, kv: KV)
    requires |img| >= PAGE_SIZE && Marked(img, count) && count <= ENTRIES_PER_PAGE && k + SlotsOf(kv) <= count
    requires |kv.key| <= MAX_KEY_LEN && HoldsAt(img, k, Item(crc, kv))
    ensures ReadString(crc, img, NAMESPACE_INDEX, k) == Some(StringItem(AsRead(kv), SlotsOf(kv)))
  {
    var span, len := SlotsOf(kv), |kv.value| + 1;
    assert 2 <= span && len <= 32 * (span - 1) < 0x1_0000;
    assert AllInState(img, k, k + span, WRITTEN);
    hide *;
    ItemLayout(crc, img, k, kv);
    StringEntryReadsBack(crc, kv);
    TerminatedParts(kv.value);
    ReadStringSucceeds(crc, img, NAMESPACE_INDEX, k, span, len, Terminated(kv.value));
  }

  lemma TerminatedParts(value: seq<byte>)
    ensures var t := Terminated(value); |t| == |value| + 1 && t[|value|] == 0 && t[..|value|] == value
  {
  }

  lemma {:induction false} ItemsReadBack(crc: Crc, img: seq<byte>, count: nat, k: nat, kvs: seq<KV>)
    requires |img| >= PAGE_SIZE && Marked(img, count) && count <= ENTRIES_PER_PAGE
    requires k + SlotsOfAll(kvs) == count && KeysFit(kvs) && HoldsAt(img, k, Items(crc, kvs))
    ensures ReadStrings(crc, img, NAMESPACE_INDEX, k) == Some(AllAsRead(kvs))
    decreases |kvs|
  {
    hide SlotState, ReadString, Item, HoldsAt, AsRead;
    if kvs != [] {
      var kv := kvs[0];
      HoldsSplit(img, k, SlotsOf(kv), Item(crc, kv), Items(crc, kvs[1..]));
      ItemReadsBack(crc, img, count, k, kv);
      ItemsReadBack(crc, img, count, k + SlotsOf(kv), kvs[1..]);
      assert SlotState(img, k) == WRITTEN;
      assert AllAsRead(kvs) == [AsRead(kv)] + AllAsRead(kvs[1..]);
    }
  }

  // ---- The image

  /** Exactly the used slots are marked. */
  lemma UsedSlotsAreMarked(crc: Crc, size: nat, slots: seq<byte>, count: nat)
    requires |slots| == 32 * count && size >= PAGE_SIZE && count <= ENTRIES_PER_PAGE
    ensures Marked(Image(crc, size, slots), count)
  {
    var img := Image(crc, size, slots);
    forall k | 0 <= k < ENTRIES_PER_PAGE ensures SlotState(img, k) == if k < count then WRITTEN else EMPTY {
      assert img[BITMAP_OFFSET + k / 4] == Bitmap(count)[k / 4];
      BitmapState(count, k);
    }
  }

  lemma BitmapState(count: nat, k: nat)
    ensures BitmapByte(count - 4 * (k / 4)) / Mask(k) % 4 == if k < count then WRITTEN else EMPTY
  {
    var n := count - 4 * (k / 4);
    assert k < count <==> k % 4 < n;
  }

  /** Everything past the used slots is erased flash. */
  lemma UnusedBytesAreErased(crc: Crc, size: nat, slots: seq<byte>, i: nat)
    requires |slots| % 32 == 0 && FIRST_ENTRY_OFFSET + |slots| <= i < size
    ensures Image(crc, size, slots)[i] == 0xFF
  {
  }

  lemma ImageHeader(crc: Crc, size: nat, slots: seq<byte>)
    requires |slots| % 32 == 0 && size >= PAGE_SIZE && FIRST_ENTRY_OFFSET + |slots| <= size
    ensures HeaderHolds(crc, Image(crc, size, slots))
  {
    hide Bitmap;
    var img := Image(crc, size, slots);
    var h := PageHeader(crc);
    assert img[..32] == h;
    assert img[0..4] == img[..32][0..4] == Le32(PAGE_STATE_ACTIVE);
    assert img[4..28] == img[..32][4..28] == HeaderCovered();
    assert img[28..32] == img[..32][28..32] == Le32(crc(HeaderCovered()));
    assert img[8] == HeaderCovered()[4];
    ReadLe32(img, 0, PAGE_STATE_ACTIVE);
    ReadLe32(img, 28, crc(HeaderCovered()));
  }

  lemma ImageHoldsSlots(crc: Crc, size: nat, slots: seq<byte>)
    requires |slots| % 32 == 0 && FIRST_ENTRY_OFFSET + |slots| <= size
    ensures HoldsAt(Image(crc, size, slots), 0, slots)
  {
    hide Bitmap, PageHeader;
  }

  lemma NamespaceReadsBack(crc: Crc, ns: seq<byte>)
    requires |ns| <= MAX_KEY_LEN
    ensures var e := NamespaceEntry(crc, ns);
            && e[0] == NAMESPACES_INDEX && e[1] == TYPE_U8 && e[2] == 1 && e[24] == NAMESPACE_INDEX
            && e[8..24] == KeyField(ns) && SumHolds(crc, e)
  {
    var head, data := [NAMESPACES_INDEX, TYPE_U8, 1, CHUNK_ANY], [NAMESPACE_INDEX] + Repeat(0xFF, 7);
    EntryReadsBack(crc, head, ns, data);
    hide Entry, SumHolds, KeyField;
    var e := NamespaceEntry(crc, ns);
    assert e[0] == e[..4][0] && e[1] == e[..4][1] && e[2] == e[..4][2] && e[24] == e[24..][0];
  }

  /** Whatever was built reads without error, in order, with every checksum, span, length and value intact. */
  lemma BuiltImageReads(crc: Crc, size: int, ns: seq<byte>, kvs: seq<KV>)
    requires Buildable(size, ns, kvs)
    ensures Read(crc, Image(crc, size, Slots(crc, ns, kvs))) == Some(Contents(UpToNul(KeyField(ns)), AllAsRead(kvs)))
  {
    var slots := Slots(crc, ns, kvs);
    var img := Image(crc, size, slots);
    var count := 1 + SlotsOfAll(kvs);
    UsedSlotsAreMarked(crc, size, slots, count);
    ImageHeader(crc, size, slots);
    ImageHoldsSlots(crc, size, slots);
    HoldsSplit(img, 0, 1, NamespaceEntry(crc, ns), Items(crc, kvs));
    FirstSlot(img, NamespaceEntry(crc, ns));
    NamespaceReadsBack(crc, ns);
    ItemsReadBack(crc, img, count, 1, kvs);
    hide Image, Slots, NamespaceEntry, HeaderHolds, SumHolds, SlotState, SlotAt, ReadStrings, HoldsAt, UpToNul;
    hide KeyField, SlotsOfAll, AllAsRead;
    assert SlotState(img, 0) == WRITTEN;
  }

  /** Build, then read: the namespace and every entry come back in order exactly when no name has a NUL in it. */
  lemma ReadUndoesBuild(crc: Crc, size: int, ns: seq<byte>, kvs: seq<KV>)
    requires Buildable(size, ns, kvs)
    ensures Read(crc, Image(crc, size, Slots(crc, ns, kvs))) == Some(Contents(ns, kvs)) <==>
              0 !in ns && forall i :: 0 <= i < |kvs| ==> 0 !in kvs[i].key
  {
    BuiltImageReads(crc, size, ns, kvs);
    KeyReadsBack(ns);
    AllReadBack(kvs);
    hide Read, Image, Slots, AllAsRead, UpToNul, KeyField;
  }

  lemma FirstSlot(img: seq<byte>, e: seq<byte>)
    requires |img| >= PAGE_SIZE && |e| == ENTRY_SIZE && HoldsAt(img, 0, e)
    ensures SlotAt(img, 0) == e
  {
  }

  // ---- The format, byte by byte

  /**
   * The fixed bytes of every image: an active page of version 2, the namespace entry in slot 0 under index 0 as a
   * one-slot number, and each string under index 1 as type 0x21, with its span and its length.
   */
  lemma ImageBytes(crc: Crc, size: int, ns: seq<byte>, kvs: seq<KV>)
    requires Buildable(size, ns, kvs)
    ensures var img := Image(crc, size, Slots(crc, ns, kvs));
            && |img| == size && img[..4] == [0xFE, 0xFF, 0xFF, 0xFF] && img[4..8] == [0, 0, 0, 0] && img[8] == 0xFE
            && img[64..68] == [0, 1, 1, 0xFF] && img[88] == 1
  {
    var slots := Slots(crc, ns, kvs);
    var img := Image(crc, size, slots);
    hide Bitmap, Items;
    assert img[..32] == PageHeader(crc) && img[64..96] == slots[..32] == NamespaceEntry(crc, ns);
    assert img[..4] == img[..32][..4] && img[4..8] == img[..32][4..8] && img[8] == img[..32][8];
    assert img[64..68] == img[64..96][..4] && img[88] == img[64..96][24];
    EntryReadsBack(crc, [NAMESPACES_INDEX, TYPE_U8, 1, CHUNK_ANY], ns, [NAMESPACE_INDEX] + Repeat(0xFF, 7));
    assert NamespaceEntry(crc, ns)[24] == NamespaceEntry(crc, ns)[24..][0];
  }

  /** And of every string's header entry. */
  lemma StringBytes(crc: Crc, kv: KV)
    requires |kv.key| <= 15 && |kv.value| <= 3999
    ensures var e := Entry(crc, StringHead(kv), kv.key, StringData(crc, kv));
            && e[0] == 1 && e[1] == 0x21 && e[2] == 1 + (|kv.value| + 32) / 32 && e[3] == 0xFF
            && Says16(e, 24, |kv.value| + 1) && e[26] == 0xFF && e[27] == 0xFF
  {
    EntryReadsBack(crc, StringHead(kv), kv.key, StringData(crc, kv));
    StringEntryReadsBack(crc, kv);
    var e := Entry(crc, StringHead(kv), kv.key, StringData(crc, kv));
    assert e[26] == e[24..][2] && e[27] == e[24..][3] && e[24..26] == e[24..][..2];
    Le16Says(e, 24, |kv.value| + 1);
    hide Entry, StringHead, KeyField, SumHolds;
  }
}
