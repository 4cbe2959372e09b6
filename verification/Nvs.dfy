/** The NVS partition image the provisioning wizard flashes (nvs.go). */
module Nvs {
  import opened Bytes

  const PAGE_SIZE: nat := 4096
  const ENTRY_SIZE: nat := 32
  const ENTRIES_PER_PAGE: nat := 126
  const BITMAP_OFFSET: nat := 32
  const BITMAP_SIZE: nat := 32
  const FIRST_ENTRY_OFFSET: nat := 64
  const MAX_KEY_LEN: nat := 15
  const PAGE_STATE_ACTIVE: uint32 := 0xFFFF_FFFE
  const PAGE_VERSION_2: byte := 0xFE
  const TYPE_U8: byte := 0x01
  const TYPE_STRING: byte := 0x21
  const CHUNK_ANY: byte := 0xFF
  const NAMESPACES_INDEX: byte := 0
  const NAMESPACE_INDEX: byte := 1

  /** One string to store; keys and values are byte strings, as in Go. */
  datatype KV = KV(key: seq<byte>, value: seq<byte>)

  /** CRC-32 with the generator's initial value; only its being a function of the bytes matters here. */
  type Crc = seq<byte> -> uint32

  // ---- The image format

  function KeyField(key: seq<byte>): (r: seq<byte>)
    requires |key| <= MAX_KEY_LEN
    ensures |r| == 16
  {
    key + Repeat(0, 16 - |key|)
  }

  /** Everything of an entry its checksum covers. */
  function Covered(head: seq<byte>, key: seq<byte>, data: seq<byte>): seq<byte>
    requires |head| == 4 && |key| <= MAX_KEY_LEN && |data| == 8
  {
    head + (KeyField(key) + data)
  }

  /** A 32-byte entry: index, type, span, chunk, checksum, key, data. */
  function Entry(crc: Crc, head: seq<byte>, key: seq<byte>, data: seq<byte>): (e: seq<byte>)
    requires |head| == 4 && |key| <= MAX_KEY_LEN && |data| == 8
    ensures |e| == ENTRY_SIZE
  {
    head + Le32(crc(Covered(head, key, data))) + (KeyField(key) + data)
  }

  function NamespaceEntry(crc: Crc, ns: seq<byte>): (e: seq<byte>)
    requires |ns| <= MAX_KEY_LEN
    ensures |e| == ENTRY_SIZE
  {
    Entry(crc, [NAMESPACES_INDEX, TYPE_U8, 1, CHUNK_ANY], ns, [NAMESPACE_INDEX] + Repeat(0xFF, 7))
  }

  /** The stored bytes of a value: itself and a NUL. */
  function Terminated(value: seq<byte>): seq<byte> { value + [0] }

  function DataEntries(value: seq<byte>): (n: nat)
    ensures n >= 1 && 32 * (n - 1) < |value| + 1 <= 32 * n
  {
    (|value| + 1 + ENTRY_SIZE - 1) / ENTRY_SIZE
  }

  /** Entry slots one string takes. */
  function SlotsOf(kv: KV): nat { 1 + DataEntries(kv.value) }

  function StringHead(kv: KV): (r: seq<byte>)
    ensures |r| == 4
  {
    [NAMESPACE_INDEX, TYPE_STRING, SlotsOf(kv) % 0x100, CHUNK_ANY]
  }

  function StringData(crc: Crc, kv: KV): (r: seq<byte>)
    ensures |r| == 8
  {
    Le16((|kv.value| + 1) % 0x1_0000) + [0xFF, 0xFF] + Le32(crc(Terminated(kv.value)))
  }

  /** The value and its NUL, padded with erased bytes to whole slots. */
  function ValueSlots(value: seq<byte>): (r: seq<byte>)
    ensures |r| == 32 * DataEntries(value)
  {
    Terminated(value) + Repeat(0xFF, 32 * DataEntries(value) - |value| - 1)
  }

  function Item(crc: Crc, kv: KV): (r: seq<byte>)
    requires |kv.key| <= MAX_KEY_LEN
    ensures |r| == 32 * SlotsOf(kv)
  {
    Entry(crc, StringHead(kv), kv.key, StringData(crc, kv)) + ValueSlots(kv.value)
  }

  ghost predicate KeysFit(kvs: seq<KV>) {
    forall i :: 0 <= i < |kvs| ==> 1 <= |kvs[i].key| <= MAX_KEY_LEN
  }

  ghost predicate KeysDistinct(kvs: seq<KV>) {
    forall i, j :: 0 <= i < j < |kvs| ==> kvs[i].key != kvs[j].key
  }

  function SlotsOfAll(kvs: seq<KV>): nat {
    if kvs == [] then 0 else SlotsOf(kvs[0]) + SlotsOfAll(kvs[1..])
  }

  ghost function Items(crc: Crc, kvs: seq<KV>): (r: seq<byte>)
    requires KeysFit(kvs)
    ensures |r| == 32 * SlotsOfAll(kvs)
  {
    if kvs == [] then [] else Item(crc, kvs[0]) + Items(crc, kvs[1..])
  }

  /** One bitmap byte, four slots of two bits, of which the first n are written (10) and the rest empty (11). */
  function BitmapByte(n: int): byte {
    if n <= 0 then 0xFF else if n == 1 then 0xFE else if n == 2 then 0xFA else if n == 3 then 0xEA else 0xAA
  }

  function Bitmap(count: nat): (r: seq<byte>)
    ensures |r| == BITMAP_SIZE && forall j :: 0 <= j < BITMAP_SIZE ==> r[j] == BitmapByte(count - 4 * j)
  {
    seq(BITMAP_SIZE, j requires 0 <= j => BitmapByte(count - 4 * j))
  }

  /** Bytes 4 to 28 of the page header: sequence number 0, version, erased bytes. */
  function HeaderCovered(): (r: seq<byte>)
    ensures |r| == 24
  {
    Le32(0) + [PAGE_VERSION_2] + Repeat(0xFF, 19)
  }

  function PageHeader(crc: Crc): (r: seq<byte>)
    ensures |r| == 32
  {
    Le32(PAGE_STATE_ACTIVE) + HeaderCovered() + Le32(crc(HeaderCovered()))
  }

  /** An image whose first page holds the given slots; everything else is erased. */
  ghost function Image(crc: Crc, size: nat, slots: seq<byte>): (r: seq<byte>)
    requires |slots| % 32 == 0 && FIRST_ENTRY_OFFSET + |slots| <= size
    ensures |r| == size
  {
    PageHeader(crc) + Bitmap(|slots| / 32) + slots + Repeat(0xFF, size - FIRST_ENTRY_OFFSET - |slots|)
  }

  ghost function Slots(crc: Crc, ns: seq<byte>, kvs: seq<KV>): (r: seq<byte>)
    requires |ns| <= MAX_KEY_LEN && KeysFit(kvs)
    ensures |r| == 32 * (1 + SlotsOfAll(kvs))
  {
    NamespaceEntry(crc, ns) + Items(crc, kvs)
  }

  /** Exactly what Build demands of its arguments. */
  ghost predicate Buildable(size: int, ns: seq<byte>, kvs: seq<KV>) {
    && size % 4096 == 0 && size >= 8192
    && 1 <= |ns| <= 15 && (forall i :: 0 <= i < |kvs| ==> 1 <= |kvs[i].key| <= 15)
    && KeysDistinct(kvs)
    && 1 + SlotsOfAll(kvs) <= 126
  }

  // ---- Building blocks

  lemma {:induction false} ItemsAppend(crc: Crc, kvs: seq<KV>, kv: KV)
    requires KeysFit(kvs) && 1 <= |kv.key| <= MAX_KEY_LEN
    ensures KeysFit(kvs + [kv])
    ensures SlotsOfAll(kvs + [kv]) == SlotsOfAll(kvs) + SlotsOf(kv)
    ensures Items(crc, kvs + [kv]) == Items(crc, kvs) + Item(crc, kv)
    decreases |kvs|
  {
    hide Item, SlotsOf;
    if kvs == [] {
      assert [kv][1..] == [];
      assert Items(crc, [kv]) == Item(crc, kv) + Items(crc, []);
    } else {
      ItemsAppend(crc, kvs[1..], kv);
      assert (kvs + [kv])[1..] == kvs[1..] + [kv];
      assert Items(crc, kvs + [kv]) == Item(crc, kvs[0]) + (Items(crc, kvs[1..]) + Item(crc, kv));
    }
  }

  lemma {:induction false} SlotsOfPrefix(kvs: seq<KV>, i: nat)
    requires i <= |kvs|
    ensures SlotsOfAll(kvs[..i]) <= SlotsOfAll(kvs)
    ensures i < |kvs| ==> SlotsOfAll(kvs[..i + 1]) == SlotsOfAll(kvs[..i]) + SlotsOf(kvs[i])
    decreases |kvs|
  {
    if i > 0 {
      assert kvs[..i][1..] == kvs[1..][..i - 1];
      SlotsOfPrefix(kvs[1..], i - 1);
      if i < |kvs| {
        assert kvs[..i + 1][1..] == kvs[1..][..i];
      }
    } else if kvs != [] {
      assert kvs[..1][1..] == [];
    }
  }

  /** 1 << bit for the four bits that mark a slot written. */
  function Mask(slot: nat): (m: byte)
    ensures m > 0
  {
    var k := slot % 4;
    if k == 0 then 1 else if k == 1 then 4 else if k == 2 then 16 else 64
  }

  /** b &^ m for a single-bit m. */
  function ClearBit(b: byte, m: byte): byte
    requires m > 0
  {
    if b / m % 2 == 1 then b - m else b
  }

  /** Clearing one slot's low bit extends the written slots by one. */
  lemma ClearSlot(count: nat)
    requires count < 4 * BITMAP_SIZE
    ensures Bitmap(count)[count / 4 := ClearBit(Bitmap(count)[count / 4], Mask(count))] == Bitmap(count + 1)
  {
    var j := count / 4;
    var n := count - 4 * j;
    assert n == count % 4;
    assert ClearBit(BitmapByte(n), Mask(count)) == BitmapByte(n + 1);
  }
}
