/** The page writer and Build itself, proved to lay out exactly the image format (nvs.go). */
module NvsBuilder {
  import opened Bytes
  import opened Wrappers
  import opened Nvs

  datatype BuildError = BadSize | BadNamespace | BadKey(key: seq<byte>) | DuplicateKey(key: seq<byte>) | PageFull

  // ---- Entries

  /** newEntry: erased bytes, the index, the chunk marker and the zero-padded key. */
  method NewEntry(nsIndex: byte, key: seq<byte>) returns (e: array<byte>)
    requires |key| <= MAX_KEY_LEN
    ensures fresh(e) && e.Length == ENTRY_SIZE
    ensures e[..] == [nsIndex, 0xFF, 0xFF, CHUNK_ANY] + Repeat(0xFF, 4) + KeyField(key) + Repeat(0xFF, 8)
  {
    e := new byte[ENTRY_SIZE](_ => 0xFF);
    e[0] := nsIndex;
    e[3] := CHUNK_ANY;
    for i := 8 to 24
      invariant e[..8] == [nsIndex, 0xFF, 0xFF, CHUNK_ANY] + Repeat(0xFF, 4)
      invariant forall k :: 8 <= k < i ==> e[k] == 0
      invariant forall k :: 24 <= k < 32 ==> e[k] == 0xFF
    {
      e[i] := 0;
    }
    CopyInto(e, 8, key);
  }

  /** sealEntry: the checksum covers everything but itself. */
  method SealEntry(crc: Crc, e: array<byte>, ghost head: seq<byte>, ghost key: seq<byte>, ghost data: seq<byte>)
    requires e.Length == ENTRY_SIZE && |head| == 4 && |key| <= MAX_KEY_LEN && |data| == 8
    requires e[..4] == head && e[8..] == KeyField(key) + data
    modifies e
    ensures e[..] == Entry(crc, head, key, data)
  {
    hide KeyField, Le32;
    var crcData := [];
    crcData := crcData + e[..4];
    crcData := crcData + e[8..32];
    assert crcData == Covered(head, key, data);
    CopyInto(e, 4, Le32(crc(crcData)));
  }

  method NamespaceEntryOf(crc: Crc, ns: seq<byte>) returns (e: array<byte>)
    requires |ns| <= MAX_KEY_LEN
    ensures fresh(e) && e[..] == NamespaceEntry(crc, ns)
  {
    e := NewEntry(NAMESPACES_INDEX, ns);
    e[1] := TYPE_U8;
    e[2] := 1;
    e[24] := NAMESPACE_INDEX;
    assert e[..4] == [NAMESPACES_INDEX, TYPE_U8, 1, CHUNK_ANY];
    assert e[8..] == KeyField(ns) + ([NAMESPACE_INDEX] + Repeat(0xFF, 7));
    SealEntry(crc, e, [NAMESPACES_INDEX, TYPE_U8, 1, CHUNK_ANY], ns, [NAMESPACE_INDEX] + Repeat(0xFF, 7));
  }

  method StringEntryOf(crc: Crc, kv: KV) returns (e: array<byte>)
    requires |kv.key| <= MAX_KEY_LEN
    ensures fresh(e) && e[..] == Entry(crc, StringHead(kv), kv.key, StringData(crc, kv))
  {
    var data := Terminated(kv.value);
    var dataEntries := (|data| + ENTRY_SIZE - 1) / ENTRY_SIZE;
    e := NewEntry(NAMESPACE_INDEX, kv.key);
    e[1] := TYPE_STRING;
    e[2] := (dataEntries + 1) % 0x100;
    assert e[..4] == StringHead(kv) && e[8..24] == KeyField(kv.key) && e[26..28] == [0xFF, 0xFF];
    PutStringData(e, |data| % 0x1_0000, crc(data));
    assert e[24..] == StringData(crc, kv);
    hide StringHead, KeyField, StringData, Entry;
    assert e[..4] == e[..24][..4] && e[8..] == e[..24][8..] + e[24..];
    SealEntry(crc, e, StringHead(kv), kv.key, StringData(crc, kv));
  }

  /** The data field of a string's header entry: length, two erased bytes, checksum of the value. */
  method PutStringData(e: array<byte>, length: uint16, sum: uint32)
    requires e.Length == ENTRY_SIZE && e[26..28] == [0xFF, 0xFF]
    modifies e
    ensures e[..24] == old(e[..24])
    ensures e[24..] == Le16(length) + [0xFF, 0xFF] + Le32(sum)
  {
    assert e[26] == e[26..28][0] && e[27] == e[26..28][1];
    CopyInto(e, 24, Le16(length));
    CopyInto(e, 28, Le32(sum));
  }

  // ---- The page

  /** Marking the new slots and writing them turns one image into the next. */
  lemma ImageExtends(crc: Crc, size: nat, slots: seq<byte>, count: nat, item: seq<byte>, n: nat)
    requires |slots| == 32 * count && |item| == 32 * n
    requires FIRST_ENTRY_OFFSET + |slots| + |item| <= size
    ensures Splice(Splice(Image(crc, size, slots), BITMAP_OFFSET, Bitmap(count + n)),
                   FIRST_ENTRY_OFFSET + |slots|, item)
         == Image(crc, size, slots + item)
  {
    hide PageHeader, Bitmap;
    assert |slots + item| / 32 == count + n;
  }

  /** An entry and a value copied over erased slots leave the value padded with erased bytes. */
  lemma ValueOverErased(s: seq<byte>, off: nat, e: seq<byte>, value: seq<byte>)
    requires |e| == ENTRY_SIZE && off + 32 + 32 * DataEntries(value) <= |s|
    requires forall i :: off + 32 <= i < off + 32 + 32 * DataEntries(value) ==> s[i] == 0xFF
    ensures Splice(Splice(s, off, e), off + 32, Terminated(value)) == Splice(s, off, e + ValueSlots(value))
  {
  }

  lemma StartsMarked(was: seq<byte>, crc: Crc, slots: seq<byte>, count: nat)
    requires |slots| == 32 * count && FIRST_ENTRY_OFFSET + |slots| <= |was|
    requires was == Image(crc, |was|, slots)
    ensures was == Splice(was, BITMAP_OFFSET, Bitmap(count))
  {
    hide PageHeader, Bitmap;
  }

  class Page {
    const crc: Crc
    const buf: array<byte>
    var count: nat
    ghost var slots: seq<byte>

    /** The buffer is the image of the slots written so far, and count says how many there are. */
    ghost predicate Valid()
      reads this, buf
    {
      && |slots| == 32 * count && count <= ENTRIES_PER_PAGE
      && buf.Length >= PAGE_SIZE && buf[..] == Image(crc, buf.Length, slots)
    }

    /** writeHeader over an erased buffer. */
    constructor (crc: Crc, buf: array<byte>)
      requires buf.Length >= PAGE_SIZE && forall i :: 0 <= i < buf.Length ==> buf[i] == 0xFF
      modifies buf
      ensures Valid() && this.crc == crc && this.buf == buf && count == 0 && slots == []
    {
      this.crc, this.buf, count, slots := crc, buf, 0, [];
      new;
      Append(buf, 0, Le32(PAGE_STATE_ACTIVE));
      Append(buf, 4, Le32(0));
      Append(buf, 8, [PAGE_VERSION_2]);
      assert buf[..28] == buf[..9] + buf[9..28] && buf[9..28] == Repeat(0xFF, 19);
      assert buf[..28] == Le32(PAGE_STATE_ACTIVE) + HeaderCovered();
      assert buf[4..28] == buf[..28][4..] == HeaderCovered();
      Append(buf, 28, Le32(crc(buf[4..28])));
      assert buf[..32] == PageHeader(crc);
      assert buf[32..] == Bitmap(0) + [] + Repeat(0xFF, buf.Length - 64);
      assert buf[..] == buf[..32] + buf[32..];
    }

    /** reserve: clear one bit for each of n slots, if the page still has them. */
    method Reserve(n: nat) returns (ok: bool, off: nat)
      requires Valid()
      modifies this`count, buf
      ensures ok <==> old(count) + n <= ENTRIES_PER_PAGE
      ensures !ok ==> buf[..] == old(buf[..]) && count == old(count)
      ensures ok ==> off == FIRST_ENTRY_OFFSET + ENTRY_SIZE * old(count) && count == old(count) + n
      ensures ok ==> buf[..] == Splice(old(buf[..]), BITMAP_OFFSET, Bitmap(count))
    {
      if count + n > ENTRIES_PER_PAGE {
        return false, 0;
      }
      off := FIRST_ENTRY_OFFSET + count * ENTRY_SIZE;
      ghost var was := buf[..];
      StartsMarked(was, crc, slots, count);
      hide Image, Bitmap;
      for i := 0 to n
        invariant count == old(count)
        invariant buf[..] == Splice(was, BITMAP_OFFSET, Bitmap(count + i))
      {
        MarkSlot(count + i, was);
      }
      count := count + n;
      return true, off;
    }

    method MarkSlot(slot: nat, ghost was: seq<byte>)
      requires buf.Length >= PAGE_SIZE && |was| == buf.Length && slot < 4 * BITMAP_SIZE
      requires buf[..] == Splice(was, BITMAP_OFFSET, Bitmap(slot))
      modifies buf
      ensures buf[..] == Splice(was, BITMAP_OFFSET, Bitmap(slot + 1))
    {
      var j := slot / 4;
      ClearSlot(slot);
      assert buf[BITMAP_OFFSET + j] == buf[..][BITMAP_OFFSET + j] == Bitmap(slot)[j];
      buf[BITMAP_OFFSET + j] := ClearBit(buf[BITMAP_OFFSET + j], Mask(slot));
      hide Bitmap, ClearBit, Mask;
    }

    method WriteNamespace(ns: seq<byte>) returns (ok: bool)
      requires Valid() && |ns| <= MAX_KEY_LEN
      modifies this, buf
      ensures ok <==> old(count) + 1 <= ENTRIES_PER_PAGE
      ensures Valid() && slots == old(slots) + if ok then NamespaceEntry(crc, ns) else []
    {
      hide Image, NamespaceEntry, Bitmap, Splice;
      var e := NamespaceEntryOf(crc, ns);
      var off;
      ok, off := Reserve(1);
      if ok {
        ImageExtends(crc, buf.Length, slots, old(count), e[..], 1);
        CopyInto(buf, off, e[..]);
        slots := slots + e[..];
      }
    }

    /** writeString: the header entry and as many value entries as the terminated value needs. */
    method WriteString(kv: KV) returns (ok: bool)
      requires Valid() && |kv.key| <= MAX_KEY_LEN
      modifies this, buf
      ensures ok <==> old(count) + SlotsOf(kv) <= ENTRIES_PER_PAGE
      ensures Valid() && slots == old(slots) + if ok then Item(crc, kv) else []
    {
      hide Image, Entry, StringHead, StringData, Bitmap, Splice, ValueSlots, Terminated;
      var data := Terminated(kv.value);
      assert |data| == |kv.value| + 1 by {
        TerminatedLength(kv.value);
      }
      var dataEntries := (|data| + ENTRY_SIZE - 1) / ENTRY_SIZE;
      var e := StringEntryOf(crc, kv);
      var off;
      ghost var was := buf[..];
      ok, off := Reserve(1 + dataEntries);
      if ok {
        ErasedBeyond(crc, buf.Length, slots, was, buf[..], count);
        ValueOverErased(buf[..], off, e[..], kv.value);
        ImageExtends(crc, buf.Length, slots, old(count), Item(crc, kv), SlotsOf(kv));
        CopyInto(buf, off, e[..]);
        CopyInto(buf, off + ENTRY_SIZE, data);
        slots := slots + Item(crc, kv);
      }
    }
  }

  lemma TerminatedLength(value: seq<byte>)
    ensures |Terminated(value)| == |value| + 1
  {
  }

  lemma ErasedBeyond(crc: Crc, size: nat, slots: seq<byte>, was: seq<byte>, marked: seq<byte>, count: nat)
    requires |slots| % 32 == 0 && PAGE_SIZE <= size && FIRST_ENTRY_OFFSET + |slots| <= size
    requires was == Image(crc, size, slots) && marked == Splice(was, BITMAP_OFFSET, Bitmap(count))
    ensures forall i :: FIRST_ENTRY_OFFSET + |slots| <= i < size ==> marked[i] == 0xFF
  {
    hide PageHeader, Bitmap;
  }

  // ---- Build

  /** The page holds the namespace and the first i strings. */
  ghost predicate Holds(p: Page, ns: seq<byte>, kvs: seq<KV>, i: nat)
    requires |ns| <= MAX_KEY_LEN && i <= |kvs|
    reads p, p.buf
  {
    && p.Valid() && KeysFit(kvs[..i])
    && p.slots == Slots(p.crc, ns, kvs[..i])
    && p.count == 1 + SlotsOfAll(kvs[..i])
  }

  method StartNamespace(p: Page, ns: seq<byte>, ghost kvs: seq<KV>)
    requires p.Valid() && p.count == 0 && 1 <= |ns| <= MAX_KEY_LEN
    modifies p, p.buf
    ensures Holds(p, ns, kvs, 0)
  {
    hide NamespaceEntry, Image;
    var ok := p.WriteNamespace(ns);
    assert kvs[..0] == [];
    ItemsEmpty(p.crc);
  }

  method StoreNext(p: Page, ghost ns: seq<byte>, kvs: seq<KV>, i: nat) returns (ok: bool)
    requires |ns| <= MAX_KEY_LEN && i < |kvs| && Holds(p, ns, kvs, i)
    requires 1 <= |kvs[i].key| <= MAX_KEY_LEN
    modifies p, p.buf
    ensures ok <==> 1 + SlotsOfAll(kvs[..i + 1]) <= ENTRIES_PER_PAGE
    ensures ok ==> Holds(p, ns, kvs, i + 1)
  {
    hide NamespaceEntry, Item, Items, Image, SlotsOf;
    ok := p.WriteString(kvs[i]);
    assert kvs[..i + 1] == kvs[..i] + [kvs[i]];
    ItemsAppend(p.crc, kvs[..i], kvs[i]);
  }

  lemma HoldsFits(p: Page, ns: seq<byte>, kvs: seq<KV>)
    requires |ns| <= MAX_KEY_LEN && Holds(p, ns, kvs, |kvs|)
    ensures 1 + SlotsOfAll(kvs) <= ENTRIES_PER_PAGE
  {
    assert kvs[..|kvs|] == kvs;
  }

  /** The first i entries can be stored, and entry i is the first that cannot, for this reason. */
  ghost predicate StopsAt(kvs: seq<KV>, i: nat, err: BuildError)
    requires i < |kvs|
  {
    var key := kvs[i].key;
    && KeysFit(kvs[..i]) && KeysDistinct(kvs[..i]) && 1 + SlotsOfAll(kvs[..i]) <= ENTRIES_PER_PAGE
    && match err
       case BadKey(k) => k == key && (|k| == 0 || |k| > MAX_KEY_LEN)
       case DuplicateKey(k) => k == key && 1 <= |k| <= MAX_KEY_LEN && HasKey(kvs, i, k)
       case PageFull =>
         && 1 <= |key| <= MAX_KEY_LEN && !HasKey(kvs, i, key)
         && 1 + SlotsOfAll(kvs[..i + 1]) > ENTRIES_PER_PAGE
       case _ => false
  }

  lemma Stops(kvs: seq<KV>, i: nat, err: BuildError)
    requires i < |kvs| && KeysFit(kvs[..i]) && KeysDistinct(kvs[..i]) && 1 + SlotsOfAll(kvs[..i]) <= ENTRIES_PER_PAGE
    requires match err
             case BadKey(k) => k == kvs[i].key && (|k| == 0 || |k| > MAX_KEY_LEN)
             case DuplicateKey(k) => k == kvs[i].key && 1 <= |k| <= MAX_KEY_LEN && HasKey(kvs, i, k)
             case PageFull =>
               && 1 <= |kvs[i].key| <= MAX_KEY_LEN && !HasKey(kvs, i, kvs[i].key)
               && 1 + SlotsOfAll(kvs[..i + 1]) > ENTRIES_PER_PAGE
             case _ => false
    ensures StopsAt(kvs, i, err)
  {
  }

  /** The loop over the entries: check the key, reject a repeat, write it. */
  method StoreAll(p: Page, ns: seq<byte>, kvs: seq<KV>) returns (err: Option<BuildError>)
    requires |ns| <= MAX_KEY_LEN && Holds(p, ns, kvs, 0)
    modifies p, p.buf
    ensures err.None? <==> KeysFit(kvs) && KeysDistinct(kvs) && 1 + SlotsOfAll(kvs) <= ENTRIES_PER_PAGE
    ensures err.None? ==> Holds(p, ns, kvs, |kvs|)
    ensures err.Some? ==> exists i :: 0 <= i < |kvs| && StopsAt(kvs, i, err.value)
  {
    assert 1 + SlotsOfAll(kvs[..0]) <= ENTRIES_PER_PAGE;
    hide SlotsOfAll, Holds, KeysDistinct, HasKey, StopsAt;
    assert KeysDistinct(kvs[..0]) && forall k :: !HasKey(kvs, 0, k) by {
      NothingYet(kvs);
    }
    var seen := {};
    for i := 0 to |kvs|
      invariant Holds(p, ns, kvs, i)
      invariant KeysFit(kvs[..i])
      invariant KeysDistinct(kvs[..i]) && 1 + SlotsOfAll(kvs[..i]) <= ENTRIES_PER_PAGE
      invariant forall k :: k in seen <==> HasKey(kvs, i, k)
    {
      var kv := kvs[i];
      if |kv.key| == 0 || |kv.key| > MAX_KEY_LEN {
        Stops(kvs, i, BadKey(kv.key));
        return Some(BadKey(kv.key));
      }
      if kv.key in seen {
        DistinctSoFar(kvs, i);
        NotDistinct(kvs, i + 1);
        Stops(kvs, i, DuplicateKey(kv.key));
        return Some(DuplicateKey(kv.key));
      }
      DistinctSoFar(kvs, i);
      OneMoreKey(kvs, i);
      seen := seen + {kv.key};
      SlotsOfPrefix(kvs, i + 1);
      var ok := StoreNext(p, ns, kvs, i);
      if !ok {
        Stops(kvs, i, PageFull);
        return Some(PageFull);
      }
    }
    assert kvs[..|kvs|] == kvs;
    HoldsFits(p, ns, kvs);
    return None;
  }

  predicate SizeFits(size: int) { size % PAGE_SIZE == 0 && size >= 2 * PAGE_SIZE }

  /**
   * Build succeeds exactly on buildable input, and then returns exactly the image of the format; otherwise it reports
   * the first thing wrong: the size, the namespace, then the first entry that cannot be stored.
   */
  method Build(crc: Crc, size: int, ns: seq<byte>, kvs: seq<KV>) returns (r: Result<seq<byte>, BuildError>)
    ensures r.Success? <==> Buildable(size, ns, kvs)
    ensures r.Success? ==> r.value == Image(crc, size, Slots(crc, ns, kvs))
    ensures r == Failure(BadSize) <==> !SizeFits(size)
    ensures r == Failure(BadNamespace) <==> SizeFits(size) && !(1 <= |ns| <= MAX_KEY_LEN)
    ensures r.Failure? && SizeFits(size) && 1 <= |ns| <= MAX_KEY_LEN ==>
              exists i :: 0 <= i < |kvs| && StopsAt(kvs, i, r.error)
  {
    if size <= 0 || size % PAGE_SIZE != 0 || size < 2 * PAGE_SIZE {
      return Failure(BadSize);
    }
    if |ns| == 0 || |ns| > MAX_KEY_LEN {
      return Failure(BadNamespace);
    }
    hide Slots, Image, SlotsOfAll, KeysFit, KeysDistinct;
    var img := new byte[size](_ => 0xFF);
    var p := new Page(crc, img);
    StartNamespace(p, ns, kvs);
    var err := StoreAll(p, ns, kvs);
    if err.Some? {
      return Failure(err.value);
    }
    assert kvs[..|kvs|] == kvs;
    return Success(img[..]);
  }

  ghost predicate HasKey(kvs: seq<KV>, i: nat, key: seq<byte>)
    requires i <= |kvs|
  {
    exists j :: 0 <= j < i && kvs[j].key == key
  }

  lemma NothingYet(kvs: seq<KV>)
    ensures KeysDistinct(kvs[..0]) && forall k :: !HasKey(kvs, 0, k)
  {
  }

  lemma OneMoreKey(kvs: seq<KV>, i: nat)
    requires i < |kvs|
    ensures forall k :: HasKey(kvs, i + 1, k) <==> HasKey(kvs, i, k) || k == kvs[i].key
  {
    forall k ensures HasKey(kvs, i + 1, k) <==> HasKey(kvs, i, k) || k == kvs[i].key {
      if HasKey(kvs, i, k) {
        var j :| 0 <= j < i && kvs[j].key == k;
        assert j < i + 1;
      }
    }
  }

  lemma NotDistinct(kvs: seq<KV>, i: nat)
    requires i <= |kvs| && !KeysDistinct(kvs[..i])
    ensures !KeysDistinct(kvs)
  {
  }

  lemma DistinctSoFar(kvs: seq<KV>, i: nat)
    requires i < |kvs| && KeysDistinct(kvs[..i])
    ensures KeysDistinct(kvs[..i + 1]) <==> !HasKey(kvs, i, kvs[i].key)
  {
    var s, t := kvs[..i], kvs[..i + 1];
    assert forall j :: 0 <= j < i ==> t[j] == s[j] == kvs[j];
    assert t[i] == kvs[i];
  }

  lemma ItemsEmpty(crc: Crc)
    ensures SlotsOfAll([]) == 0 && Items(crc, []) == []
  {
  }
}
