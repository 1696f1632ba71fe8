/**
 * The NAPT tables in the hash table of hashmap.c: keys and entries as the bytes of their C structures,
 * and the table work of `napt_out_handle` and `napt_inc_handle` on them.
 */
module NaptTables {
  import opened Net
  import opened ProbeTable
  import opened HashTable
  import opened CyclicHash
  import opened Napt

  // ---------------------------------------------------------------- structures as bytes

  /** A `uint16_t` in memory. */
  function WordBytes(w: u16): (b: seq<byte>)
    ensures |b| == 2
  {
    [w % 0x100, w / 0x100]
  }

  /** `napt_extern_key_t`, packed. */
  function ExternBytes(k: ExternKey): (b: seq<byte>)
    ensures |b| == 9
  {
    IpBytes(k.ipDst) + WordBytes(k.portSrc) + WordBytes(k.portDst) + [k.protocol]
  }

  /** `napt_intern_key_t`, packed. */
  function InternBytes(k: InternKey): (b: seq<byte>)
    ensures |b| == 7
  {
    IpBytes(k.ipSrc) + WordBytes(k.portSrc) + [k.protocol]
  }

  const ENTRY_SIZE := 24

  /** `napt_entry_t`; the two padding bytes before the timestamp are taken to be zero. */
  function EntryBytes(e: Entry): (b: seq<byte>)
    ensures |b| == ENTRY_SIZE
  {
    IpBytes(e.lanIp) + WordBytes(e.lanPort) + IpBytes(e.publicIp) + WordBytes(e.publicPort)
    + IpBytes(e.dstIp) + WordBytes(e.dstPort) + [0, 0]
    + WordBytes(e.timestamp % 0x1_0000) + WordBytes(e.timestamp / 0x1_0000)
  }

  function ReadIp(b: seq<byte>, o: nat): (ip: Ip)
    requires o + 4 <= |b|
  {
    Ip(b[o], b[o + 1], b[o + 2], b[o + 3])
  }

  function ReadWord(b: seq<byte>, o: nat): (w: u16)
    requires o + 2 <= |b|
  {
    var low: int, high: int := b[o], b[o + 1];
    low + 0x100 * high
  }

  function ReadEntry(b: seq<byte>): (e: Entry)
    requires |b| == ENTRY_SIZE
  {
    var low: int, high: int := ReadWord(b, 20), ReadWord(b, 22);
    Entry(ReadIp(b, 0), ReadWord(b, 4), ReadIp(b, 6), ReadWord(b, 10), ReadIp(b, 12), ReadWord(b, 16),
          low + 0x1_0000 * high)
  }

  /** Fields read from an entry's bytes are the fields that were written. */
  lemma EntryRoundTrip(e: Entry)
    ensures ReadEntry(EntryBytes(e)) == e
  {
    var b := EntryBytes(e);
    assert b[0] == e.lanIp.b0 && b[1] == e.lanIp.b1 && b[2] == e.lanIp.b2 && b[3] == e.lanIp.b3;
    assert b[6] == e.publicIp.b0 && b[7] == e.publicIp.b1 && b[8] == e.publicIp.b2 && b[9] == e.publicIp.b3;
    assert b[12] == e.dstIp.b0 && b[13] == e.dstIp.b1 && b[14] == e.dstIp.b2 && b[15] == e.dstIp.b3;
  }

  /** Addresses lie in memory from the left, ports and words from the right, as the structures are packed. */
  lemma Layouts()
    ensures ExternBytes(ExternKey(Ip(1, 2, 3, 4), 0x0506, 0x0708, 9)) == [1, 2, 3, 4, 6, 5, 8, 7, 9]
    ensures InternBytes(InternKey(Ip(1, 2, 3, 4), 0x0506, 7)) == [1, 2, 3, 4, 6, 5, 7]
    ensures EntryBytes(Entry(Ip(1, 2, 3, 4), 0x0506, Ip(7, 8, 9, 10), 0x0B0C, Ip(13, 14, 15, 16), 0x1112, 0x1314_1516))
      == [1, 2, 3, 4, 6, 5, 7, 8, 9, 10, 12, 11, 13, 14, 15, 16, 0x12, 0x11, 0, 0, 0x16, 0x15, 0x14, 0x13]
  {
    assert 0x1314_1516 % 0x1_0000 == 0x1516 && 0x1314_1516 / 0x1_0000 == 0x1314;
  }

  /** Distinct keys have distinct bytes. */
  lemma ExternBytesInjective(a: ExternKey, b: ExternKey)
    requires ExternBytes(a) == ExternBytes(b)
    ensures a == b
  {
    var x, y := ExternBytes(a), ExternBytes(b);
    assert ReadIp(x, 0) == a.ipDst && ReadIp(y, 0) == b.ipDst;
    assert ReadWord(x, 4) == a.portSrc && ReadWord(y, 4) == b.portSrc;
    assert ReadWord(x, 6) == a.portDst && ReadWord(y, 6) == b.portDst;
    assert x[8] == a.protocol && y[8] == b.protocol;
  }

  lemma InternBytesInjective(a: InternKey, b: InternKey)
    requires InternBytes(a) == InternBytes(b)
    ensures a == b
  {
    var x, y := InternBytes(a), InternBytes(b);
    assert ReadIp(x, 0) == a.ipSrc && ReadIp(y, 0) == b.ipSrc;
    assert ReadWord(x, 4) == a.portSrc && ReadWord(y, 4) == b.portSrc;
    assert x[6] == a.protocol && y[6] == b.protocol;
  }

  // ---------------------------------------------------------------- one table

  ghost predicate Encoding<K(!new)>(encode: K -> seq<byte>, width: nat) {
    && (forall k :: |encode(k)| == width)
    && (forall a, b :: encode(a) == encode(b) ==> a == b)
  }

  lemma ExternEncoding()
    ensures Encoding(ExternBytes, 9)
  {
    forall a, b | ExternBytes(a) == ExternBytes(b)
      ensures a == b
    {
      ExternBytesInjective(a, b);
    }
  }

  lemma InternEncoding()
    ensures Encoding(InternBytes, 7)
  {
    forall a, b | InternBytes(a) == InternBytes(b)
      ensures a == b
    {
      InternBytesInjective(a, b);
    }
  }

  /** The byte map holds exactly the encoded pairs of the typed map. */
  ghost predicate Encodes<K(!new)>(bytes: map<seq<byte>, seq<byte>>, view: map<K, Entry>, encode: K -> seq<byte>) {
    && (forall k :: k in view ==> encode(k) in bytes && bytes[encode(k)] == EntryBytes(view[k]))
    && (forall k :: encode(k) in bytes ==> k in view)
  }

  lemma EncodesInsert<K(!new)>(bytes: map<seq<byte>, seq<byte>>, view: map<K, Entry>, encode: K -> seq<byte>,
                               width: nat, key: K, e: Entry)
    requires Encoding(encode, width) && Encodes(bytes, view, encode)
    ensures Encodes(bytes[encode(key) := EntryBytes(e)], view[key := e], encode)
  {
  }

  class EntryTable<K(==,!new)> {
    const store: HashMap
    const encode: K -> seq<byte>
    const width: nat

    ghost var view: map<K, Entry>

    ghost predicate Valid()
      reads this, store, store.data
    {
      && store.Valid() && NoGraves(store.slots)
      && store.sizeKey == width && store.sizeValue == ENTRY_SIZE
      && Encoding(encode, width)
      && Encodes(store.Map(), view, encode)
    }

    constructor (encode: K -> seq<byte>, width: nat)
      requires Encoding(encode, width)
      ensures Valid() && view == map[] && fresh(store) && fresh(store.data)
    {
      this.encode, this.width := encode, width;
      store := new HashMap(HashBytes, width, ENTRY_SIZE);
      view := map[];
    }

    /** `hashmap_get` followed by reading the entry's fields. */
    method Lookup(key: K) returns (r: Option<Entry>)
      requires Valid()
      ensures r == if key in view then Some(view[key]) else None
    {
      EmptyFromLoad(store.hash, store.slots);
      var bytes := store.Get(encode(key));
      if bytes.None? {
        return None;
      }
      EntryRoundTrip(view[key]);
      return Some(ReadEntry(bytes.value));
    }

    /** `hashmap_insert` of a key that is not there. */
    method Insert(key: K, e: Entry)
      requires Valid() && key !in view
      modifies this, store, store.data
      ensures Valid() && view == old(view)[key := e]
      ensures store.data == old(store.data) || fresh(store.data)
    {
      EncodesInsert(store.Map(), view, encode, width, key, e);
      store.Insert(encode(key), EntryBytes(e));
      view := view[key := e];
    }
  }

  // ---------------------------------------------------------------- both tables

  class NaptState {
    const extern: EntryTable<ExternKey>
    const intern: EntryTable<InternKey>

    ghost predicate Valid()
      reads this, extern, extern.store, extern.store.data, intern, intern.store, intern.store.data
    {
      && extern.Valid() && intern.Valid()
      && extern.store != intern.store && extern.store.data != intern.store.data
    }

    ghost function View(): (t: Tables)
      reads this, extern, intern
    {
      Tables(extern.view, intern.view)
    }

    /** `napt_init`. */
    constructor ()
      ensures Valid() && View() == EMPTY_TABLES
    {
      ExternEncoding();
      InternEncoding();
      extern := new EntryTable(ExternBytes, 9);
      intern := new EntryTable(InternBytes, 7);
    }

    /** The table work of `napt_out_handle`; `draws` are the values of `rand()`. */
    method OutPort(flow: Flow, publicIp: Ip, draws: seq<nat>) returns (port: Option<u16>)
      requires Valid() && |draws| == ATTEMPTS
      modifies extern, extern.store, extern.store.data, intern, intern.store, intern.store.data
      ensures Valid() && (View(), port) == Out(old(View()), flow, publicIp, draws)
      ensures extern.store.data == old(extern.store.data) || fresh(extern.store.data)
      ensures intern.store.data == old(intern.store.data) || fresh(intern.store.data)
    {
      var existing := intern.Lookup(flow.lan);
      if existing.Some? {
        return Some(existing.value.publicPort);
      }
      port := PickPort(flow, draws);
      if port.Some? {
        AddMapping(flow, publicIp, port.value);
      }
    }

    /** The loop over at most ten random ports. */
    method PickPort(flow: Flow, draws: seq<nat>) returns (port: Option<u16>)
      requires Valid() && |draws| == ATTEMPTS
      ensures port == FreePort(View(), flow, draws, 0)
    {
      ghost var t := View();
      var attempts := 0;
      while attempts < 10
        invariant attempts <= ATTEMPTS
        invariant FreePort(t, flow, draws, 0) == FreePort(t, flow, draws, attempts)
        modifies {}
      {
        var candidate := PublicPort(draws[attempts]);
        var taken := extern.Lookup(ExternOf(flow, candidate));
        if taken.None? {
          return Some(candidate);
        }
        attempts := attempts + 1;
      }
      return None;
    }

    method AddMapping(flow: Flow, publicIp: Ip, port: u16)
      requires Valid() && flow.lan !in intern.view && ExternOf(flow, port) !in extern.view
      modifies extern, extern.store, extern.store.data, intern, intern.store, intern.store.data
      ensures Valid() && View() == WithMapping(old(View()), flow, publicIp, port)
      ensures extern.store.data == old(extern.store.data) || fresh(extern.store.data)
      ensures intern.store.data == old(intern.store.data) || fresh(intern.store.data)
    {
      var value := Entry(flow.lan.ipSrc, flow.lan.portSrc, publicIp, port, flow.dstIp, flow.dstPort, 0);
      AddExtern(ExternOf(flow, port), value);
      AddIntern(flow.lan, value);
    }

    method AddExtern(key: ExternKey, value: Entry)
      requires Valid() && key !in extern.view
      modifies extern, extern.store, extern.store.data
      ensures Valid() && View() == old(View()).(extern := old(extern.view)[key := value])
      ensures extern.store.data == old(extern.store.data) || fresh(extern.store.data)
    {
      extern.Insert(key, value);
    }

    method AddIntern(key: InternKey, value: Entry)
      requires Valid() && key !in intern.view
      modifies intern, intern.store, intern.store.data
      ensures Valid() && View() == old(View()).(intern := old(intern.view)[key := value])
      ensures intern.store.data == old(intern.store.data) || fresh(intern.store.data)
    {
      intern.Insert(key, value);
    }

    /** The table work of `napt_inc_handle`. */
    method InEndpoint(srcIp: Ip, srcPort: u16, dstPort: u16, protocol: byte) returns (lan: Option<InternKey>)
      requires Valid()
      ensures lan == In(View(), srcIp, srcPort, dstPort, protocol)
    {
      var entry := extern.Lookup(ExternKey(srcIp, dstPort, srcPort, protocol));
      if entry.None? {
        return None;
      }
      return Some(InternKey(entry.value.lanIp, entry.value.lanPort, protocol));
    }
  }
}
