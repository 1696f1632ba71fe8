/**
 * The two NAPT tables under `hashmap_insert` to the letter, growth included, against the tables that are
 * meant.
 */
module NaptGrowth {
  import opened Net
  import opened FlatLayout
  import opened ProbeTable
  import opened CyclicHash
  import opened CodedGrowth
  import opened Napt
  import opened NaptTables

  /** The slots of `napt_extern_hashmap` and `napt_intern_hashmap`. */
  datatype CodedTables = CodedTables(extern: seq<Slot>, intern: seq<Slot>)

  /** `napt_init`. */
  function NewTables(): (c: CodedTables)
  {
    CodedTables(Blank(SIZE_INIT, 9, ENTRY_SIZE), Blank(SIZE_INIT, 7, ENTRY_SIZE))
  }

  predicate Usable(c: CodedTables) {
    Loaded(c.extern) && Loaded(c.intern)
  }

  /** The loop over the ten drawn ports. */
  function CodedFreePort(c: CodedTables, flow: Flow, draws: seq<nat>, i: nat): (port: Option<u16>)
    requires Usable(c) && |draws| == ATTEMPTS && i <= ATTEMPTS
    decreases ATTEMPTS - i
  {
    if i == ATTEMPTS then None
    else if Find(HashBytes, c.extern, ExternBytes(ExternOf(flow, PublicPort(draws[i])))) == None
    then Some(PublicPort(draws[i]))
    else CodedFreePort(c, flow, draws, i + 1)
  }

  /** Both insertions. */
  function CodedMapping(c: CodedTables, flow: Flow, publicIp: Ip, port: u16): (r: CodedTables)
    requires Usable(c)
    ensures Usable(r)
  {
    var value := EntryBytes(EntryOf(flow, publicIp, port));
    InsertedKeepsLoad(HashBytes, c.extern, ExternBytes(ExternOf(flow, port)), value);
    InsertedKeepsLoad(HashBytes, c.intern, InternBytes(flow.lan), value);
    CodedTables(
      InsertedAsCoded(HashBytes, c.extern, ExternBytes(ExternOf(flow, port)), value),
      InsertedAsCoded(HashBytes, c.intern, InternBytes(flow.lan), value))
  }

  /** The table part of `napt_out_handle` on these tables. */
  function CodedOut(c: CodedTables, flow: Flow, publicIp: Ip, draws: seq<nat>): (r: CodedTables)
    requires Usable(c) && |draws| == ATTEMPTS
    ensures Usable(r)
  {
    if Find(HashBytes, c.intern, InternBytes(flow.lan)).Some? then c
    else
      match CodedFreePort(c, flow, draws, 0)
      case None => c
      case Some(port) => CodedMapping(c, flow, publicIp, port)
  }

  function CodedAfter(c: CodedTables, publicIp: Ip, run: seq<Sent>): (r: CodedTables)
    requires Usable(c) && Drawable(run)
    ensures Usable(r)
    decreases |run|
  {
    if run == [] then c
    else
      assert |run[0].draws| == ATTEMPTS;
      CodedAfter(CodedOut(c, run[0].flow, publicIp, run[0].draws), publicIp, run[1..])
  }

  /** The bytes in the tables are exactly the encoded pairs of the tables that are meant. */
  ghost predicate Agree(c: CodedTables, t: Tables) {
    && Encodes(Contents(c.extern), t.extern, ExternBytes)
    && Encodes(Contents(c.intern), t.intern, InternBytes)
  }

  // ---------------------------------------------------------------- before the sixth mapping

  /** A table that has not grown yet. */
  predicate NotGrown(slots: seq<Slot>, count: nat) {
    GoodTable(HashBytes, slots) && Loaded(slots) && |slots| == SIZE_INIT && TakenCount(slots) == count
  }

  ghost predicate SmallExtern(slots: seq<Slot>, view: map<ExternKey, Entry>, count: nat) {
    NotGrown(slots, count) && Encodes(Contents(slots), view, ExternBytes)
  }

  ghost predicate SmallIntern(slots: seq<Slot>, view: map<InternKey, Entry>, count: nat) {
    NotGrown(slots, count) && Encodes(Contents(slots), view, InternBytes)
  }

  /** Neither table has grown yet, and all is well. */
  ghost predicate Small(c: CodedTables, t: Tables) {
    SmallExtern(c.extern, t.extern, |t.intern|) && SmallIntern(c.intern, t.intern, |t.intern|)
  }

  lemma NewTablesAreSmall()
    ensures Usable(NewTables()) && Small(NewTables(), EMPTY_TABLES)
  {
    EmptyTable(HashBytes, NewTables().extern);
    EmptyTable(HashBytes, NewTables().intern);
  }

  lemma ExternFind(c: CodedTables, t: Tables, k: ExternKey)
    requires Small(c, t)
    ensures Find(HashBytes, c.extern, ExternBytes(k)) == None <==> k !in t.extern
  {
    FindIs(HashBytes, c.extern, ExternBytes(k));
  }

  lemma InternFind(c: CodedTables, t: Tables, k: InternKey)
    requires Small(c, t)
    ensures Find(HashBytes, c.intern, InternBytes(k)) == None <==> k !in t.intern
  {
    FindIs(HashBytes, c.intern, InternBytes(k));
  }

  /** Lookups in the external table tell what is in it. */
  predicate SeesExtern(c: CodedTables, t: Tables, flow: Flow, draws: seq<nat>)
    requires Usable(c) && |draws| == ATTEMPTS
  {
    forall i :: 0 <= i < ATTEMPTS ==>
      var k := ExternOf(flow, PublicPort(draws[i]));
      Find(HashBytes, c.extern, ExternBytes(k)) == None <==> k !in t.extern
  }

  lemma {:induction false} SamePort(c: CodedTables, t: Tables, flow: Flow, draws: seq<nat>, i: nat)
    requires Usable(c) && |draws| == ATTEMPTS && i <= ATTEMPTS && SeesExtern(c, t, flow, draws)
    ensures CodedFreePort(c, flow, draws, i) == FreePort(t, flow, draws, i)
    decreases ATTEMPTS - i
  {
    if i < ATTEMPTS {
      SamePort(c, t, flow, draws, i + 1);
    }
  }

  lemma TableGrows(slots: seq<Slot>, key: seq<byte>, value: seq<byte>, count: nat)
    requires NotGrown(slots, count) && count < 5 && key !in Contents(slots)
    ensures NotGrown(InsertedAsCoded(HashBytes, slots, key, value), count + 1)
    ensures Contents(InsertedAsCoded(HashBytes, slots, key, value)) == Contents(slots)[key := value]
  {
    InsertedBelowHalf(HashBytes, slots, key, value);
    InsertedKeepsLoad(HashBytes, slots, key, value);
  }

  lemma ExternGrows(slots: seq<Slot>, view: map<ExternKey, Entry>, count: nat, key: ExternKey, e: Entry)
    requires SmallExtern(slots, view, count) && count < 5 && key !in view
    ensures SmallExtern(InsertedAsCoded(HashBytes, slots, ExternBytes(key), EntryBytes(e)), view[key := e], count + 1)
  {
    TableGrows(slots, ExternBytes(key), EntryBytes(e), count);
    ExternEncoding();
    EncodesInsert(Contents(slots), view, ExternBytes, 9, key, e);
  }

  lemma InternGrows(slots: seq<Slot>, view: map<InternKey, Entry>, count: nat, key: InternKey, e: Entry)
    requires SmallIntern(slots, view, count) && count < 5 && key !in view
    ensures SmallIntern(InsertedAsCoded(HashBytes, slots, InternBytes(key), EntryBytes(e)), view[key := e], count + 1)
  {
    TableGrows(slots, InternBytes(key), EntryBytes(e), count);
    InternEncoding();
    EncodesInsert(Contents(slots), view, InternBytes, 7, key, e);
  }

  lemma SmallGrowsBy(c: CodedTables, t: Tables, flow: Flow, publicIp: Ip, port: u16)
    requires Small(c, t) && |t.intern| < 5 && flow.lan !in t.intern && ExternOf(flow, port) !in t.extern
    ensures Small(CodedMapping(c, flow, publicIp, port), WithMapping(t, flow, publicIp, port))
  {
    var e := EntryOf(flow, publicIp, port);
    var m, r := CodedMapping(c, flow, publicIp, port), WithMapping(t, flow, publicIp, port);
    assert |r.intern| == |t.intern| + 1;
    assert SmallExtern(m.extern, r.extern, |r.intern|) by {
      ExternGrows(c.extern, t.extern, |t.intern|, ExternOf(flow, port), e);
    }
    assert SmallIntern(m.intern, r.intern, |r.intern|) by {
      InternGrows(c.intern, t.intern, |t.intern|, flow.lan, e);
    }
  }

  // ---------------------------------------------------------------- from the sixth mapping on

  /** The external table has grown: it holds a key that no packet has. */
  predicate Broken(c: CodedTables) {
    Usable(c) && HasZero(c.extern, 9)
  }

  const ZERO_KEY := ExternKey(ZERO_IP, 0, 0, 0)

  lemma ZeroKeyBytes()
    ensures ExternBytes(ZERO_KEY) == Zeros(9)
  {
  }

  lemma SixthBreaks(c: CodedTables, t: Tables, flow: Flow, publicIp: Ip, port: u16)
    requires Small(c, t) && |t.intern| == 5
    ensures Broken(CodedMapping(c, flow, publicIp, port))
  {
    InsertedKeepsLoad(HashBytes, c.extern, ExternBytes(ExternOf(flow, port)),
                      EntryBytes(EntryOf(flow, publicIp, port)));
  }

  lemma SmallSeesExtern(c: CodedTables, t: Tables, flow: Flow, draws: seq<nat>)
    requires Small(c, t) && |draws| == ATTEMPTS
    ensures SeesExtern(c, t, flow, draws)
  {
    forall i | 0 <= i < ATTEMPTS
      ensures var k := ExternOf(flow, PublicPort(draws[i]));
        Find(HashBytes, c.extern, ExternBytes(k)) == None <==> k !in t.extern
    {
      ExternFind(c, t, ExternOf(flow, PublicPort(draws[i])));
    }
  }

  /** Small tables are mapped in exactly when they are meant to be. */
  lemma SmallOut(c: CodedTables, t: Tables, flow: Flow, publicIp: Ip, draws: seq<nat>)
    requires Small(c, t) && |draws| == ATTEMPTS
    ensures CodedOut(c, flow, publicIp, draws) ==
      if flow.lan in t.intern || FreePort(t, flow, draws, 0) == None then c
      else CodedMapping(c, flow, publicIp, FreePort(t, flow, draws, 0).value)
  {
    InternFind(c, t, flow.lan);
    SmallSeesExtern(c, t, flow, draws);
    SamePort(c, t, flow, draws, 0);
  }

  /** One outgoing packet: small tables stay small until the sixth mapping, which breaks them. */
  lemma CodedOutStep(c: CodedTables, t: Tables, flow: Flow, publicIp: Ip, draws: seq<nat>)
    requires Small(c, t) && |t.intern| <= 5 && |draws| == ATTEMPTS
    ensures var next, r := CodedOut(c, flow, publicIp, draws), Out(t, flow, publicIp, draws).0;
      if |r.intern| <= 5 then Small(next, r) else Broken(next)
  {
    SmallOut(c, t, flow, publicIp, draws);
    if flow.lan !in t.intern {
      var port := FreePort(t, flow, draws, 0);
      if port.Some? {
        assert |WithMapping(t, flow, publicIp, port.value).intern| == |t.intern| + 1;
        if |t.intern| < 5 {
          SmallGrowsBy(c, t, flow, publicIp, port.value);
        } else {
          SixthBreaks(c, t, flow, publicIp, port.value);
        }
      }
    }
  }

  lemma BrokenStays(c: CodedTables, flow: Flow, publicIp: Ip, draws: seq<nat>)
    requires Broken(c) && |draws| == ATTEMPTS
    ensures Broken(CodedOut(c, flow, publicIp, draws))
  {
    var port := CodedFreePort(c, flow, draws, 0);
    if port.Some? {
      InsertedKeepsLoad(HashBytes, c.extern, ExternBytes(ExternOf(flow, port.value)),
                        EntryBytes(EntryOf(flow, publicIp, port.value)));
    }
  }

  /** No mapping that is meant has the zero key: its public port would be 0. */
  lemma {:induction false} NoZeroKey(t: Tables, publicIp: Ip, run: seq<Sent>)
    requires Drawable(run) && ZERO_KEY !in t.extern
    ensures ZERO_KEY !in After(t, publicIp, run).extern
    decreases |run|
  {
    if run != [] {
      NoZeroKey(Out(t, run[0].flow, publicIp, run[0].draws).0, publicIp, run[1..]);
    }
  }

  lemma BrokenDisagrees(c: CodedTables, t: Tables)
    requires Broken(c) && ZERO_KEY !in t.extern
    ensures !Agree(c, t)
  {
    var i :| 0 <= i < |c.extern| && HoldsKey(c.extern, Zeros(9), i);
    ZeroKeyBytes();
    assert Zeros(9) in Keys(c.extern);
    assert ExternBytes(ZERO_KEY) in Contents(c.extern);
  }

  lemma MappingsOnlyGrow(t: Tables, flow: Flow, publicIp: Ip, draws: seq<nat>)
    requires |draws| == ATTEMPTS
    ensures |t.intern| <= |Out(t, flow, publicIp, draws).0.intern|
  {
  }

  /** How a run ends: with small tables, or with a broken external one and more than five mappings. */
  ghost predicate EndsWell(c: CodedTables, t: Tables) {
    if |t.intern| <= 5 then Small(c, t) else Broken(c)
  }

  /** What every outgoing packet keeps holds after a run. */
  lemma {:induction false} RunKeeps(inv: (CodedTables, Tables) -> bool, c: CodedTables, t: Tables,
                                    publicIp: Ip, run: seq<Sent>)
    requires forall c, t, flow, draws :: Usable(c) && |draws| == ATTEMPTS && inv(c, t) ==>
      inv(CodedOut(c, flow, publicIp, draws), Out(t, flow, publicIp, draws).0)
    requires Usable(c) && inv(c, t) && Drawable(run)
    ensures inv(CodedAfter(c, publicIp, run), After(t, publicIp, run))
    decreases |run|
  {
    if run != [] {
      RunKeeps(inv, CodedOut(c, run[0].flow, publicIp, run[0].draws), Out(t, run[0].flow, publicIp, run[0].draws).0,
               publicIp, run[1..]);
    }
  }

  lemma RunEndsWell(c: CodedTables, t: Tables, publicIp: Ip, run: seq<Sent>)
    requires Usable(c) && EndsWell(c, t) && Drawable(run)
    ensures EndsWell(CodedAfter(c, publicIp, run), After(t, publicIp, run))
  {
    forall c, t, flow, draws | Usable(c) && |draws| == ATTEMPTS && EndsWell(c, t)
      ensures EndsWell(CodedOut(c, flow, publicIp, draws), Out(t, flow, publicIp, draws).0)
    {
      OutEndsWell(c, t, flow, publicIp, draws);
    }
    RunKeeps((c, t) => EndsWell(c, t), c, t, publicIp, run);
  }

  lemma OutEndsWell(c: CodedTables, t: Tables, flow: Flow, publicIp: Ip, draws: seq<nat>)
    requires Usable(c) && EndsWell(c, t) && |draws| == ATTEMPTS
    ensures EndsWell(CodedOut(c, flow, publicIp, draws), Out(t, flow, publicIp, draws).0)
  {
    if |t.intern| <= 5 {
      CodedOutStep(c, t, flow, publicIp, draws);
    } else {
      BrokenStays(c, flow, publicIp, draws);
      MappingsOnlyGrow(t, flow, publicIp, draws);
    }
  }

  /**
   * From the start, whatever is sent and drawn, the tables to the letter are the tables that are meant if
   * and only if at most five mappings were to be created.
   */
  lemma CodedTablesAgreeIff(publicIp: Ip, run: seq<Sent>)
    requires Drawable(run)
    ensures Usable(NewTables())
    ensures Agree(CodedAfter(NewTables(), publicIp, run), After(EMPTY_TABLES, publicIp, run))
      <==> |After(EMPTY_TABLES, publicIp, run).intern| <= 5
  {
    NewTablesAreSmall();
    RunEndsWell(NewTables(), EMPTY_TABLES, publicIp, run);
    NoZeroKey(EMPTY_TABLES, publicIp, run);
    if |After(EMPTY_TABLES, publicIp, run).intern| > 5 {
      BrokenDisagrees(CodedAfter(NewTables(), publicIp, run), After(EMPTY_TABLES, publicIp, run));
    }
  }
}
