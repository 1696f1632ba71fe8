/**
 * `hashmap_insert` and `hashmap_grow` to the letter, as functions on slots: growth visits only the whole
 * tag bytes of the old block and inserts a zero key and a zero value for each taken slot that it sees.
 */
module CodedGrowth {
  import opened Net
  import opened FlatLayout
  import opened ProbeTable

  const SIZE_INIT := 11

  predicate AllTaken(slots: seq<Slot>, h: nat, d: nat)
    requires h < |slots| && d <= |slots|
  {
    forall e :: 0 <= e < d ==> slots[Wrap(h, e, |slots|)].tag == TAKEN
  }

  /** Every slot's bytes are zero. */
  predicate OnlyZeros(slots: seq<Slot>, sizeKey: nat, sizeValue: nat) {
    forall i :: 0 <= i < |slots| ==> slots[i].key == Zeros(sizeKey) && slots[i].value == Zeros(sizeValue)
  }

  /** The first step from `d` on at which the slot is free. */
  function FreeFrom(slots: seq<Slot>, h: nat, d: nat): (e: nat)
    requires h < |slots| && d <= |slots|
    ensures d <= e <= |slots| && (e < |slots| ==> slots[Wrap(h, e, |slots|)].tag != TAKEN)
    decreases |slots| - d
  {
    if d == |slots| || slots[Wrap(h, d, |slots|)].tag != TAKEN then d else FreeFrom(slots, h, d + 1)
  }

  lemma {:induction false} FreeFromIs(slots: seq<Slot>, h: nat, d: nat, e: nat)
    requires h < |slots| && d <= e < |slots| && AllTaken(slots, h, e)
    requires slots[Wrap(h, e, |slots|)].tag != TAKEN
    ensures FreeFrom(slots, h, d) == e
    decreases e - d
  {
    if d < e {
      FreeFromIs(slots, h, d + 1, e);
    }
  }

  /** The probing loop of `hashmap_insert` and its stores, whatever keys the table holds. */
  function Placed(hash: Hash, slots: seq<Slot>, key: seq<byte>, value: seq<byte>): (r: seq<Slot>)
    requires |slots| > 0
    ensures |r| == |slots|
  {
    var h := Home(hash, key, |slots|);
    var d := FreeFrom(slots, h, 0);
    if d == |slots| then slots else slots[Wrap(h, d, |slots|) := Slot(TAKEN, key, value)]
  }

  function Blank(n: nat, sizeKey: nat, sizeValue: nat): (slots: seq<Slot>)
    ensures |slots| == n
  {
    seq(n, _ => Slot(EMPTY, Zeros(sizeKey), Zeros(sizeValue)))
  }

  /** A new block of `n` slots after growth has visited the first `m` old slots. */
  function ZeroCopies(hash: Hash, was: seq<Slot>, m: nat, n: nat, sizeKey: nat, sizeValue: nat): (r: seq<Slot>)
    requires m <= |was| && n > 0
    ensures |r| == n
  {
    if m == 0 then Blank(n, sizeKey, sizeValue)
    else
      var r := ZeroCopies(hash, was, m - 1, n, sizeKey, sizeValue);
      if was[m - 1].tag == TAKEN then Placed(hash, r, Zeros(sizeKey), Zeros(sizeValue)) else r
  }

  /** How many of `n` slots have their tag in a whole byte. */
  function Visited(n: nat): (m: nat)
    ensures n - 3 <= m <= n && m % 4 == 0
  {
    n / 4 * 4
  }

  function GrownAsCoded(hash: Hash, was: seq<Slot>, sizeKey: nat, sizeValue: nat): (r: seq<Slot>)
    ensures |r| == |was| * 2 + 1
  {
    ZeroCopies(hash, was, Visited(|was|), |was| * 2 + 1, sizeKey, sizeValue)
  }

  function InsertedAsCoded(hash: Hash, slots: seq<Slot>, key: seq<byte>, value: seq<byte>): (r: seq<Slot>)
    requires |slots| > 0
    ensures |r| > 0
  {
    Placed(hash, RoomAsCoded(hash, slots, |key|, |value|), key, value)
  }

  /** The table in which the insertion takes place. */
  function RoomAsCoded(hash: Hash, slots: seq<Slot>, sizeKey: nat, sizeValue: nat): (r: seq<Slot>)
    requires |slots| > 0
    ensures |r| > 0
  {
    if TakenCount(slots) >= |slots| / 2 then GrownAsCoded(hash, slots, sizeKey, sizeValue) else slots
  }

  // ---------------------------------------------------------------- what insertion to the letter keeps

  /** No removals, and a load of at most one half: what holds in every table that is only inserted into. */
  predicate Loaded(slots: seq<Slot>) {
    |slots| >= SIZE_INIT && NoHoles(slots) && TakenCount(slots) <= |slots| / 2
  }

  predicate NoHoles(slots: seq<Slot>) {
    forall i :: 0 <= i < |slots| ==> slots[i].tag == EMPTY || slots[i].tag == TAKEN
  }

  lemma {:induction false} SomeFree(slots: seq<Slot>, h: nat)
    requires h < |slots| && TakenCount(slots) < |slots|
    ensures FreeFrom(slots, h, 0) < |slots|
  {
    SomeSlotFree(slots);
    var i :| 0 <= i < |slots| && slots[i].tag != TAKEN;
    FreeBefore(slots, h, 0, Dist(h, i, |slots|));
  }

  lemma {:induction false} FreeBefore(slots: seq<Slot>, h: nat, d: nat, e: nat)
    requires h < |slots| && d <= e < |slots| && slots[Wrap(h, e, |slots|)].tag != TAKEN
    ensures FreeFrom(slots, h, d) <= e
    decreases e - d
  {
    if d < e && slots[Wrap(h, d, |slots|)].tag == TAKEN {
      FreeBefore(slots, h, d + 1, e);
    }
  }

  /** One more taken slot, and nothing that was taken is overwritten. */
  lemma PlacedKeeps(hash: Hash, slots: seq<Slot>, key: seq<byte>, value: seq<byte>) returns (i: nat)
    requires |slots| > 0 && TakenCount(slots) < |slots|
    ensures i < |slots| && slots[i].tag != TAKEN
    ensures Placed(hash, slots, key, value) == slots[i := Slot(TAKEN, key, value)]
    ensures TakenCount(Placed(hash, slots, key, value)) == TakenCount(slots) + 1
  {
    var h := Home(hash, key, |slots|);
    SomeFree(slots, h);
    i := Wrap(h, FreeFrom(slots, h, 0), |slots|);
    CountTagUpdate(slots, i, Slot(TAKEN, key, value), TAKEN);
  }

  lemma {:induction false} BlankIsEmpty(n: nat, sizeKey: nat, sizeValue: nat)
    ensures TakenCount(Blank(n, sizeKey, sizeValue)) == 0
  {
    NothingTaken(Blank(n, sizeKey, sizeValue));
  }

  /** Growth to the letter leaves zeros only, as many as it saw taken slots. */
  lemma {:induction false} ZeroCopiesAre(hash: Hash, was: seq<Slot>, m: nat, n: nat, sizeKey: nat, sizeValue: nat)
    requires m <= |was| < n
    ensures var r := ZeroCopies(hash, was, m, n, sizeKey, sizeValue);
      OnlyZeros(r, sizeKey, sizeValue) && NoHoles(r) && TakenCount(r) == TakenCount(was[..m])
  {
    if m == 0 {
      assert was[..0] == [];
      BlankIsEmpty(n, sizeKey, sizeValue);
    } else {
      ZeroCopiesAre(hash, was, m - 1, n, sizeKey, sizeValue);
      PrefixCount(was, m - 1);
      var r := ZeroCopies(hash, was, m - 1, n, sizeKey, sizeValue);
      if was[m - 1].tag == TAKEN {
        var i := PlacedKeeps(hash, r, Zeros(sizeKey), Zeros(sizeValue));
      }
    }
  }

  lemma GrownIs(hash: Hash, was: seq<Slot>, sizeKey: nat, sizeValue: nat)
    ensures var r := GrownAsCoded(hash, was, sizeKey, sizeValue);
      OnlyZeros(r, sizeKey, sizeValue) && NoHoles(r) && TakenCount(r) == TakenCount(was[..Visited(|was|)])
  {
    ZeroCopiesAre(hash, was, Visited(|was|), |was| * 2 + 1, sizeKey, sizeValue);
  }

  lemma {:induction false} PrefixCount(slots: seq<Slot>, m: nat)
    requires m < |slots|
    ensures TakenCount(slots[..m + 1]) == TakenCount(slots[..m]) + if slots[m].tag == TAKEN then 1 else 0
  {
    if m == 0 {
      assert slots[..1] == [slots[0]] && slots[..0] == [];
      assert slots[..1][1..] == [];
    } else {
      assert slots[..m + 1][1..] == slots[1..][..m] && slots[..m][1..] == slots[1..][..m - 1];
      PrefixCount(slots[1..], m - 1);
    }
  }

  /** Of the taken slots at most those behind the prefix are not seen. */
  lemma {:induction false} PrefixSees(slots: seq<Slot>, m: nat)
    requires m <= |slots|
    ensures TakenCount(slots) - (|slots| - m) <= TakenCount(slots[..m]) <= m
    decreases |slots| - m
  {
    if m == |slots| {
      assert slots[..m] == slots;
    } else {
      PrefixSees(slots, m + 1);
      PrefixCount(slots, m);
    }
  }

  /** Some taken slot holds the zero key. */
  predicate HasZero(slots: seq<Slot>, sizeKey: nat) {
    exists i :: 0 <= i < |slots| && HoldsKey(slots, Zeros(sizeKey), i)
  }

  lemma {:induction false} SomeTaken(slots: seq<Slot>) returns (i: nat)
    requires TakenCount(slots) > 0
    ensures i < |slots| && slots[i].tag == TAKEN
  {
    if slots[0].tag == TAKEN {
      i := 0;
    } else {
      i := SomeTaken(slots[1..]);
      i := i + 1;
    }
  }

  /** A table that grew to the letter holds the zero key. */
  lemma GrownHasZero(hash: Hash, slots: seq<Slot>, sizeKey: nat, sizeValue: nat)
    requires Loaded(slots) && TakenCount(slots) >= |slots| / 2
    ensures var r := GrownAsCoded(hash, slots, sizeKey, sizeValue);
      && HasZero(r, sizeKey) && NoHoles(r) && OnlyZeros(r, sizeKey, sizeValue)
      && 0 < TakenCount(r) <= |slots| / 2
  {
    var n, m := |slots|, Visited(|slots|);
    var r := GrownAsCoded(hash, slots, sizeKey, sizeValue);
    ZeroCopiesAre(hash, slots, m, n * 2 + 1, sizeKey, sizeValue);
    PrefixSees(slots, m);
    PrefixTakesLess(slots, m);
    var i := SomeTaken(r);
    assert HoldsKey(r, Zeros(sizeKey), i);
  }

  lemma {:induction false} PrefixTakesLess(slots: seq<Slot>, m: nat)
    requires m <= |slots|
    ensures TakenCount(slots[..m]) <= TakenCount(slots)
    decreases |slots| - m
  {
    if m == |slots| {
      assert slots[..m] == slots;
    } else {
      PrefixTakesLess(slots, m + 1);
      PrefixCount(slots, m);
    }
  }

  /** Insertion to the letter keeps the load, and the zero key once it is there. */
  lemma InsertedKeepsLoad(hash: Hash, slots: seq<Slot>, key: seq<byte>, value: seq<byte>)
    requires Loaded(slots)
    ensures Loaded(InsertedAsCoded(hash, slots, key, value))
    ensures TakenCount(slots) >= |slots| / 2 || HasZero(slots, |key|) ==>
      HasZero(InsertedAsCoded(hash, slots, key, value), |key|)
  {
    var room := RoomAsCoded(hash, slots, |key|, |value|);
    if TakenCount(slots) >= |slots| / 2 {
      GrownHasZero(hash, slots, |key|, |value|);
    }
    var i := PlacedKeeps(hash, room, key, value);
    if HasZero(room, |key|) {
      var z :| 0 <= z < |room| && HoldsKey(room, Zeros(|key|), z);
      assert HoldsKey(InsertedAsCoded(hash, slots, key, value), Zeros(|key|), z);
    }
  }

  // ---------------------------------------------------------------- lookups

  /** `hashmap_get`, whatever the table holds; `None` also where the search would not end. */
  function FindFrom(slots: seq<Slot>, key: seq<byte>, h: nat, d: nat): (value: Option<seq<byte>>)
    requires h < |slots| && d <= |slots|
    decreases |slots| - d
  {
    if d == |slots| then None
    else
      var i := Wrap(h, d, |slots|);
      match VerdictOn(slots, key, i)
      case Absent => None
      case Here => Some(slots[i].value)
      case Further => FindFrom(slots, key, h, d + 1)
  }

  function Find(hash: Hash, slots: seq<Slot>, key: seq<byte>): (value: Option<seq<byte>>)
    requires |slots| > 0
  {
    FindFrom(slots, key, Home(hash, key, |slots|), 0)
  }

  /** In a good table that is a lookup in its map. */
  lemma FindIs(hash: Hash, slots: seq<Slot>, key: seq<byte>)
    requires GoodTable(hash, slots)
    ensures Find(hash, slots, key) == if key in Contents(slots) then Some(Contents(slots)[key]) else None
  {
    FindFromIs(hash, slots, key, 0);
  }

  lemma {:induction false} FindFromIs(hash: Hash, slots: seq<Slot>, key: seq<byte>, d: nat)
    requires GoodTable(hash, slots) && d <= |slots|
    requires Passed(slots, key, Home(hash, key, |slots|), d)
    ensures FindFrom(slots, key, Home(hash, key, |slots|), d)
      == if key in Contents(slots) then Some(Contents(slots)[key]) else None
    decreases |slots| - d
  {
    var h := Home(hash, key, |slots|);
    if d == |slots| {
      SearchEndsIff(hash, slots, key);
    } else {
      var i := Wrap(h, d, |slots|);
      match VerdictOn(slots, key, i)
      case Absent => EmptyMeansAbsent(hash, slots, key, d);
      case Here => TakenInContents(slots, i);
      case Further => FindFromIs(hash, slots, key, d + 1);
    }
  }

  // ---------------------------------------------------------------- while nothing has grown

  /** Below half load insertion to the letter is insertion into the map. */
  lemma InsertedBelowHalf(hash: Hash, slots: seq<Slot>, key: seq<byte>, value: seq<byte>)
    requires GoodTable(hash, slots) && NoHoles(slots) && key !in Contents(slots)
    requires TakenCount(slots) < |slots| / 2
    ensures var r := InsertedAsCoded(hash, slots, key, value);
      && GoodTable(hash, r) && NoHoles(r) && |r| == |slots|
      && Contents(r) == Contents(slots)[key := value] && TakenCount(r) == TakenCount(slots) + 1
  {
    assert InsertedAsCoded(hash, slots, key, value) == Placed(hash, slots, key, value);
    PlacedIsInserted(hash, slots, key, value);
  }

  lemma PlacedIsInserted(hash: Hash, slots: seq<Slot>, key: seq<byte>, value: seq<byte>)
    requires GoodTable(hash, slots) && NoHoles(slots) && key !in Contents(slots) && TakenCount(slots) < |slots|
    ensures var r := Placed(hash, slots, key, value);
      && GoodTable(hash, r) && NoHoles(r) && |r| == |slots|
      && Contents(r) == Contents(slots)[key := value] && TakenCount(r) == TakenCount(slots) + 1
  {
    var h := Home(hash, key, |slots|);
    SomeFree(slots, h);
    FreeIsClear(slots, h);
    PlaceKeepsTable(hash, slots, key, value, FreeFrom(slots, h, 0));
    PlacedKeepsNoHoles(hash, slots, key, value);
  }

  lemma PlacedKeepsNoHoles(hash: Hash, slots: seq<Slot>, key: seq<byte>, value: seq<byte>)
    requires |slots| > 0 && NoHoles(slots)
    ensures NoHoles(Placed(hash, slots, key, value))
  {
  }

  lemma FreeIsClear(slots: seq<Slot>, h: nat)
    requires h < |slots|
    ensures PathClear(slots, h, FreeFrom(slots, h, 0))
  {
    TakenBefore(slots, h, 0);
  }

  lemma {:induction false} TakenBefore(slots: seq<Slot>, h: nat, d: nat)
    requires h < |slots| && d <= |slots|
    ensures forall e :: d <= e < FreeFrom(slots, h, d) ==> slots[Wrap(h, e, |slots|)].tag == TAKEN
    decreases |slots| - d
  {
    if d < |slots| && slots[Wrap(h, d, |slots|)].tag == TAKEN {
      TakenBefore(slots, h, d + 1);
    }
  }
}
