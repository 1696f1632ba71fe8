/**
 * `hashmap_remove` to the letter: for the key of slot `i` it looks at the sum of slot width and `i`
 * instead of their product, and its clean-up does not wrap.
 */
module CodedRemoval {
  import opened Net
  import opened FlatLayout
  import opened ProbeTable
  import opened UnwrappedCleanUp
  import opened CyclicHash
  import opened CodedGrowth

  /** The byte block of a table, and the slots that it holds. */
  datatype Block = Block(data: seq<byte>, slots: seq<Slot>, sizeKey: nat, sizeValue: nat)

  predicate Fits(b: Block) {
    && |b.slots| >= 2 && b.sizeKey > 0
    && Holds(b.data, |b.slots|, b.sizeKey, b.sizeValue, b.slots)
  }

  lemma ComparedInBlock(b: Block, i: nat)
    requires Fits(b) && i < |b.slots|
    ensures RemoveLooksAt(b.sizeKey + b.sizeValue, i) + b.sizeKey <= |b.data|
  {
    SpanAtLeast(b.sizeKey + b.sizeValue, |b.slots|, |b.slots| - 2);
  }

  /** The bytes that are compared with the key at slot `i`. */
  function Compared(b: Block, i: nat): (bytes: seq<byte>)
    requires Fits(b) && i < |b.slots|
  {
    ComparedInBlock(b, i);
    var p := RemoveLooksAt(b.sizeKey + b.sizeValue, i);
    b.data[p..p + b.sizeKey]
  }

  predicate Mistaken(b: Block, key: seq<byte>, i: nat)
    requires Fits(b) && i < |b.slots|
  {
    b.slots[i].tag == TAKEN && Compared(b, i) == key
  }

  function CodedVerdict(b: Block, key: seq<byte>, i: nat): (v: Verdict)
    requires Fits(b) && i < |b.slots|
  {
    if b.slots[i].tag == EMPTY then Absent else if Mistaken(b, key, i) then Here else Further
  }

  /** What the search comes to: the slot that it buries, or an empty slot, or no end. */
  datatype Target = Buries(i: nat) | Nothing | Endless

  /** The verdicts on the slots from `h` on, once round. */
  function VerdictsFrom(b: Block, key: seq<byte>, h: nat): (v: seq<Verdict>)
    requires Fits(b) && h < |b.slots|
    ensures |v| == |b.slots|
    ensures forall e :: 0 <= e < |v| ==> v[e] == CodedVerdict(b, key, Wrap(h, e, |v|))
  {
    seq(|b.slots|, e requires 0 <= e < |b.slots| => CodedVerdict(b, key, Wrap(h, e, |b.slots|)))
  }

  /** The first verdict from step `d` on that ends a search. */
  function EndOf(v: seq<Verdict>, d: nat): (e: nat)
    requires d <= |v|
    ensures d <= e <= |v| && (forall f :: d <= f < e ==> v[f] == Further) && (e < |v| ==> v[e] != Further)
    decreases |v| - d
  {
    if d == |v| || v[d] != Further then d else EndOf(v, d + 1)
  }

  function TargetOf(hash: Hash, b: Block, key: seq<byte>): (t: Target)
    requires Fits(b)
    ensures t.Buries? ==> t.i < |b.slots| && b.slots[t.i].tag == TAKEN
  {
    TargetFrom(b, key, Home(hash, key, |b.slots|))
  }

  function TargetFrom(b: Block, key: seq<byte>, h: nat): (t: Target)
    requires Fits(b) && h < |b.slots|
    ensures t.Buries? ==> t.i < |b.slots| && b.slots[t.i].tag == TAKEN
  {
    var v := VerdictsFrom(b, key, h);
    var e := EndOf(v, 0);
    if e == |v| then Endless else if v[e] == Here then Buries(Wrap(h, e, |v|)) else Nothing
  }

  function Buried(slots: seq<Slot>, i: nat): (r: seq<Slot>)
    requires i < |slots|
    ensures |r| == |slots|
  {
    slots[i := slots[i].(tag := GRAVE)]
  }

  lemma TailByteInBlock(b: Block)
    requires Fits(b)
    ensures |b.slots| / 4 < |b.data|
  {
    SpanAtLeast(b.sizeKey + b.sizeValue, |b.slots|, 0);
  }

  /** The slots after a removal to the letter, for a search that ends. */
  function CodedRemove(hash: Hash, b: Block, key: seq<byte>): (r: CleanUpEnd)
    requires Fits(b)
  {
    TailByteInBlock(b);
    var t := TargetOf(hash, b, key);
    if t.Buries? then CodedCleanUp(Buried(b.slots, t.i), t.i, PastTag(b.data, |b.slots|)) else Stopped(b.slots)
  }

  /** The slots after the removal that is meant; `p` is the key's slot. */
  function MeantRemove(slots: seq<Slot>, p: Option<nat>): (r: seq<Slot>)
    requires p.Some? ==> p.value < |slots|
    ensures |r| == |slots|
  {
    if p.Some? then MeantCleanUp(Buried(slots, p.value), p.value) else slots
  }

  /** Where the key is, if it is there. */
  predicate Locates(slots: seq<Slot>, key: seq<byte>, p: Option<nat>) {
    if p.Some? then p.value < |slots| && HoldsKey(slots, key, p.value)
    else forall i :: 0 <= i < |slots| ==> !HoldsKey(slots, key, i)
  }

  // ---------------------------------------------------------------- when the search is right

  /** None of the first `d` slots from `h` on is mistaken for the key's. */
  predicate NoneMistaken(b: Block, key: seq<byte>, h: nat, d: nat)
    requires Fits(b) && h < |b.slots| && d <= |b.slots|
  {
    forall e :: 0 <= e < d ==> !Mistaken(b, key, Wrap(h, e, |b.slots|))
  }

  /** Where a search ends is where the first verdict is that ends it. */
  lemma TargetIs(b: Block, key: seq<byte>, h: nat, e: nat)
    requires Fits(b) && h < |b.slots| && e < |b.slots|
    requires forall f :: 0 <= f < e ==> CodedVerdict(b, key, Wrap(h, f, |b.slots|)) == Further
    ensures CodedVerdict(b, key, Wrap(h, e, |b.slots|)) == Here ==>
      TargetFrom(b, key, h) == Buries(Wrap(h, e, |b.slots|))
    ensures CodedVerdict(b, key, Wrap(h, e, |b.slots|)) == Absent ==> TargetFrom(b, key, h) == Nothing
  {
    var v := VerdictsFrom(b, key, h);
    assert v[e] != Further ==> EndOf(v, 0) == e;
  }

  /**
   * The search finds exactly the given key if and only if the bytes that it compares at the key's slot are
   * the key, and those at the taken slots before it are not; an absent key, if and only if that is so
   * before the first empty slot.
   */
  predicate SearchIsRight(hash: Hash, b: Block, key: seq<byte>, p: Option<nat>)
    requires Fits(b) && Locates(b.slots, key, p)
  {
    var n := |b.slots|;
    var h := Home(hash, key, n);
    if p.Some? then Compared(b, p.value) == key && NoneMistaken(b, key, h, Dist(h, p.value, n))
    else exists d :: 0 <= d < n && b.slots[Wrap(h, d, n)].tag == EMPTY && NoneMistaken(b, key, h, d)
  }

  lemma SearchIsRightIff(hash: Hash, b: Block, key: seq<byte>, p: Option<nat>)
    requires Fits(b) && GoodTable(hash, b.slots) && Locates(b.slots, key, p)
    ensures TargetOf(hash, b, key) == (if p.Some? then Buries(p.value) else Nothing)
      <==> SearchIsRight(hash, b, key, p)
  {
    if p.Some? {
      PresentSearch(hash, b, key, p.value);
    } else {
      AbsentSearch(b, key, Home(hash, key, |b.slots|));
    }
  }

  lemma PresentSearch(hash: Hash, b: Block, key: seq<byte>, p: nat)
    requires Fits(b) && GoodTable(hash, b.slots) && p < |b.slots| && HoldsKey(b.slots, key, p)
    ensures TargetOf(hash, b, key) == Buries(p) <==> SearchIsRight(hash, b, key, Some(p))
  {
    var n := |b.slots|;
    var h := Home(hash, key, n);
    var d := Dist(h, p, n);
    assert ChainAt(hash, b.slots, p);
    var v := VerdictsFrom(b, key, h);
    assert v[d] == CodedVerdict(b, key, p);
    if TargetOf(hash, b, key) == Buries(p) {
      assert EndOf(v, 0) == d;
      forall f | 0 <= f < d
        ensures !Mistaken(b, key, Wrap(h, f, n))
      {
        assert v[f] == Further;
      }
    } else if SearchIsRight(hash, b, key, Some(p)) {
      forall f | 0 <= f < d
        ensures CodedVerdict(b, key, Wrap(h, f, n)) == Further
      {
        assert b.slots[Wrap(h, f, n)].tag != EMPTY;
      }
      TargetIs(b, key, h, d);
    }
  }

  lemma AbsentSearch(b: Block, key: seq<byte>, h: nat)
    requires Fits(b) && h < |b.slots|
    ensures TargetFrom(b, key, h) == Nothing <==>
      exists d :: 0 <= d < |b.slots| && b.slots[Wrap(h, d, |b.slots|)].tag == EMPTY && NoneMistaken(b, key, h, d)
  {
    var n := |b.slots|;
    var v := VerdictsFrom(b, key, h);
    var e := EndOf(v, 0);
    if TargetFrom(b, key, h) == Nothing {
      assert v[e] == Absent;
      forall f | 0 <= f < e
        ensures !Mistaken(b, key, Wrap(h, f, n))
      {
        assert v[f] == Further;
      }
      assert b.slots[Wrap(h, e, n)].tag == EMPTY && NoneMistaken(b, key, h, e);
    } else {
      forall d | 0 <= d < n && b.slots[Wrap(h, d, n)].tag == EMPTY
        ensures !NoneMistaken(b, key, h, d)
      {
        assert v[d] == Absent;
        assert Mistaken(b, key, Wrap(h, e, n));
      }
    }
  }

  // ---------------------------------------------------------------- when the removal is right

  /** Inside the table the clean-up does not run into slot 0, and at its end it sees what slot 0 is. */
  predicate CleanUpIsRight(slots: seq<Slot>, start: nat, past: nat)
    requires start < |slots|
  {
    if start + 1 < |slots| then slots[start + 1].tag == EMPTY ==> !GravesUpTo(slots, start)
    else past == EMPTY <==> slots[0].tag == EMPTY
  }

  /**
   * A removal to the letter ends and does what is meant if and only if its search is right and, for a key
   * that is there, its clean-up is.
   */
  lemma CodedRemoveIsMeantIff(hash: Hash, b: Block, key: seq<byte>, p: Option<nat>)
    requires Fits(b) && GoodTable(hash, b.slots) && Locates(b.slots, key, p)
    ensures |b.slots| / 4 < |b.data|
    ensures !TargetOf(hash, b, key).Endless? && CodedRemove(hash, b, key) == Stopped(MeantRemove(b.slots, p)) <==>
      && SearchIsRight(hash, b, key, p)
      && (p.Some? ==> CleanUpIsRight(Buried(b.slots, p.value), p.value, PastTag(b.data, |b.slots|)))
  {
    TailByteInBlock(b);
    SearchIsRightIff(hash, b, key, p);
    var t := TargetOf(hash, b, key);
    if t.Buries? {
      OtherBurialsDiffer(b.slots, t.i, p, PastTag(b.data, |b.slots|));
    } else if p.Some? {
      BuriedStays(b.slots, p.value, PastTag(b.data, |b.slots|));
    }
  }

  /** To bury slot `i` and clean up is to remove what is in slot `p` only for the same slot. */
  lemma OtherBurialsDiffer(slots: seq<Slot>, i: nat, p: Option<nat>, past: nat)
    requires i < |slots| && slots[i].tag == TAKEN
    requires p.Some? ==> p.value < |slots| && slots[p.value].tag == TAKEN
    ensures CodedCleanUp(Buried(slots, i), i, past) == Stopped(MeantRemove(slots, p))
      <==> p == Some(i) && CleanUpIsRight(Buried(slots, i), i, past)
  {
    BuriedStays(slots, i, past);
    if p == Some(i) {
      CodedCleanUpIsMeantIff(Buried(slots, i), i, past);
    } else if p.Some? {
      BuriedStays(slots, p.value, past);
    }
  }

  /** Of the taken slots only the buried one is lost, whichever clean-up follows. */
  lemma BuriedStays(slots: seq<Slot>, i: nat, past: nat)
    requires i < |slots| && slots[i].tag == TAKEN
    ensures var end := CodedCleanUp(Buried(slots, i), i, past).slots;
      |end| == |slots| && forall j :: 0 <= j < |slots| ==> (end[j].tag == TAKEN <==> slots[j].tag == TAKEN && j != i)
    ensures var end := MeantCleanUp(Buried(slots, i), i);
      forall j :: 0 <= j < |slots| ==> (end[j].tag == TAKEN <==> slots[j].tag == TAKEN && j != i)
  {
    WalkBackKeepsTaken(Buried(slots, i), i);
    WalkRoundKeepsTaken(Buried(slots, i), i);
  }

  lemma {:induction false} WalkBackKeepsTaken(slots: seq<Slot>, i: nat)
    requires i < |slots|
    ensures |WalkBack(slots, i).slots| == |slots|
    ensures forall j :: 0 <= j < |slots| ==> (WalkBack(slots, i).slots[j].tag == TAKEN <==> slots[j].tag == TAKEN)
    decreases i
  {
    if slots[i].tag == GRAVE && i > 0 {
      WalkBackKeepsTaken(Emptied(slots, i), i - 1);
    }
  }

  lemma {:induction false} WalkRoundKeepsTaken(slots: seq<Slot>, i: nat)
    requires i < |slots|
    ensures forall j :: 0 <= j < |slots| ==> (WalkRound(slots, i)[j].tag == TAKEN <==> slots[j].tag == TAKEN)
    decreases CountTag(slots, GRAVE)
  {
    if slots[i].tag == GRAVE {
      CountTagUpdate(slots, i, slots[i].(tag := EMPTY), GRAVE);
      WalkRoundKeepsTaken(Emptied(slots, i), Before(i, |slots|));
    }
  }

  // ---------------------------------------------------------------- removals in a new table

  /** A lone key that does not hash to the first two slots is removed if and only if it is all zeros. */
  lemma LoneKeyStaysIff(hash: Hash, b: Block, key: seq<byte>, value: seq<byte>)
    requires Fits(b) && |key| == b.sizeKey && 2 <= Home(hash, key, 11)
    requires b.slots == Blank(SIZE_INIT, b.sizeKey, b.sizeValue)[Home(hash, key, 11) := Slot(TAKEN, key, value)]
    ensures |b.slots| / 4 < |b.data|
    ensures CodedRemove(hash, b, key) == Stopped(b.slots) <==> key != Zeros(b.sizeKey)
  {
    TailByteInBlock(b);
    var h := Home(hash, key, 11);
    LoneKeyCompared(b, h);
    if key == Zeros(b.sizeKey) {
      TargetIs(b, key, h, 0);
      BuriedStays(b.slots, h, PastTag(b.data, 11));
    } else {
      TargetIs(b, key, h, 1);
    }
  }

  lemma LoneKeyCompared(b: Block, h: nat)
    requires Fits(b) && |b.slots| == 11 && 2 <= h < 11
    requires forall j :: 0 <= j < h ==> b.slots[j] == Slot(EMPTY, Zeros(b.sizeKey), Zeros(b.sizeValue))
    ensures Compared(b, h) == Zeros(b.sizeKey)
  {
    var width := b.sizeKey + b.sizeValue;
    ComparedInBlock(b, h);
    ZeroBytes(b.data, 11, b.sizeKey, b.sizeValue, b.slots, h);
    if h > 2 {
      SpanAtLeast(width, h, h - 2);
    } else {
      SpanTwo(width, 2);
    }
    var p := RemoveLooksAt(width, h);
    forall k | 0 <= k < b.sizeKey
      ensures Compared(b, h)[k] == 0
    {
      assert Compared(b, h)[k] == b.data[p + k];
    }
  }

  lemma HashOneMore(key: seq<byte>, val: byte)
    ensures HashBytes(key + [val]) == Mix(HashBytes(key), val)
  {
    assert (key + [val])[..|key|] == key;
  }

  lemma {:induction false} ZeroKeyHash(n: nat)
    ensures HashBytes(Zeros(n)) == 0
  {
    if n > 0 {
      ZeroKeyHash(n - 1);
      OneMoreZero(n - 1);
      HashOneMore(Zeros(n - 1), 0);
      MixZero(0);
    }
  }

  lemma OneMoreZero(n: nat)
    ensures Zeros(n + 1) == Zeros(n) + [0]
  {
  }

  /** On top of a zero hash only the byte counts. */
  lemma MixZero(val: byte)
    ensures Mix(0, val) == val
  {
    XorZero(val);
  }

  /** A key of `n + 1` bytes, all zero but the last. */
  function SmallKey(n: nat, last: byte): (key: seq<byte>)
    ensures |key| == n + 1
  {
    Zeros(n) + [last]
  }

  lemma SmallKeyHash(n: nat, last: byte)
    ensures HashBytes(SmallKey(n, last)) == last
  {
    ZeroKeyHash(n);
    HashOneMore(Zeros(n), last);
    MixZero(last);
  }

  lemma SmallKeysShareHome(n: nat)
    ensures var a, b := SmallKey(n, 10), SmallKey(n, 21);
      a != b && Home(HashBytes, a, 11) == Home(HashBytes, b, 11) == 10
  {
    SmallKeyHash(n, 10);
    SmallKeyHash(n, 21);
    assert SmallKey(n, 10)[n] != SmallKey(n, 21)[n];
    assert Residue(21, 11) == Residue(10, 11) == 10;
  }

  lemma {:induction false} XorZero(b: nat)
    ensures BitXor(0, b) == b
  {
    if b > 0 {
      XorZero(b / 2);
    }
  }

  /** A new table after two keys with the last slot as home were inserted. */
  function TwoKeys(n: nat, value: seq<byte>): (slots: seq<Slot>)
    ensures |slots| == 11
  {
    Blank(SIZE_INIT, n + 1, |value|)
      [10 := Slot(TAKEN, SmallKey(n, 10), value)]
      [0 := Slot(TAKEN, SmallKey(n, 21), value)]
  }

  lemma TwoKeysInserted(n: nat, value: seq<byte>)
    ensures GoodTable(HashBytes, TwoKeys(n, value))
    ensures Contents(TwoKeys(n, value)) == map[SmallKey(n, 10) := value, SmallKey(n, 21) := value]
  {
    var slots := Blank(SIZE_INIT, n + 1, |value|);
    EmptyTable(HashBytes, slots);
    SmallKeysShareHome(n);
    PlaceKeepsTable(HashBytes, slots, SmallKey(n, 10), value, 0);
    var one := slots[10 := Slot(TAKEN, SmallKey(n, 10), value)];
    assert Wrap(10, 0, 11) == 10 && Wrap(10, 1, 11) == 0;
    PlaceKeepsTable(HashBytes, one, SmallKey(n, 21), value, 1);
  }

  /** And a third one with home 1. */
  function ThreeKeys(n: nat, value: seq<byte>): (slots: seq<Slot>)
    ensures |slots| == 11
  {
    TwoKeys(n, value)[1 := Slot(TAKEN, SmallKey(n, 12), value)]
  }

  lemma ThreeKeysInserted(n: nat, value: seq<byte>)
    ensures GoodTable(HashBytes, ThreeKeys(n, value))
    ensures Contents(ThreeKeys(n, value)) == Contents(TwoKeys(n, value))[SmallKey(n, 12) := value]
    ensures SmallKey(n, 12) !in Contents(TwoKeys(n, value))
  {
    TwoKeysInserted(n, value);
    SmallKeyHash(n, 12);
    assert SmallKey(n, 12)[n] == 12 && SmallKey(n, 10)[n] == 10 && SmallKey(n, 21)[n] == 21;
    assert Home(HashBytes, SmallKey(n, 12), 11) == Residue(1, 11) == 1 && Wrap(1, 0, 11) == 1;
    PlaceKeepsTable(HashBytes, TwoKeys(n, value), SmallKey(n, 12), value, 0);
  }

  /**
   * For keys of any length, in a new table: two keys with the last slot as home are inserted, and the
   * first one is buried. The clean-up as written cuts off the second, which a search no longer finds
   * although it is in the table.
   */
  lemma UnwrappedCleanUpBreaksChain(n: nat, value: seq<byte>)
    ensures var b := SmallKey(n, 21);
      var end := CodedCleanUp(Buried(TwoKeys(n, value), 10), 10, EMPTY);
      && end.Stopped? && HoldsKey(end.slots, b, 0)
      && !Chain(HashBytes, end.slots)
      && VerdictOn(end.slots, b, Home(HashBytes, b, 11)) == Absent
  {
    TwoKeysInserted(n, value);
    LastKeyCutOff(n, TwoKeys(n, value));
  }

  lemma LastKeyCutOff(n: nat, slots: seq<Slot>)
    requires |slots| == 11 && GoodTable(HashBytes, slots) && slots[9].tag == EMPTY
    requires HoldsKey(slots, SmallKey(n, 10), 10) && HoldsKey(slots, SmallKey(n, 21), 0)
    ensures var b := SmallKey(n, 21);
      var end := CodedCleanUp(Buried(slots, 10), 10, EMPTY);
      && end.Stopped? && HoldsKey(end.slots, b, 0)
      && !Chain(HashBytes, end.slots)
      && VerdictOn(end.slots, b, Home(HashBytes, b, 11)) == Absent
  {
    var buried := Buried(slots, 10);
    SmallKeysShareHome(n);
    BuryKeepsTable(HashBytes, slots, 10);
    assert WalkBack(buried, 10) == WalkBack(Emptied(buried, 10), 9) == Stopped(Emptied(buried, 10));
    assert buried[0].tag == TAKEN && Home(HashBytes, buried[0].key, 11) == 10;
    CodedCleanUpKeepsTableIff(HashBytes, buried, 10, EMPTY);
  }

  /**
   * The whole of it, search and clean-up to the letter, for keys of up to seven bytes: three insertions
   * into a new table, with values chosen so that the search does find the first key. Removing it loses
   * the second one.
   */
  lemma RemovalLosesAKey(n: nat, value: seq<byte>, b: Block)
    requires n <= 6 && |value| >= 7 && value[6 - n..7] == SmallKey(n, 10)
    requires Fits(b) && b.sizeKey == n + 1 && b.sizeValue == |value| && b.slots == ThreeKeys(n, value)
    requires 11 / 4 < |b.data| && PastTag(b.data, 11) == EMPTY
    ensures var end := CodedRemove(HashBytes, b, SmallKey(n, 10));
      && TargetOf(HashBytes, b, SmallKey(n, 10)) == Buries(10)
      && SmallKey(n, 21) in Contents(b.slots)
      && end.Stopped? && HoldsKey(end.slots, SmallKey(n, 21), 0)
      && !Chain(HashBytes, end.slots)
      && VerdictOn(end.slots, SmallKey(n, 21), Home(HashBytes, SmallKey(n, 21), 11)) == Absent
  {
    ThreeKeysInserted(n, value);
    TwoKeysInserted(n, value);
    SmallKeysShareHome(n);
    ThirdValueCompared(n, value, b);
    TargetIs(b, SmallKey(n, 10), 10, 0);
    LastKeyCutOff(n, b.slots);
  }

  /** At slot 10 the search looks at bytes of the value in slot 1. */
  lemma ThirdValueCompared(n: nat, value: seq<byte>, b: Block)
    requires n <= 6 && |value| >= 7
    requires Fits(b) && b.sizeKey == n + 1 && b.sizeValue == |value| && b.slots == ThreeKeys(n, value)
    ensures Compared(b, 10) == value[6 - n..7]
  {
    var width := b.sizeKey + b.sizeValue;
    ComparedInBlock(b, 10);
    SlotInBlock(11, width, 1);
    assert Span(width, 1) == Span(width, 0) + width == width;
    var p, q := SlotAt(11, width, 1), RemoveLooksAt(width, 10);
    assert p == 3 + width && q == p + b.sizeKey + (6 - n);
    assert b.slots[1] == ReadSlot(b.data, 11, b.sizeKey, b.sizeValue, 1);
    assert value == b.data[p + b.sizeKey..p + width];
    SliceOfSlice(b.data, p + b.sizeKey, p + width, 6 - n, 7);
  }

  lemma SliceOfSlice(data: seq<byte>, lo: nat, hi: nat, x: nat, y: nat)
    requires lo <= hi <= |data| && x <= y <= hi - lo
    ensures data[lo..hi][x..y] == data[lo + x..lo + y]
  {
    var a, b := data[lo..hi][x..y], data[lo + x..lo + y];
    assert forall k :: 0 <= k < y - x ==> a[k] == data[lo..hi][x + k] == b[k];
  }
}
