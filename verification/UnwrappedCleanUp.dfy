/**
 * The clean-up at the end of `hashmap_remove` to the letter: it tests tag `index + 1` and steps back with
 * `index -= 1`, and wraps neither.
 */
module UnwrappedCleanUp {
  import opened Net
  import opened FlatLayout
  import opened ProbeTable

  /** How a clean-up ends: at a slot that is no grave, or with a look at the slot before slot 0. */
  datatype CleanUpEnd = Stopped(slots: seq<Slot>) | Outside(slots: seq<Slot>)

  function Emptied(slots: seq<Slot>, i: nat): (r: seq<Slot>)
    requires i < |slots|
    ensures |r| == |slots|
  {
    slots[i := slots[i].(tag := EMPTY)]
  }

  /** The backward walk as written. */
  function WalkBack(slots: seq<Slot>, i: nat): (r: CleanUpEnd)
    requires i < |slots|
    decreases i
  {
    if slots[i].tag != GRAVE then Stopped(slots)
    else if i == 0 then Outside(Emptied(slots, 0))
    else WalkBack(Emptied(slots, i), i - 1)
  }

  /** The clean-up as written; `past` is the tag that it reads behind the last slot. */
  function CodedCleanUp(slots: seq<Slot>, start: nat, past: nat): (r: CleanUpEnd)
    requires start < |slots|
  {
    if (if start + 1 < |slots| then slots[start + 1].tag else past) == EMPTY then WalkBack(slots, start)
    else Stopped(slots)
  }

  /** The walk as it is meant, with wrapping. */
  function WalkRound(slots: seq<Slot>, i: nat): (r: seq<Slot>)
    requires i < |slots|
    ensures |r| == |slots|
    decreases CountTag(slots, GRAVE)
  {
    if slots[i].tag != GRAVE then slots
    else
      CountTagUpdate(slots, i, slots[i].(tag := EMPTY), GRAVE);
      WalkRound(Emptied(slots, i), Before(i, |slots|))
  }

  function MeantCleanUp(slots: seq<Slot>, start: nat): (r: seq<Slot>)
    requires start < |slots|
    ensures |r| == |slots|
  {
    if slots[Wrap(start, 1, |slots|)].tag == EMPTY then WalkRound(slots, start) else slots
  }

  // ---------------------------------------------------------------- when the two agree

  /** Slots 0 to `i` are all graves. */
  predicate GravesUpTo(slots: seq<Slot>, i: nat)
    requires i < |slots|
  {
    forall j :: 0 <= j <= i ==> slots[j].tag == GRAVE
  }

  /** The walk as written leaves the block exactly when nothing stops it before slot 0. */
  lemma {:induction false} WalkBackIff(slots: seq<Slot>, i: nat)
    requires i < |slots|
    ensures WalkBack(slots, i).Outside? <==> GravesUpTo(slots, i)
    ensures WalkBack(slots, i).Stopped? ==> WalkBack(slots, i).slots == WalkRound(slots, i)
    decreases i
  {
    if slots[i].tag == GRAVE && i > 0 {
      var rest := Emptied(slots, i);
      assert forall j :: 0 <= j < i ==> rest[j] == slots[j];
      WalkBackIff(rest, i - 1);
      assert GravesUpTo(slots, i) <==> GravesUpTo(rest, i - 1);
    }
  }

  /**
   * The clean-up as written does what is meant if and only if, inside the table, it does not run into
   * slot 0, and behind the last slot it reads as empty exactly what is empty in slot 0.
   */
  lemma CodedCleanUpIsMeantIff(slots: seq<Slot>, start: nat, past: nat)
    requires start < |slots| && slots[start].tag == GRAVE
    ensures CodedCleanUp(slots, start, past) == Stopped(MeantCleanUp(slots, start)) <==>
      if start + 1 < |slots| then slots[start + 1].tag == EMPTY ==> !GravesUpTo(slots, start)
      else past == EMPTY <==> slots[0].tag == EMPTY
  {
    WalkBackIff(slots, start);
    WalkRoundEmpties(slots, start);
  }

  lemma {:induction false} WalkRoundEmpties(slots: seq<Slot>, i: nat)
    requires i < |slots|
    ensures forall j :: 0 <= j < |slots| && slots[j].tag == EMPTY ==> WalkRound(slots, i)[j].tag == EMPTY
    ensures slots[i].tag == GRAVE ==> WalkRound(slots, i)[i].tag == EMPTY
    decreases CountTag(slots, GRAVE)
  {
    if slots[i].tag == GRAVE {
      CountTagUpdate(slots, i, slots[i].(tag := EMPTY), GRAVE);
      WalkRoundEmpties(Emptied(slots, i), Before(i, |slots|));
    }
  }

  // ---------------------------------------------------------------- when the table survives

  /** The chain of what slot `j` holds ends before it comes to slot `i`. */
  predicate Misses(hash: Hash, slots: seq<Slot>, j: nat, i: nat)
    requires j < |slots| && i < |slots|
  {
    slots[j].tag == TAKEN ==>
      var h := Home(hash, slots[j].key, |slots|);
      Dist(h, j, |slots|) <= Dist(h, i, |slots|)
  }

  /** `after` is `slots` with the graves from `a` to `i` made empty. */
  predicate RunEmptied(slots: seq<Slot>, after: seq<Slot>, a: nat, i: nat) {
    && |after| == |slots| && a <= i < |slots|
    && (forall j :: a <= j <= i ==> slots[j].tag == GRAVE && after[j] == slots[j].(tag := EMPTY))
    && (forall j :: 0 <= j < |slots| && !(a <= j <= i) ==> after[j] == slots[j])
  }

  lemma {:induction false} WalkBackEmptiesRun(slots: seq<Slot>, i: nat) returns (a: nat)
    requires i < |slots| && slots[i].tag == GRAVE
    ensures RunEmptied(slots, WalkBack(slots, i).slots, a, i)
    decreases i
  {
    a := i;
    if i > 0 {
      var rest := Emptied(slots, i);
      if slots[i - 1].tag == GRAVE {
        a := WalkBackEmptiesRun(rest, i - 1);
        var after := WalkBack(rest, i - 1).slots;
        assert after == WalkBack(slots, i).slots && after[i] == rest[i];
        forall j | a <= j <= i
          ensures slots[j].tag == GRAVE && after[j] == slots[j].(tag := EMPTY)
        {
          assert j < i ==> rest[j] == slots[j];
        }
        assert forall j :: 0 <= j < |slots| && !(a <= j <= i) ==> rest[j] == slots[j];
      } else {
        assert WalkBack(rest, i - 1) == Stopped(rest);
      }
    }
  }

  /** A run of graves can be made empty if and only if no chain comes to its end. */
  lemma EmptiedKeepsChainIff(hash: Hash, slots: seq<Slot>, after: seq<Slot>, a: nat, i: nat)
    requires GoodTable(hash, slots) && RunEmptied(slots, after, a, i)
    ensures Chain(hash, after) <==> forall j :: 0 <= j < |slots| ==> Misses(hash, slots, j, i)
  {
    forall j | 0 <= j < |slots|
      ensures ChainAt(hash, after, j) <==> Misses(hash, slots, j, i)
    {
      if slots[j].tag == TAKEN {
        assert ChainAt(hash, slots, j);
        PathThroughRun(slots, after, a, i, Home(hash, slots[j].key, |slots|), j);
      }
    }
  }

  lemma PathThroughRun(slots: seq<Slot>, after: seq<Slot>, a: nat, i: nat, h: nat, j: nat)
    requires RunEmptied(slots, after, a, i) && h < |slots| && j < |slots| && slots[j].tag == TAKEN
    requires PathClear(slots, h, Dist(h, j, |slots|))
    ensures PathClear(after, h, Dist(h, j, |slots|)) <==> Dist(h, j, |slots|) <= Dist(h, i, |slots|)
  {
    var n := |slots|;
    var d := Dist(h, j, n);
    if d <= Dist(h, i, n) {
      forall e | 0 <= e < d
        ensures after[Wrap(h, e, n)].tag != EMPTY
      {
        var m := Wrap(h, e, n);
        assert slots[m].tag != EMPTY;
        assert !(a <= j <= i);
        assert Dist(h, m, n) == e;
      }
    } else {
      assert after[Wrap(h, Dist(h, i, n), n)].tag == EMPTY;
    }
  }

  /** No chain runs past the end of the table. */
  predicate NoChainWraps(hash: Hash, slots: seq<Slot>) {
    forall j :: 0 <= j < |slots| && slots[j].tag == TAKEN ==> Home(hash, slots[j].key, |slots|) <= j
  }

  /**
   * The clean-up as written stays in the block and keeps the probe chains if and only if, where it finds
   * an empty tag, some slot before it is no grave, and at the last slot also no chain runs past the end.
   */
  lemma CodedCleanUpKeepsTableIff(hash: Hash, slots: seq<Slot>, start: nat, past: nat)
    requires GoodTable(hash, slots) && start < |slots| && slots[start].tag == GRAVE
    ensures var end := CodedCleanUp(slots, start, past);
      end.Stopped? && Chain(hash, end.slots) <==>
        if start + 1 < |slots| then slots[start + 1].tag == EMPTY ==> !GravesUpTo(slots, start)
        else past == EMPTY ==> NoChainWraps(hash, slots) && !GravesUpTo(slots, start)
  {
    CodedCleanUpKeepsChainIff(hash, slots, start, past);
    WalkBackIff(slots, start);
  }

  /** Whether or not its walk leaves the block, the slots it leaves behind have their probe chains. */
  lemma CodedCleanUpKeepsChainIff(hash: Hash, slots: seq<Slot>, start: nat, past: nat)
    requires GoodTable(hash, slots) && start < |slots| && slots[start].tag == GRAVE
    ensures Chain(hash, CodedCleanUp(slots, start, past).slots) <==>
      start + 1 < |slots| || past != EMPTY || NoChainWraps(hash, slots)
  {
    var n := |slots|;
    if (if start + 1 < n then slots[start + 1].tag else past) == EMPTY {
      var a := WalkBackEmptiesRun(slots, start);
      EmptiedKeepsChainIff(hash, slots, WalkBack(slots, start).slots, a, start);
      forall j | 0 <= j < n && slots[j].tag == TAKEN
        ensures Misses(hash, slots, j, start) <==>
          start + 1 < n || Home(hash, slots[j].key, n) <= j
      {
        assert ChainAt(hash, slots, j);
        if start + 1 < n {
          ChainStopsBeforeEmpty(slots, Home(hash, slots[j].key, n), start, j);
        }
      }
    }
  }

  lemma ChainStopsBeforeEmpty(slots: seq<Slot>, h: nat, i: nat, j: nat)
    requires h < |slots| && i + 1 < |slots| && j < |slots|
    requires slots[i].tag == GRAVE && slots[i + 1].tag == EMPTY && slots[j].tag == TAKEN
    requires PathClear(slots, h, Dist(h, j, |slots|))
    ensures Dist(h, j, |slots|) <= Dist(h, i, |slots|)
  {
    var n := |slots|;
    assert Wrap(h, Dist(h, i, n) + 1, n) == i + 1;
  }

  /** A key's search finds it if and only if its chain is whole. */
  lemma FoundIff(hash: Hash, slots: seq<Slot>, j: nat)
    requires Unique(slots) && j < |slots| && slots[j].tag == TAKEN
    ensures var h := Home(hash, slots[j].key, |slots|);
      Passed(slots, slots[j].key, h, Dist(h, j, |slots|)) <==> ChainAt(hash, slots, j)
  {
    var n := |slots|;
    var h := Home(hash, slots[j].key, n);
    forall e | 0 <= e < Dist(h, j, n)
      ensures !HoldsKey(slots, slots[j].key, Wrap(h, e, n))
    {
      assert Dist(h, Wrap(h, e, n), n) == e;
    }
  }

  // ---------------------------------------------------------------- what is read behind the last slot

  /** The tag that `tag_get` reads at index `n`, in the padding of the tag area or in the first key. */
  function PastTag(data: seq<byte>, n: nat): (tag: nat)
    requires n / 4 < |data|
    ensures tag < 4
  {
    TagBits(data[n / 4], n)
  }

  /** No tag of the table is the one behind it. */
  lemma PastTagStays(data: seq<byte>, n: nat, index: nat, tag: nat)
    requires index < n && n / 4 < |data| && tag < 4
    ensures PastTag(data[index / 4 := WithTagBits(data[index / 4], index, tag)], n) == PastTag(data, n)
  {
    SetOneTag(data[index / 4], index, tag, n);
  }

  /**
   * Unless the number of slots is a multiple of four, which 11 and 2n + 1 never are, the tag behind the
   * last slot is padding: empty in a new block and left alone by every write.
   */
  lemma PastTagIsPadding(n: nat, sizeKey: nat, sizeValue: nat, data: seq<byte>, index: nat, tag: nat)
    requires n % 4 != 0 && |data| == BlockLength(n, sizeKey + sizeValue) && index < n && tag < 4
    ensures n / 4 < TagArea(n) <= |data|
    ensures index / 4 < |data|
    ensures PastTag(data[index / 4 := WithTagBits(data[index / 4], index, tag)], n) == PastTag(data, n)
    ensures data[n / 4] == 0 ==> PastTag(data, n) == EMPTY
    ensures n / 4 < SlotAt(n, sizeKey + sizeValue, index)
  {
    SlotInBlock(n, sizeKey + sizeValue, index);
    PastTagStays(data, n, index, tag);
  }
}
