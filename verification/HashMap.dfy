/**
 * hashmap.c: the open-addressing table in one byte array, with the growth and removal that the C code
 * means to do, and next to them its text where that departs from it.
 */
module HashTable {
  import opened Net
  import opened FlatLayout
  import opened ProbeTable
  import opened UnwrappedCleanUp
  import opened CodedRemoval
  import opened CodedGrowth

  /** Contents of the first slots, while growth copies them one by one. */
  lemma PrefixStep(slots: seq<Slot>, i: nat)
    requires i < |slots| && Unique(slots)
    ensures Unique(slots[..i])
    ensures slots[i].tag == TAKEN ==>
      && slots[i].key !in Contents(slots[..i])
      && Contents(slots[..i + 1]) == Contents(slots[..i])[slots[i].key := slots[i].value]
      && TakenCount(slots[..i + 1]) == TakenCount(slots[..i]) + 1
    ensures slots[i].tag != TAKEN ==>
      && Contents(slots[..i + 1]) == Contents(slots[..i])
      && TakenCount(slots[..i + 1]) == TakenCount(slots[..i])
  {
    var before := slots[..i];
    var blank := Slot(EMPTY, [], []);
    var wide := before + [blank];
    assert wide[i := slots[i]] == slots[..i + 1];
    CountTagUpdate(wide, i, slots[i], TAKEN);
    BlankLast(before, blank);
    if slots[i].tag == TAKEN {
      PlaceContents(wide, i, slots[i].key, slots[i].value);
      assert slots[i] == Slot(TAKEN, slots[i].key, slots[i].value);
    } else {
      SameTakenContents(wide, slots[..i + 1], i);
    }
  }

  lemma {:induction false} BlankLastCount(before: seq<Slot>, blank: Slot)
    requires blank.tag != TAKEN
    ensures CountTag(before + [blank], TAKEN) == CountTag(before, TAKEN)
  {
    if before == [] {
      assert before + [blank] == [blank];
    } else {
      assert (before + [blank])[1..] == before[1..] + [blank];
      BlankLastCount(before[1..], blank);
    }
  }

  lemma BlankLastValue(before: seq<Slot>, blank: Slot, k: seq<byte>)
    requires blank.tag != TAKEN && Unique(before) && k in Contents(before + [blank])
    ensures k in Contents(before) && Contents(before)[k] == Contents(before + [blank])[k]
  {
    var wide := before + [blank];
    var j := FindKey(wide, k);
    assert j < |before| && wide[j] == before[j];
    TakenInContents(before, j);
  }

  lemma BlankLast(before: seq<Slot>, blank: Slot)
    requires blank.tag != TAKEN && Unique(before)
    ensures Unique(before + [blank])
    ensures Contents(before + [blank]) == Contents(before)
    ensures TakenCount(before + [blank]) == TakenCount(before)
  {
    var wide := before + [blank];
    BlankLastCount(before, blank);
    assert Unique(wide);
    forall k | k in Contents(wide)
      ensures k in Contents(before) && Contents(before)[k] == Contents(wide)[k]
    {
      BlankLastValue(before, blank, k);
    }
    forall k | k in Contents(before)
      ensures k in Contents(wide)
    {
      var j := FindKey(before, k);
      assert HoldsKey(wide, k, j);
    }
  }

  lemma TakenIsClear(slots: seq<Slot>, h: nat, d: nat)
    requires h < |slots| && d <= |slots| && AllTaken(slots, h, d)
    ensures PathClear(slots, h, d)
  {
  }

  /** When every slot up to step `d` is taken, a table with a free slot has one further on. */
  lemma SomeFreeAhead(slots: seq<Slot>, h: nat, d: nat)
    requires h < |slots| && d < |slots| && AllTaken(slots, h, d)
    requires slots[Wrap(h, d, |slots|)].tag != EMPTY && slots[Wrap(h, d, |slots|)].tag != GRAVE
    requires forall i :: 0 <= i < |slots| ==> slots[i].tag <= GRAVE
    requires exists i :: 0 <= i < |slots| && slots[i].tag != TAKEN
    ensures d + 1 < |slots| && AllTaken(slots, h, d + 1)
  {
    assert AllTaken(slots, h, d + 1);
    var i :| 0 <= i < |slots| && slots[i].tag != TAKEN;
    assert Wrap(h, Dist(h, i, |slots|), |slots|) == i;
  }

  /** Without graves a free slot is an empty one. */
  lemma EmptyFromLoad(hash: Hash, slots: seq<Slot>)
    requires GoodTable(hash, slots) && NoGraves(slots) && TakenCount(slots) < |slots|
    ensures HasEmpty(slots)
  {
    SomeSlotFree(slots);
  }

  /** What is empty stays so. */
  predicate EmptyStays(before: seq<Slot>, after: seq<Slot>) {
    |before| == |after| && forall i :: 0 <= i < |before| && before[i].tag == EMPTY ==> after[i].tag == EMPTY
  }

  lemma EmptyStaysOn(a: seq<Slot>, b: seq<Slot>, c: seq<Slot>)
    requires EmptyStays(a, b) && EmptyStays(b, c)
    ensures EmptyStays(a, c) && (HasEmpty(a) ==> HasEmpty(c))
  {
  }

  /** The same map and no fewer empty slots. */
  ghost predicate SameMap(before: seq<Slot>, after: seq<Slot>) {
    && EmptyStays(before, after)
    && Contents(before) == Contents(after)
    && TakenCount(before) == TakenCount(after)
  }

  class HashMap {
    const sizeKey: nat
    const sizeValue: nat
    const hash: Hash

    var size: nat
    var sizeAllocated: nat
    var data: array<byte>

    ghost var slots: seq<Slot>

    ghost predicate Valid()
      reads this, data
    {
      && Consistent()
      && Tidy(slots)
      && size == TakenCount(slots)
      && size <= sizeAllocated / 2
    }

    ghost predicate Consistent()
      reads this, data
    {
      Holds(data[..], sizeAllocated, sizeKey, sizeValue, slots) && GoodTable(hash, slots)
    }

    ghost predicate Readable()
      reads this, data
    {
      && Holds(data[..], sizeAllocated, sizeKey, sizeValue, slots)
      && sizeAllocated > 0
      && forall i :: 0 <= i < |slots| ==> slots[i].tag <= GRAVE
    }

    /** The finite map that the table stands for. */
    ghost function Map(): (m: map<seq<byte>, seq<byte>>)
      reads this
    {
      Contents(slots)
    }

    constructor (hash: Hash, sizeKey: nat, sizeValue: nat)
      ensures Valid() && Map() == map[] && NoGraves(slots) && fresh(data)
      ensures this.hash == hash && this.sizeKey == sizeKey && this.sizeValue == sizeValue
    {
      this.hash, this.sizeKey, this.sizeValue := hash, sizeKey, sizeValue;
      size, sizeAllocated := 0, SIZE_INIT;
      var tagBytes := (SIZE_INIT * 2 + 7) / 8;
      SpanIsProduct(sizeKey + sizeValue, SIZE_INIT);
      data := new byte[tagBytes + (sizeKey + sizeValue) * SIZE_INIT](_ => 0);
      slots := seq(SIZE_INIT, _ => Slot(EMPTY, Zeros(sizeKey), Zeros(sizeValue)));
      new;
      ZeroBlock(data[..], SIZE_INIT, sizeKey, sizeValue);
      EmptyTable(hash, slots);
    }

    /** `hash % hashmap->size_allocated`. */
    method HomeOf(key: seq<byte>) returns (index: nat)
      requires sizeAllocated > 0
      ensures index == Home(hash, key, sizeAllocated)
    {
      ResidueIsMod(hash(key), sizeAllocated);
      index := hash(key) % sizeAllocated;
    }

    /** `(index + 1) % hashmap->size_allocated`: one step further from `h`. */
    method Advance(index: nat, ghost h: nat, ghost d: nat) returns (next: nat)
      requires h < sizeAllocated && d < sizeAllocated && index == Wrap(h, d, sizeAllocated)
      ensures next == Wrap(h, d + 1, sizeAllocated)
    {
      ResidueIsMod(index + 1, sizeAllocated);
      assert Residue(index + 1, sizeAllocated) == if index + 1 < sizeAllocated then index + 1 else 0;
      next := (index + 1) % sizeAllocated;
    }

    /** Address of a slot's key relative to the block. */
    method KeyPtr(total: nat, index: nat) returns (keyPtr: nat)
      requires index < total
      ensures keyPtr == SlotAt(total, sizeKey + sizeValue, index) >= TagArea(total)
      ensures keyPtr + sizeKey + sizeValue <= BlockLength(total, sizeKey + sizeValue)
    {
      SpanIsProduct(sizeKey + sizeValue, index);
      SlotInBlock(total, sizeKey + sizeValue, index);
      keyPtr := (total + 3) / 4 + (sizeKey + sizeValue) * index;
    }

    /** `tag_get`. */
    method TagGet(index: nat) returns (tag: nat)
      requires Holds(data[..], sizeAllocated, sizeKey, sizeValue, slots) && index < sizeAllocated
      ensures tag == slots[index].tag
    {
      SlotInBlock(sizeAllocated, sizeKey + sizeValue, index);
      assert slots[index] == ReadSlot(data[..], sizeAllocated, sizeKey, sizeValue, index);
      tag := TagBits(data[index / 4], index);
    }

    /** `tag_set`: of all slots only this tag changes. */
    method TagSet(index: nat, tag: nat)
      requires Holds(data[..], sizeAllocated, sizeKey, sizeValue, slots)
      requires index < sizeAllocated && tag < 4
      modifies data, `slots
      ensures slots == old(slots)[index := old(slots)[index].(tag := tag)]
      ensures Holds(data[..], sizeAllocated, sizeKey, sizeValue, slots)
    {
      SetTagBits(index, tag);
    }

    /** Its effect on the block: two bits of one byte. */
    method SetTagBits(index: nat, tag: nat)
      requires Holds(data[..], sizeAllocated, sizeKey, sizeValue, slots)
      requires index < sizeAllocated && tag < 4
      modifies data, `slots
      ensures slots == old(slots)[index := old(slots)[index].(tag := tag)]
      ensures Holds(data[..], sizeAllocated, sizeKey, sizeValue, slots)
      ensures index / 4 < data.Length
      ensures data[..] == old(data[..])[index / 4 := WithTagBits(old(data[index / 4]), index, tag)]
    {
      SlotInBlock(sizeAllocated, sizeKey + sizeValue, index);
      ghost var before := data[..];
      data[index / 4] := WithTagBits(data[index / 4], index, tag);
      TagWrite(before, data[..], sizeAllocated, sizeKey, sizeValue, slots, index, tag);
      slots := slots[index := slots[index].(tag := tag)];
    }

    /** The two `memcpy` calls of `hashmap_insert`: of all slots only this key and value change. */
    method WriteSlot(index: nat, key: seq<byte>, value: seq<byte>)
      requires Holds(data[..], sizeAllocated, sizeKey, sizeValue, slots) && index < sizeAllocated
      requires |key| == sizeKey && |value| == sizeValue
      modifies data, `slots
      ensures slots == old(slots)[index := Slot(old(slots)[index].tag, key, value)]
      ensures Holds(data[..], sizeAllocated, sizeKey, sizeValue, slots)
    {
      ghost var before := data[..];
      var keyPtr := KeyPtr(sizeAllocated, index);
      forall b | 0 <= b < sizeKey {
        data[keyPtr + b] := key[b];
      }
      forall b | 0 <= b < sizeValue {
        data[keyPtr + sizeKey + b] := value[b];
      }
      assert CopiedInto(before, data[..], sizeAllocated, key, value, index);
      SlotWrite(before, data[..], sizeAllocated, key, value, slots, index);
      slots := slots[index := Slot(slots[index].tag, key, value)];
    }

    /** Whether the key bytes of a slot are those of `key`. */
    method KeyAt(index: nat) returns (key: seq<byte>, value: seq<byte>)
      requires Holds(data[..], sizeAllocated, sizeKey, sizeValue, slots) && index < sizeAllocated
      ensures key == slots[index].key && value == slots[index].value
    {
      assert slots[index] == ReadSlot(data[..], sizeAllocated, sizeKey, sizeValue, index);
      var keyPtr := KeyPtr(sizeAllocated, index);
      var valuePtr := keyPtr + sizeKey;
      key := data[keyPtr..valuePtr];
      value := data[valuePtr..valuePtr + sizeValue];
    }

    /**
     * `hashmap_get`. The search ends because the key is there or because a slot is empty; where neither
     * holds the C loop does not end.
     */
    method Get(key: seq<byte>) returns (r: Option<seq<byte>>)
      requires Valid() && (key in Map() || HasEmpty(slots))
      ensures r == if key in Map() then Some(Map()[key]) else None
    {
      var index, found := Search(key);
      if !found {
        return None;
      }
      TakenInContents(slots, index);
      var _, value := KeyAt(index);
      return Some(value);
    }

    /** The probing loop that `hashmap_get` and `hashmap_remove` share. */
    method Search(key: seq<byte>) returns (index: nat, found: bool)
      requires Consistent() && (key in Map() || HasEmpty(slots))
      ensures index < sizeAllocated
      ensures found <==> key in Map()
      ensures found ==> HoldsKey(slots, key, index)
    {
      index := HomeOf(key);
      ghost var s, n, h, d := slots, sizeAllocated, index, 0;
      ghost var last := SearchStops(hash, s, key);
      var verdict := Examine(index, key);
      while verdict == Further
        invariant slots == s && StandsAt(s, key, index, h, d) && d <= last < n
        invariant verdict == VerdictOn(s, key, index)
        modifies {}
        decreases last - d
      {
        index, verdict := LookFurther(index, key, h, d, last);
        d := d + 1;
      }
      found := verdict == Here;
      SearchResult(hash, s, key, d);
    }

    /** Whether that loop ends: a search that has passed every slot once goes round for ever. */
    method SearchEnds(key: seq<byte>) returns (ends: bool)
      requires Consistent()
      ensures ends <==> key in Map() || HasEmpty(slots)
    {
      var index: nat := HomeOf(key);
      ghost var s, n, h := slots, sizeAllocated, index;
      var verdict, passed := Further, 0;
      while passed < sizeAllocated && verdict == Further
        invariant 0 <= passed <= n && h < n == |s| && index < n && Passed(s, key, h, passed)
        invariant if verdict == Further then index == Wrap(h, passed, n) else verdict == VerdictOn(s, key, index)
        modifies {}
        decreases n - passed, verdict == Further
      {
        verdict := Examine(index, key);
        if verdict == Further {
          PassOne(s, key, h, passed);
          index := Advance(index, h, passed);
          passed := passed + 1;
        }
      }
      ends := verdict != Further;
      SearchVerdict(hash, s, key, index, verdict);
    }

    method LookFurther(index: nat, key: seq<byte>, ghost h: nat, ghost d: nat, ghost last: nat)
      returns (next: nat, verdict: Verdict)
      requires Consistent() && StandsAt(slots, key, index, h, d) && VerdictOn(slots, key, index) == Further
      requires d <= last < |slots| && VerdictOn(slots, key, Wrap(h, last, |slots|)) != Further
      ensures d + 1 <= last && StandsAt(slots, key, next, h, d + 1)
      ensures verdict == VerdictOn(slots, key, next)
    {
      PassOne(slots, key, h, d);
      next := Advance(index, h, d);
      verdict := Examine(next, key);
    }

    /** One round of the probing loop. */
    method Examine(index: nat, key: seq<byte>) returns (verdict: Verdict)
      requires Consistent() && index < sizeAllocated
      ensures verdict == VerdictOn(slots, key, index)
    {
      var tag := TagGet(index);
      if tag == EMPTY {
        return Absent;
      }
      var here := KeyMatches(index, tag, key);
      return if here then Here else Further;
    }

    /** The tag test and the `memcmp` of the probing loop. */
    method KeyMatches(index: nat, tag: nat, key: seq<byte>) returns (b: bool)
      requires Consistent() && index < sizeAllocated && tag == slots[index].tag
      ensures b <==> HoldsKey(slots, key, index)
    {
      var k, _ := KeyAt(index);
      b := tag == TAKEN && k == key;
    }

    /** `hashmap_contains`. */
    method ContainsKey(key: seq<byte>) returns (b: bool)
      requires Valid() && (key in Map() || HasEmpty(slots))
      ensures b <==> key in Map()
    {
      var r := Get(key);
      b := r != None;
    }

    /** `hashmap_remove`, with the key address of the other operations and with indices that wrap. */
    method Remove(key: seq<byte>)
      requires Valid() && (key in Map() || HasEmpty(slots))
      modifies data, `slots, `size
      ensures Valid() && Map() == old(Map()) - {key}
      ensures old(HasEmpty(slots)) ==> HasEmpty(slots)
    {
      var index, found := Search(key);
      if found {
        ghost var before := slots;
        RemoveAt(index);
        EmptyStaysOn(before, before, slots);
      }
    }

    method RemoveAt(index: nat)
      requires Valid() && index < sizeAllocated && slots[index].tag == TAKEN
      modifies data, `slots, `size
      ensures Valid() && Map() == old(Map()) - {old(slots[index].key)}
      ensures EmptyStays(old(slots), slots)
    {
      ghost var before := slots;
      Bury(index);
      ghost var buried := slots;
      CleanUp(index);
      EmptyStaysOn(before, buried, slots);
    }

    method Bury(index: nat)
      requires Valid() && index < sizeAllocated && slots[index].tag == TAKEN
      modifies data, `slots, `size
      ensures Consistent() && slots[index].tag == GRAVE && TidyBut(slots, index)
      ensures Contents(slots) == old(Contents(slots)) - {old(slots[index].key)}
      ensures size == TakenCount(slots) && size <= sizeAllocated / 2
      ensures EmptyStays(old(slots), slots)
    {
      BuryKeepsTable(hash, slots, index);
      BuryKeepsTidyBut(slots, index);
      TagSet(index, GRAVE);
      size := size - 1;
    }

    /** Turns the graves up to `start` back to empty when the slot after it is empty. */
    method CleanUp(start: nat)
      requires Consistent() && start < sizeAllocated && slots[start].tag == GRAVE && TidyBut(slots, start)
      modifies data, `slots
      ensures Consistent() && Tidy(slots) && SameMap(old(slots), slots)
      ensures slots == MeantCleanUp(old(slots), start)
    {
      ghost var s := slots;
      var next := Advance(start, start, 0);
      var tag := TagGet(next);
      if tag != EMPTY {
        return;
      }
      var index: nat := start;
      tag := GRAVE;
      while tag == GRAVE
        invariant Consistent() && SameMap(old(slots), slots)
        invariant index < sizeAllocated == |slots| && tag == slots[index].tag
        invariant WalkRound(slots, index) == WalkRound(s, start)
        invariant slots[Wrap(index, 1, sizeAllocated)].tag == EMPTY && TidyBut(slots, index)
        decreases CountTag(slots, GRAVE)
      {
        CleanOne(index);
        index := if index == 0 then sizeAllocated - 1 else index - 1;
        tag := TagGet(index);
      }
    }

    /**
     * The same to the letter. The tag behind the last slot is read where the block has a byte for it;
     * `outside` says that the walk would go on to look at the tag before slot 0.
     */
    method CleanUpAsCoded(start: nat) returns (outside: bool)
      requires Holds(data[..], sizeAllocated, sizeKey, sizeValue, slots)
      requires start < sizeAllocated && sizeAllocated / 4 < data.Length
      modifies data, `slots
      ensures Holds(data[..], sizeAllocated, sizeKey, sizeValue, slots)
      ensures
        var end := CodedCleanUp(old(slots), start, PastTag(old(data[..]), sizeAllocated));
        slots == end.slots && outside == end.Outside?
    {
      var tag := RawTag(start + 1);
      if tag != EMPTY {
        return false;
      }
      outside := StepBack(start);
    }

    /** The loop of the clean-up to the letter. */
    method StepBack(start: nat) returns (outside: bool)
      requires Holds(data[..], sizeAllocated, sizeKey, sizeValue, slots) && start < sizeAllocated
      modifies data, `slots
      ensures Holds(data[..], sizeAllocated, sizeKey, sizeValue, slots)
      ensures slots == WalkBack(old(slots), start).slots && outside == WalkBack(old(slots), start).Outside?
    {
      ghost var s := slots;
      var index: int := start;
      var tag := TagGet(start);
      while index >= 0 && tag == GRAVE
        invariant Holds(data[..], sizeAllocated, sizeKey, sizeValue, slots)
        invariant -1 <= index < sizeAllocated == |slots|
        invariant if index >= 0 then tag == slots[index].tag && WalkBack(slots, index) == WalkBack(s, start)
          else WalkBack(s, start) == Outside(slots)
        decreases index
      {
        tag := StepOne(index);
        index := index - 1;
      }
      return index < 0;
    }

    /** One round; the tag before slot 0 is not looked at. */
    method StepOne(index: nat) returns (tag: nat)
      requires Holds(data[..], sizeAllocated, sizeKey, sizeValue, slots) && index < sizeAllocated
      modifies data, `slots
      ensures Holds(data[..], sizeAllocated, sizeKey, sizeValue, slots) && slots == Emptied(old(slots), index)
      ensures index > 0 ==> tag == slots[index - 1].tag
    {
      TagSet(index, EMPTY);
      tag := EMPTY;
      if index > 0 {
        tag := TagGet(index - 1);
      }
    }

    ghost function AsBlock(): (b: Block)
      reads this, data
    {
      Block(data[..], slots, sizeKey, sizeValue)
    }

    /** `hashmap_remove` to the letter, where its search ends. */
    method RemoveAsCoded(key: seq<byte>) returns (outside: bool)
      requires Holds(data[..], sizeAllocated, sizeKey, sizeValue, slots)
      requires Fits(AsBlock()) && size == TakenCount(slots) && !TargetOf(hash, AsBlock(), key).Endless?
      modifies data, `slots, `size
      ensures Holds(data[..], sizeAllocated, sizeKey, sizeValue, slots)
      ensures
        var end := CodedRemove(hash, old(AsBlock()), key);
        slots == end.slots && outside == end.Outside?
      ensures size == old(size) - if TargetOf(hash, old(AsBlock()), key).Buries? then 1 else 0
    {
      ghost var b := AsBlock();
      TailByteInBlock(b);
      var index, found := SearchAsCoded(key);
      if !found {
        return false;
      }
      PastTagStays(b.data, sizeAllocated, index, GRAVE);
      CountTagUpdate(slots, index, slots[index].(tag := GRAVE), TAKEN);
      SetTagBits(index, GRAVE);
      size := size - 1;
      outside := CleanUpAsCoded(index);
    }

    /** The probing loop of `hashmap_remove` to the letter. */
    method SearchAsCoded(key: seq<byte>) returns (index: nat, found: bool)
      requires Holds(data[..], sizeAllocated, sizeKey, sizeValue, slots)
      requires Fits(AsBlock()) && !TargetOf(hash, AsBlock(), key).Endless?
      ensures TargetOf(hash, AsBlock(), key) == if found then Buries(index) else Nothing
    {
      index := HomeOf(key);
      ghost var b, n, h, d := AsBlock(), sizeAllocated, index, 0;
      ghost var v := VerdictsFrom(b, key, h);
      var verdict := ExamineAsCoded(index, key);
      while verdict == Further
        invariant 0 <= d < n == |v| && index == Wrap(h, d, n) && verdict == v[d]
        invariant EndOf(v, d) == EndOf(v, 0)
        modifies {}
        decreases n - d
      {
        index := Advance(index, h, d);
        d := d + 1;
        verdict := ExamineAsCoded(index, key);
      }
      found := verdict == Here;
    }

    /** One round of it: the key is looked for where the sum of slot width and index points. */
    method ExamineAsCoded(index: nat, key: seq<byte>) returns (verdict: Verdict)
      requires Holds(data[..], sizeAllocated, sizeKey, sizeValue, slots)
      requires Fits(AsBlock()) && index < sizeAllocated
      ensures verdict == CodedVerdict(AsBlock(), key, index)
    {
      var tag := TagGet(index);
      if tag == EMPTY {
        return Absent;
      }
      ComparedInBlock(AsBlock(), index);
      var keyPtr := (sizeValue + sizeKey) + index;
      return if tag == TAKEN && data[keyPtr..keyPtr + sizeKey] == key then Here else Further;
    }

    /** `tag_get` at any index that has a byte in the block. */
    method RawTag(index: nat) returns (tag: nat)
      requires Holds(data[..], sizeAllocated, sizeKey, sizeValue, slots) && index / 4 < data.Length
      ensures tag == TagBits(data[index / 4], index)
      ensures index < sizeAllocated ==> tag == slots[index].tag
    {
      tag := TagBits(data[index / 4], index);
      if index < sizeAllocated {
        assert slots[index] == ReadSlot(data[..], sizeAllocated, sizeKey, sizeValue, index);
      }
    }

    method CleanOne(index: nat)
      requires Consistent() && index < sizeAllocated && slots[index].tag == GRAVE && TidyBut(slots, index)
      requires slots[Wrap(index, 1, sizeAllocated)].tag == EMPTY
      modifies data, `slots
      ensures Consistent() && SameMap(old(slots), slots) && slots == Emptied(old(slots), index)
      ensures TidyBut(slots, Before(index, sizeAllocated))
      ensures CountTag(slots, GRAVE) == old(CountTag(slots, GRAVE)) - 1
    {
      CleanKeepsTable(hash, slots, index);
      CleanMovesBack(slots, index);
      CountTagUpdate(slots, index, slots[index].(tag := EMPTY), GRAVE);
      TagSet(index, EMPTY);
    }

    /** `hashmap_insert`, for a key that is not in the table. */
    method Insert(key: seq<byte>, value: seq<byte>)
      requires Valid() && key !in Map() && |key| == sizeKey && |value| == sizeValue
      modifies this, data
      ensures Valid() && Map() == old(Map())[key := value]
      ensures size == old(size) + 1 && (if old(size) >= old(sizeAllocated) / 2 then fresh(data) else data == old(data))
      ensures old(NoGraves(slots)) ==> NoGraves(slots)
      ensures sizeAllocated ==
        if old(size) >= old(sizeAllocated) / 2 then old(sizeAllocated) * 2 + 1 else old(sizeAllocated)
      decreases if size >= sizeAllocated / 2 then 2 else 0
    {
      if size >= sizeAllocated / 2 {
        Grow();
      }
      InsertBelowHalf(key, value);
    }

    /** The rest of it, where there is room. */
    method InsertBelowHalf(key: seq<byte>, value: seq<byte>)
      requires Valid() && key !in Map() && |key| == sizeKey && |value| == sizeValue
      requires size < sizeAllocated / 2
      modifies data, `slots, `size
      ensures Valid() && Map() == old(Map())[key := value] && size == old(size) + 1
      ensures old(NoGraves(slots)) ==> NoGraves(slots)
    {
      ghost var d;
      var index;
      index, d := FreeSlot(key);
      Fill(index, key, value, d);
    }

    /** The probing loop of `hashmap_insert`. */
    method FreeSlot(key: seq<byte>) returns (index: nat, ghost d: nat)
      requires Readable() && TakenCount(slots) < sizeAllocated
      ensures d < sizeAllocated && index == Wrap(Home(hash, key, sizeAllocated), d, sizeAllocated)
      ensures PathClear(slots, Home(hash, key, sizeAllocated), d) && slots[index].tag != TAKEN
      ensures d == FreeFrom(slots, Home(hash, key, sizeAllocated), 0)
    {
      SomeSlotFree(slots);
      index := HomeOf(key);
      ghost var s, n, h := slots, sizeAllocated, index;
      d := 0;
      var tag := TagGet(index);
      while tag != EMPTY && tag != GRAVE
        invariant 0 <= d < n && index == Wrap(h, d, n) && tag == s[index].tag
        invariant AllTaken(s, h, d)
        modifies {}
        decreases n - d
      {
        SomeFreeAhead(s, h, d);
        index := Advance(index, h, d);
        d := d + 1;
        tag := TagGet(index);
      }
      TakenIsClear(s, h, d);
      FreeFromIs(s, h, 0, d);
    }

    /** Key, value and tag go into the slot that the probing loop found. */
    method Fill(index: nat, key: seq<byte>, value: seq<byte>, ghost d: nat)
      requires Valid() && key !in Map() && |key| == sizeKey && |value| == sizeValue
      requires size < sizeAllocated / 2 && d < sizeAllocated
      requires index == Wrap(Home(hash, key, sizeAllocated), d, sizeAllocated) && slots[index].tag != TAKEN
      requires PathClear(slots, Home(hash, key, sizeAllocated), d)
      modifies data, `slots, `size
      ensures Valid() && Map() == old(Map())[key := value] && size == old(size) + 1
      ensures old(NoGraves(slots)) ==> NoGraves(slots)
    {
      PlaceKeepsTable(hash, slots, key, value, d);
      ghost var after := slots[index := Slot(TAKEN, key, value)];
      PlaceKeepsTidy(slots, index, Slot(TAKEN, key, value));
      WriteSlot(index, key, value);
      TagSet(index, TAKEN);
      assert slots == after;
      size := size + 1;
    }

    /** `hashmap_grow`: every taken slot of the old block is inserted into a block of 2n + 1 slots. */
    method Grow()
      requires Valid()
      modifies this, data
      ensures Valid() && Map() == old(Map()) && size == old(size)
      ensures sizeAllocated == old(sizeAllocated) * 2 + 1
      ensures fresh(data) && NoGraves(slots) && HasEmpty(slots)
      decreases 1, 2
    {
      var oldAllocated := sizeAllocated;
      var oldData := data;
      ghost var oldSlots := slots;
      NewBlock();
      Rehash(oldData, oldAllocated, oldSlots);
    }

    /** The loop of `hashmap_grow`. */
    method Rehash(oldData: array<byte>, oldAllocated: nat, ghost oldSlots: seq<Slot>)
      requires Valid() && NoGraves(slots) && oldData != data && sizeAllocated == oldAllocated * 2 + 1
      requires Holds(oldData[..], oldAllocated, sizeKey, sizeValue, oldSlots)
      requires Unique(oldSlots) && Map() == map[] && size == 0
      modifies this, data
      ensures Valid() && NoGraves(slots) && HasEmpty(slots) && data == old(data)
      ensures Map() == Contents(oldSlots) && size == TakenCount(oldSlots) && sizeAllocated == old(sizeAllocated)
      decreases 1, 1
    {
      assert oldSlots[..0] == [];
      for i := 0 to oldAllocated
        invariant Valid() && NoGraves(slots) && data == old(data) && sizeAllocated == oldAllocated * 2 + 1
        invariant oldData[..] == old(oldData[..])
        invariant Map() == Contents(oldSlots[..i])
        invariant size == TakenCount(oldSlots[..i])
      {
        CopyOld(oldData, oldAllocated, i, oldSlots);
      }
      assert oldSlots[..oldAllocated] == oldSlots;
      EmptyFromLoad(hash, slots);
    }

    /** One round of the growth loop. */
    method CopyOld(oldData: array<byte>, oldAllocated: nat, i: nat, ghost oldSlots: seq<Slot>)
      requires Valid() && NoGraves(slots) && oldData != data && sizeAllocated == oldAllocated * 2 + 1
      requires Holds(oldData[..], oldAllocated, sizeKey, sizeValue, oldSlots) && i < oldAllocated
      requires Unique(oldSlots) && Map() == Contents(oldSlots[..i]) && size == TakenCount(oldSlots[..i])
      modifies this, data
      ensures Valid() && NoGraves(slots) && data == old(data) && sizeAllocated == old(sizeAllocated)
      ensures Map() == Contents(oldSlots[..i + 1]) && size == TakenCount(oldSlots[..i + 1])
      decreases 1, 0
    {
      PrefixStep(oldSlots, i);
      var tag, key, value := ReadOld(oldData, oldAllocated, i, oldSlots);
      if tag == TAKEN {
        Insert(key, value);
      }
    }

    /** Size of a block, computed as `hashmap_grow` does. */
    method BlockBytes(total: nat) returns (bytes: nat)
      ensures bytes == BlockLength(total, sizeKey + sizeValue)
    {
      var tagBytes := (total * 2 + 7) / 8;
      var dataBytes := (sizeKey + sizeValue) * total;
      TagAreasAgree(total);
      SpanIsProduct(sizeKey + sizeValue, total);
      bytes := tagBytes + dataBytes;
    }

    /** A zeroed block for 2n + 1 slots. */
    method NewBlock()
      modifies this
      ensures Valid() && Map() == map[] && size == 0 && fresh(data) && NoGraves(slots)
      ensures OnlyZeros(slots, sizeKey, sizeValue) && slots == Blank(sizeAllocated, sizeKey, sizeValue)
      ensures sizeAllocated == old(sizeAllocated) * 2 + 1
    {
      var bytes := BlockBytes(sizeAllocated * 2 + 1);
      sizeAllocated := sizeAllocated * 2 + 1;
      data := new byte[bytes](_ => 0);
      size := 0;
      slots := seq(sizeAllocated, _ => Slot(EMPTY, Zeros(sizeKey), Zeros(sizeValue)));
      ZeroBlock(data[..], sizeAllocated, sizeKey, sizeValue);
      EmptyTable(hash, slots);
    }

    /** One slot of the block that growth leaves behind. */
    method ReadOld(oldData: array<byte>, oldAllocated: nat, i: nat, ghost oldSlots: seq<Slot>)
      returns (tag: nat, key: seq<byte>, value: seq<byte>)
      requires Holds(oldData[..], oldAllocated, sizeKey, sizeValue, oldSlots) && i < oldAllocated
      ensures oldSlots[i] == Slot(tag, key, value) && |key| == sizeKey && |value| == sizeValue
    {
      assert oldSlots[i] == ReadSlot(oldData[..], oldAllocated, sizeKey, sizeValue, i);
      var keyPtr := KeyPtr(oldAllocated, i);
      var valuePtr := keyPtr + sizeKey;
      tag := OldTag(oldData, oldAllocated, i, oldSlots);
      key := oldData[keyPtr..valuePtr];
      value := oldData[valuePtr..valuePtr + sizeValue];
    }

    // ------------------------------------------------------------ growth as the C text has it

    /**
     * `hashmap_grow` to the letter: it visits only the whole tag bytes of the old block, and it reads each
     * key and value from the new block, which is still all zeros.
     */
    method GrowAsCoded()
      requires Readable() && sizeKey > 0
      modifies this, data
      ensures Readable() && sizeAllocated == old(sizeAllocated) * 2 + 1 && fresh(data)
      ensures slots == GrownAsCoded(hash, old(slots), sizeKey, sizeValue)
      ensures OnlyZeros(slots, sizeKey, sizeValue)
      ensures size == TakenCount(slots) == TakenCount(old(slots)[..Visited(|old(slots)|)])
    {
      GrownIs(hash, slots, sizeKey, sizeValue);
      GrowBlindly();
    }

    /** Its two halves. */
    method GrowBlindly()
      requires Readable() && sizeKey > 0
      modifies this, data
      ensures Readable() && sizeAllocated == old(sizeAllocated) * 2 + 1 && fresh(data)
      ensures slots == GrownAsCoded(hash, old(slots), sizeKey, sizeValue) && size == TakenCount(slots)
    {
      ghost var oldSlots := slots;
      var oldTags, oldAllocated := StartGrowth();
      RehashAsCoded(oldTags, oldAllocated, oldSlots);
    }

    /** A zeroed block takes the place of the old one. */
    method StartGrowth() returns (oldTags: seq<byte>, oldAllocated: nat)
      requires Readable() && sizeKey > 0
      modifies this
      ensures oldAllocated == old(sizeAllocated) && fresh(data)
      ensures Visiting(oldTags, oldAllocated, 0, old(slots))
    {
      oldAllocated := sizeAllocated;
      oldTags := data[..];
      NewBlock();
    }

    /**
     * The new block after growth to the letter has visited the first `m` slots of the old one, which is
     * only read.
     */
    ghost predicate Visiting(oldTags: seq<byte>, oldAllocated: nat, m: nat, oldSlots: seq<Slot>)
      reads this, data
    {
      && Readable() && sizeKey > 0 && size == TakenCount(slots)
      && sizeAllocated == oldAllocated * 2 + 1 && m <= oldAllocated
      && Holds(oldTags, oldAllocated, sizeKey, sizeValue, oldSlots)
      && slots == ZeroCopies(hash, oldSlots, m, sizeAllocated, sizeKey, sizeValue)
    }

    /** The loop of `hashmap_grow` to the letter. */
    method RehashAsCoded(oldTags: seq<byte>, oldAllocated: nat, ghost oldSlots: seq<Slot>)
      requires Visiting(oldTags, oldAllocated, 0, oldSlots)
      modifies data, `slots, `size
      ensures Visiting(oldTags, oldAllocated, Visited(oldAllocated), oldSlots)
    {
      for m := 0 to Visited(oldAllocated)
        invariant Visiting(oldTags, oldAllocated, m, oldSlots)
      {
        CopyAsCoded(oldTags, oldAllocated, m, oldSlots);
      }
    }

    /** One round of the growth loop as coded; the nested growth test is false, as `size` is below n. */
    method CopyAsCoded(oldTags: seq<byte>, oldAllocated: nat, m: nat, ghost oldSlots: seq<Slot>)
      requires Visiting(oldTags, oldAllocated, m, oldSlots) && m < oldAllocated
      modifies data, `slots, `size
      ensures Visiting(oldTags, oldAllocated, m + 1, oldSlots)
    {
      ZeroCopiesAre(hash, oldSlots, m, sizeAllocated, sizeKey, sizeValue);
      SlotInBlock(oldAllocated, sizeKey + sizeValue, m);
      assert oldSlots[m] == ReadSlot(oldTags, oldAllocated, sizeKey, sizeValue, m);
      if TagBits(oldTags[m / 4], m) == TAKEN {
        var key, value := ReadAhead(m);
        InsertRaw(key, value);
      }
    }

    method OldTag(oldTags: array<byte>, oldAllocated: nat, m: nat, ghost oldSlots: seq<Slot>) returns (tag: nat)
      requires Holds(oldTags[..], oldAllocated, sizeKey, sizeValue, oldSlots) && m < oldAllocated
      ensures tag == oldSlots[m].tag
    {
      assert oldSlots[m] == ReadSlot(oldTags[..], oldAllocated, sizeKey, sizeValue, m);
      tag := TagBits(oldTags[m / 4], m);
    }

    /** Key and value as `hashmap_grow` addresses them: `m` bytes behind the first slot of the new block. */
    method ReadAhead(m: nat) returns (key: seq<byte>, value: seq<byte>)
      requires Readable() && OnlyZeros(slots, sizeKey, sizeValue)
      requires sizeKey > 0 && m + 1 < sizeAllocated
      ensures key == Zeros(sizeKey) && value == Zeros(sizeValue)
    {
      var keyPtr := (sizeAllocated + 3) / 4 + ((sizeValue + sizeKey) + m);
      SpanAtLeast(sizeKey + sizeValue, sizeAllocated, m);
      ZeroBytes(data[..], sizeAllocated, sizeKey, sizeValue, slots, sizeAllocated);
      var valuePtr := keyPtr + sizeKey;
      key := data[keyPtr..valuePtr];
      value := data[valuePtr..valuePtr + sizeValue];
      assert forall b :: 0 <= b < sizeKey ==> key[b] == data[..][keyPtr + b];
      assert forall b :: 0 <= b < sizeValue ==> value[b] == data[..][valuePtr + b];
    }

    /** `hashmap_insert` without its growth branch, whatever keys the table holds. */
    method InsertRaw(key: seq<byte>, value: seq<byte>)
      requires Readable() && size == TakenCount(slots) < sizeAllocated
      requires |key| == sizeKey && |value| == sizeValue
      modifies data, `slots, `size
      ensures Readable() && size == TakenCount(slots) == old(size) + 1
      ensures slots == Placed(hash, old(slots), key, value)
    {
      ghost var d;
      var i;
      i, d := FreeSlot(key);
      CountTagUpdate(slots, i, Slot(TAKEN, key, value), TAKEN);
      ghost var after := slots[i := Slot(TAKEN, key, value)];
      WriteSlot(i, key, value);
      TagSet(i, TAKEN);
      assert slots == after;
      size := size + 1;
    }

    /** `hashmap_insert` to the letter, whatever keys the table holds. */
    method InsertToTheLetter(key: seq<byte>, value: seq<byte>)
      requires Readable() && size == TakenCount(slots) <= sizeAllocated / 2
      requires |key| == sizeKey && |value| == sizeValue && sizeKey > 0
      modifies this, data
      ensures Readable() && size == TakenCount(slots)
      ensures slots == InsertedAsCoded(hash, old(slots), key, value)
    {
      PrefixSees(slots, Visited(sizeAllocated));
      if size >= sizeAllocated / 2 {
        GrowAsCoded();
      }
      InsertRaw(key, value);
    }

    /**
     * `hashmap_insert` with growth as coded. It inserts into the map exactly when the guard of its growth
     * branch is false; otherwise keys are lost.
     */
    method InsertAsCoded(key: seq<byte>, value: seq<byte>)
      requires Valid() && key !in Map() && |key| == sizeKey && |value| == sizeValue
      requires sizeKey > 0 && sizeAllocated >= SIZE_INIT
      modifies this, data
      ensures Map() == old(Map())[key := value] <==> old(size) < old(sizeAllocated) / 2
      ensures old(size) >= old(sizeAllocated) / 2 ==> exists k :: k in old(Map()) && k !in Map()
    {
      InsertedLosesIff(hash, slots, key, value);
      InsertToTheLetter(key, value);
    }
  }

  /** What insertion to the letter does to the map. */
  lemma InsertedLosesIff(hash: Hash, slots: seq<Slot>, key: seq<byte>, value: seq<byte>)
    requires GoodTable(hash, slots) && key !in Contents(slots) && |slots| >= SIZE_INIT
    requires TakenCount(slots) <= |slots| / 2
    ensures var after := InsertedAsCoded(hash, slots, key, value);
      && (Contents(after) == Contents(slots)[key := value] <==> TakenCount(slots) < |slots| / 2)
      && (TakenCount(slots) >= |slots| / 2 ==> exists k :: k in Contents(slots) && k !in Contents(after))
  {
    var room := RoomAsCoded(hash, slots, |key|, |value|);
    if TakenCount(slots) >= |slots| / 2 {
      GrownIs(hash, slots, |key|, |value|);
      PrefixSees(slots, Visited(|slots|));
      var index := PlacedKeeps(hash, room, key, value);
      KeyIsLost(slots, room, index, key, value, |key|, |value|);
    } else {
      var index := PlacedKeeps(hash, room, key, value);
      PlaceContents(slots, index, key, value);
    }
  }

  lemma {:induction false} TwoTaken(slots: seq<Slot>) returns (i: nat, j: nat)
    requires TakenCount(slots) > 1
    ensures i < j < |slots| && slots[i].tag == TAKEN && slots[j].tag == TAKEN
  {
    if slots[0].tag == TAKEN {
      i := 0;
      j := SomeTaken(slots[1..]);
      j := j + 1;
    } else {
      i, j := TwoTaken(slots[1..]);
      i, j := i + 1, j + 1;
    }
  }

  /** Growth as coded keeps at most the zero key, so of two old keys one is gone. */
  lemma KeyIsLost(before: seq<Slot>, zeroed: seq<Slot>, index: nat, key: seq<byte>, value: seq<byte>,
                  sizeKey: nat, sizeValue: nat)
    requires Unique(before) && TakenCount(before) > 1 && key !in Contents(before)
    requires OnlyZeros(zeroed, sizeKey, sizeValue) && index < |zeroed|
    ensures exists k :: k in Contents(before) && k !in Contents(zeroed[index := Slot(TAKEN, key, value)])
  {
    var i, j := TwoTaken(before);
    var lost := if before[i].key == Zeros(sizeKey) then before[j].key else before[i].key;
    assert lost in Contents(before) && lost != Zeros(sizeKey) && lost != key;
    var after := zeroed[index := Slot(TAKEN, key, value)];
    forall m | 0 <= m < |after|
      ensures !HoldsKey(after, lost, m)
    {
    }
    assert lost !in Keys(after);
  }
}
