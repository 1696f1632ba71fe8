/**
 * Linear probing with tombstones on a sequence of slots: the invariant of hashmap.c and what single slot
 * changes do to it and to the finite map that the slots stand for.
 */
module ProbeTable {
  import opened Net
  import opened FlatLayout

  type Hash = seq<byte> -> nat

  /** The remainder of a division, by repeated subtraction. */
  function Residue(a: nat, n: nat): (r: nat)
    requires n > 0
    ensures r < n
  {
    if a < n then a else Residue(a - n, n)
  }

  lemma ResidueIsMod(a: nat, n: nat)
    requires n > 0
    ensures Residue(a, n) == a % n
  {
    var q, r := a / n, a % n;
    SpanIsProduct(n, q);
    assert a == Span(n, q) + r;
    ResidueOfSum(q, r, n);
  }

  lemma {:induction false} ResidueOfSum(q: nat, r: nat, n: nat)
    requires r < n
    ensures Residue(Span(n, q) + r, n) == r
  {
    if q > 0 {
      ResidueOfSum(q - 1, r, n);
    }
  }

  /** The slot a key's search starts at. */
  function Home(hash: Hash, key: seq<byte>, n: nat): (h: nat)
    requires n > 0
    ensures h < n
  {
    Residue(hash(key), n)
  }

  /** The slot `d` steps after `h`, cyclically. */
  function Wrap(h: nat, d: nat, n: nat): (i: nat)
    requires h < n && d <= n
    ensures i < n
  {
    if h + d < n then h + d else h + d - n
  }

  /** Steps from `h` to `i`, cyclically. */
  function Dist(h: nat, i: nat, n: nat): (d: nat)
    requires h < n && i < n
    ensures d < n && Wrap(h, d, n) == i
  {
    if h <= i then i - h else i + n - h
  }

  /** None of the `d` slots from `h` on is empty. */
  predicate PathClear(slots: seq<Slot>, h: nat, d: nat)
    requires h < |slots| && d <= |slots|
  {
    forall e :: 0 <= e < d ==> slots[Wrap(h, e, |slots|)].tag != EMPTY
  }

  /** No empty slot lies between the home of what slot `i` holds and the slot. */
  predicate ChainAt(hash: Hash, slots: seq<Slot>, i: nat)
    requires i < |slots|
  {
    slots[i].tag == TAKEN ==>
      var h := Home(hash, slots[i].key, |slots|);
      PathClear(slots, h, Dist(h, i, |slots|))
  }

  predicate Chain(hash: Hash, slots: seq<Slot>) {
    forall i :: 0 <= i < |slots| ==> ChainAt(hash, slots, i)
  }

  predicate Unique(slots: seq<Slot>) {
    forall i, j :: 0 <= i < j < |slots| && slots[i].tag == TAKEN && slots[j].tag == TAKEN ==>
      slots[i].key != slots[j].key
  }

  predicate GoodTable(hash: Hash, slots: seq<Slot>) {
    |slots| > 0 && Chain(hash, slots) && Unique(slots) && forall i :: 0 <= i < |slots| ==> slots[i].tag <= GRAVE
  }

  predicate HasEmpty(slots: seq<Slot>) {
    exists i :: 0 <= i < |slots| && slots[i].tag == EMPTY
  }

  predicate NoGraves(slots: seq<Slot>) {
    forall i :: 0 <= i < |slots| ==> slots[i].tag != GRAVE
  }

  predicate HoldsKey(slots: seq<Slot>, key: seq<byte>, i: nat)
    requires i < |slots|
  {
    slots[i].tag == TAKEN && slots[i].key == key
  }

  ghost function Keys(slots: seq<Slot>): (s: set<seq<byte>>)
    ensures forall i :: 0 <= i < |slots| && slots[i].tag == TAKEN ==> slots[i].key in s
    ensures forall key :: key in s ==> exists i :: 0 <= i < |slots| && HoldsKey(slots, key, i)
  {
    set i | 0 <= i < |slots| && HoldsKey(slots, slots[i].key, i) :: slots[i].key
  }

  /** The first slot that holds `key`. */
  ghost function FindKey(slots: seq<Slot>, key: seq<byte>): (i: nat)
    requires key in Keys(slots)
    ensures i < |slots| && HoldsKey(slots, key, i)
  {
    if HoldsKey(slots, key, 0) then 0
    else
      var i :| 0 <= i < |slots| && HoldsKey(slots, key, i);
      assert slots[1..][i - 1] == slots[i];
      1 + FindKey(slots[1..], key)
  }

  /** The finite map that the taken slots stand for. */
  ghost function Contents(slots: seq<Slot>): (m: map<seq<byte>, seq<byte>>)
    ensures m.Keys == Keys(slots)
  {
    map key | key in Keys(slots) :: slots[FindKey(slots, key)].value
  }

  lemma TakenInContents(slots: seq<Slot>, i: nat)
    requires i < |slots| && slots[i].tag == TAKEN && Unique(slots)
    ensures slots[i].key in Contents(slots) && Contents(slots)[slots[i].key] == slots[i].value
  {
  }

  /** Number of slots with this tag. */
  function CountTag(slots: seq<Slot>, tag: nat): (c: nat)
    ensures c <= |slots|
  {
    if slots == [] then 0 else (if slots[0].tag == tag then 1 else 0) + CountTag(slots[1..], tag)
  }

  function TakenCount(slots: seq<Slot>): (c: nat)
    ensures c <= |slots|
  {
    CountTag(slots, TAKEN)
  }

  lemma {:induction false} CountTagUpdate(slots: seq<Slot>, i: nat, s: Slot, tag: nat)
    requires i < |slots|
    ensures CountTag(slots[i := s], tag) == CountTag(slots, tag)
      - (if slots[i].tag == tag then 1 else 0) + (if s.tag == tag then 1 else 0)
  {
    if i == 0 {
      assert slots[0 := s][1..] == slots[1..];
    } else {
      assert slots[i := s][1..] == slots[1..][i - 1 := s];
      CountTagUpdate(slots[1..], i - 1, s, tag);
    }
  }

  lemma {:induction false} SomeSlotFree(slots: seq<Slot>)
    requires TakenCount(slots) < |slots|
    ensures exists i :: 0 <= i < |slots| && slots[i].tag != TAKEN
  {
    if slots[0].tag == TAKEN {
      SomeSlotFree(slots[1..]);
      var i :| 0 <= i < |slots[1..]| && slots[1..][i].tag != TAKEN;
      assert slots[i + 1].tag != TAKEN;
    }
  }

  lemma {:induction false} NothingTaken(slots: seq<Slot>)
    requires forall i :: 0 <= i < |slots| ==> slots[i].tag == EMPTY
    ensures TakenCount(slots) == 0
  {
    if slots != [] {
      NothingTaken(slots[1..]);
    }
  }

  lemma EmptyTable(hash: Hash, slots: seq<Slot>)
    requires |slots| > 0 && forall i :: 0 <= i < |slots| ==> slots[i].tag == EMPTY
    ensures GoodTable(hash, slots) && Contents(slots) == map[] && TakenCount(slots) == 0
    ensures NoGraves(slots) && HasEmpty(slots) && Tidy(slots)
  {
    NothingTaken(slots);
    assert slots[0].tag == EMPTY;
    if key :| key in Keys(slots) {
      var i := FindKey(slots, key);
      assert false;
    }
  }

  // ---------------------------------------------------------------- searching

  /** The search for `key` goes past its first `d` slots. */
  predicate Passed(slots: seq<Slot>, key: seq<byte>, h: nat, d: nat)
    requires h < |slots| && d <= |slots|
  {
    forall e :: 0 <= e < d ==>
      slots[Wrap(h, e, |slots|)].tag != EMPTY && !HoldsKey(slots, key, Wrap(h, e, |slots|))
  }

  /** A search that meets an empty slot has missed nothing. */
  lemma EmptyMeansAbsent(hash: Hash, slots: seq<Slot>, key: seq<byte>, d: nat)
    requires GoodTable(hash, slots) && d < |slots|
    requires Passed(slots, key, Home(hash, key, |slots|), d)
    requires slots[Wrap(Home(hash, key, |slots|), d, |slots|)].tag == EMPTY
    ensures key !in Contents(slots)
  {
    var n := |slots|;
    var h := Home(hash, key, n);
    forall i | 0 <= i < n
      ensures !HoldsKey(slots, key, i)
    {
      var e := Dist(h, i, n);
      assert Wrap(h, e, n) == i;
      assert ChainAt(hash, slots, i);
      assert e < d ==> !HoldsKey(slots, key, Wrap(h, e, n));
    }
  }

  /** A search ends within one round exactly when the key is present or some slot is empty. */
  lemma SearchEndsIff(hash: Hash, slots: seq<Slot>, key: seq<byte>)
    requires GoodTable(hash, slots)
    ensures Passed(slots, key, Home(hash, key, |slots|), |slots|)
      <==> key !in Contents(slots) && !HasEmpty(slots)
  {
    var n := |slots|;
    var h := Home(hash, key, n);
    if Passed(slots, key, h, n) {
      forall i | 0 <= i < n
        ensures slots[i].tag != EMPTY && !HoldsKey(slots, key, i)
      {
        assert Wrap(h, Dist(h, i, n), n) == i;
      }
    }
  }

  /** What a search for `key` concludes from one slot. */
  datatype Verdict = Here | Absent | Further

  function VerdictOn(slots: seq<Slot>, key: seq<byte>, i: nat): (v: Verdict)
    requires i < |slots|
  {
    if slots[i].tag == EMPTY then Absent else if HoldsKey(slots, key, i) then Here else Further
  }

  /** A search from `h` that has passed `d` slots looks at slot `index`. */
  predicate StandsAt(slots: seq<Slot>, key: seq<byte>, index: nat, h: nat, d: nat) {
    h < |slots| && d < |slots| && index == Wrap(h, d, |slots|) && Passed(slots, key, h, d)
  }

  lemma PassOne(slots: seq<Slot>, key: seq<byte>, h: nat, d: nat)
    requires h < |slots| && d < |slots| && Passed(slots, key, h, d)
    requires VerdictOn(slots, key, Wrap(h, d, |slots|)) == Further
    ensures Passed(slots, key, h, d + 1)
  {
  }

  /** The step at which the search ends. */
  lemma SearchStops(hash: Hash, slots: seq<Slot>, key: seq<byte>) returns (last: nat)
    requires GoodTable(hash, slots) && (key in Contents(slots) || HasEmpty(slots))
    ensures last < |slots| && VerdictOn(slots, key, Wrap(Home(hash, key, |slots|), last, |slots|)) != Further
  {
    var h := Home(hash, key, |slots|);
    SearchEndsIff(hash, slots, key);
    last :| 0 <= last < |slots| && VerdictOn(slots, key, Wrap(h, last, |slots|)) != Further;
  }

  /** The slot at which a search ends decides whether the key is there. */
  lemma SearchResult(hash: Hash, slots: seq<Slot>, key: seq<byte>, d: nat)
    requires GoodTable(hash, slots) && d < |slots|
    requires Passed(slots, key, Home(hash, key, |slots|), d)
    requires VerdictOn(slots, key, Wrap(Home(hash, key, |slots|), d, |slots|)) != Further
    ensures key in Contents(slots)
      <==> HoldsKey(slots, key, Wrap(Home(hash, key, |slots|), d, |slots|))
  {
    if slots[Wrap(Home(hash, key, |slots|), d, |slots|)].tag == EMPTY {
      EmptyMeansAbsent(hash, slots, key, d);
    }
  }

  /** Either one slot decided a search, or it went all round; the latter means that it never ends. */
  lemma SearchVerdict(hash: Hash, slots: seq<Slot>, key: seq<byte>, i: nat, verdict: Verdict)
    requires GoodTable(hash, slots) && i < |slots|
    requires if verdict == Further then Passed(slots, key, Home(hash, key, |slots|), |slots|)
      else verdict == VerdictOn(slots, key, i)
    ensures verdict != Further <==> key in Contents(slots) || HasEmpty(slots)
  {
    SearchEndsIff(hash, slots, key);
  }

  // ---------------------------------------------------------------- changing one slot

  lemma NonEmptyKeepsPath(slots: seq<Slot>, after: seq<Slot>, h: nat, d: nat)
    requires |slots| == |after| && h < |slots| && d <= |slots| && PathClear(slots, h, d)
    requires forall i :: 0 <= i < |slots| && slots[i].tag != EMPTY ==> after[i].tag != EMPTY
    ensures PathClear(after, h, d)
  {
  }

  /** A changed slot that is not empty breaks no other slot's chain. */
  lemma NonEmptyKeepsChain(hash: Hash, slots: seq<Slot>, after: seq<Slot>, i: nat)
    requires |slots| == |after| && i < |slots| && Chain(hash, slots) && after[i].tag != EMPTY
    requires forall j :: 0 <= j < |slots| && j != i ==> after[j] == slots[j]
    requires after[i].tag == TAKEN ==>
      var h := Home(hash, after[i].key, |slots|);
      PathClear(slots, h, Dist(h, i, |slots|))
    ensures Chain(hash, after)
  {
    forall j | 0 <= j < |slots|
      ensures ChainAt(hash, after, j)
    {
      if after[j].tag == TAKEN {
        var h := Home(hash, after[j].key, |slots|);
        assert j != i ==> ChainAt(hash, slots, j);
        NonEmptyKeepsPath(slots, after, h, Dist(h, j, |slots|));
      }
    }
  }

  /** The first free slot of the search receives a new key. */
  lemma PlaceKeepsTable(hash: Hash, slots: seq<Slot>, key: seq<byte>, value: seq<byte>, d: nat)
    requires GoodTable(hash, slots) && d < |slots| && key !in Contents(slots)
    requires var h := Home(hash, key, |slots|);
      PathClear(slots, h, d) && slots[Wrap(h, d, |slots|)].tag != TAKEN
    ensures var after := slots[Wrap(Home(hash, key, |slots|), d, |slots|) := Slot(TAKEN, key, value)];
      && GoodTable(hash, after)
      && Contents(after) == Contents(slots)[key := value]
      && TakenCount(after) == TakenCount(slots) + 1
  {
    var n := |slots|;
    var h := Home(hash, key, n);
    var i := Wrap(h, d, n);
    var after := slots[i := Slot(TAKEN, key, value)];
    CountTagUpdate(slots, i, Slot(TAKEN, key, value), TAKEN);
    assert Dist(h, i, n) == d;
    NonEmptyKeepsChain(hash, slots, after, i);
    PlaceContents(slots, i, key, value);
  }

  lemma PlaceContents(slots: seq<Slot>, i: nat, key: seq<byte>, value: seq<byte>)
    requires i < |slots| && slots[i].tag != TAKEN && Unique(slots) && key !in Contents(slots)
    ensures var after := slots[i := Slot(TAKEN, key, value)];
      Unique(after) && Contents(after) == Contents(slots)[key := value]
  {
    var after := slots[i := Slot(TAKEN, key, value)];
    assert Unique(after);
    assert HoldsKey(after, key, i);
    forall k | k in Contents(after)
      ensures k in Contents(slots)[key := value] && Contents(after)[k] == Contents(slots)[key := value][k]
    {
      var j := FindKey(after, k);
      TakenInContents(after, j);
      if j != i {
        TakenInContents(slots, j);
      }
    }
    forall k | k in Contents(slots)
      ensures k in Contents(after)
    {
      var j := FindKey(slots, k);
      assert HoldsKey(after, k, j);
      TakenInContents(after, j);
    }
  }

  /** Turning a taken slot into a grave forgets its key. */
  lemma BuryKeepsTable(hash: Hash, slots: seq<Slot>, i: nat)
    requires GoodTable(hash, slots) && i < |slots| && slots[i].tag == TAKEN
    ensures var after := slots[i := slots[i].(tag := GRAVE)];
      && GoodTable(hash, after)
      && Contents(after) == Contents(slots) - {slots[i].key}
      && TakenCount(after) == TakenCount(slots) - 1
  {
    var n := |slots|;
    var after := slots[i := slots[i].(tag := GRAVE)];
    CountTagUpdate(slots, i, slots[i].(tag := GRAVE), TAKEN);
    NonEmptyKeepsChain(hash, slots, after, i);
    SameTakenContents(slots, after, i);
  }

  /** Slots that agree on what is taken, but for slot `i`, stand for maps that agree but for its key. */
  lemma SameTakenContents(slots: seq<Slot>, after: seq<Slot>, i: nat)
    requires |slots| == |after| && i < |slots| && Unique(slots) && after[i].tag != TAKEN
    requires forall j :: 0 <= j < |slots| && j != i ==> after[j] == slots[j]
    ensures Unique(after)
    ensures Contents(after) ==
      if slots[i].tag == TAKEN then Contents(slots) - {slots[i].key} else Contents(slots)
  {
    StillUnique(slots, after, i);
    forall k | k in Contents(after)
      ensures k in Contents(slots) && Contents(after)[k] == Contents(slots)[k]
      ensures slots[i].tag == TAKEN ==> k != slots[i].key
    {
      SameValue(slots, after, i, k);
    }
    StillHeld(slots, after, i);
  }

  lemma StillUnique(slots: seq<Slot>, after: seq<Slot>, i: nat)
    requires |slots| == |after| && i < |slots| && Unique(slots) && after[i].tag != TAKEN
    requires forall j :: 0 <= j < |slots| && j != i ==> after[j] == slots[j]
    ensures Unique(after)
  {
  }

  lemma SameValue(slots: seq<Slot>, after: seq<Slot>, i: nat, k: seq<byte>)
    requires |slots| == |after| && i < |slots| && Unique(slots) && after[i].tag != TAKEN
    requires forall j :: 0 <= j < |slots| && j != i ==> after[j] == slots[j]
    requires k in Contents(after)
    ensures k in Contents(slots) && Contents(after)[k] == Contents(slots)[k]
    ensures slots[i].tag == TAKEN ==> k != slots[i].key
  {
    var j := FindKey(after, k);
    assert j != i;
    TakenInContents(slots, j);
  }

  lemma StillHeld(slots: seq<Slot>, after: seq<Slot>, i: nat)
    requires |slots| == |after| && i < |slots|
    requires forall j :: 0 <= j < |slots| && j != i ==> after[j] == slots[j]
    ensures forall k :: k in Keys(slots) && !HoldsKey(slots, k, i) ==> k in Keys(after)
  {
    forall k | k in Keys(slots) && !HoldsKey(slots, k, i)
      ensures k in Keys(after)
    {
      var j := FindKey(slots, k);
      assert after[j] == slots[j];
    }
  }

  /** A grave whose successor is empty can become empty: no key's path runs through it. */
  lemma CleanKeepsTable(hash: Hash, slots: seq<Slot>, i: nat)
    requires GoodTable(hash, slots) && i < |slots| && slots[i].tag == GRAVE
    requires slots[Wrap(i, 1, |slots|)].tag == EMPTY
    ensures var after := slots[i := slots[i].(tag := EMPTY)];
      && GoodTable(hash, after)
      && Contents(after) == Contents(slots)
      && TakenCount(after) == TakenCount(slots)
  {
    var n := |slots|;
    var after := slots[i := slots[i].(tag := EMPTY)];
    CountTagUpdate(slots, i, slots[i].(tag := EMPTY), TAKEN);
    forall j | 0 <= j < n
      ensures ChainAt(hash, after, j)
    {
      var h := Home(hash, slots[j].key, n);
      var d := Dist(h, j, n);
      assert ChainAt(hash, slots, j);
      forall e | 0 <= e < d && after[j].tag == TAKEN
        ensures after[Wrap(h, e, n)].tag != EMPTY
      {
        assert Wrap(Wrap(h, e, n), 1, n) == Wrap(h, e + 1, n);
        assert e + 1 < d ==> slots[Wrap(h, e + 1, n)].tag != EMPTY;
      }
    }
    SameTakenContents(slots, after, i);
  }

  // ---------------------------------------------------------------- clean-up

  /** No grave is directly followed by an empty slot. */
  predicate Tidy(slots: seq<Slot>) {
    forall i :: 0 <= i < |slots| && slots[i].tag == GRAVE ==> slots[Wrap(i, 1, |slots|)].tag != EMPTY
  }

  /** The same, but for one slot. */
  predicate TidyBut(slots: seq<Slot>, index: nat) {
    forall i :: 0 <= i < |slots| && i != index && slots[i].tag == GRAVE ==> slots[Wrap(i, 1, |slots|)].tag != EMPTY
  }

  lemma PlaceKeepsTidy(slots: seq<Slot>, i: nat, s: Slot)
    requires i < |slots| && Tidy(slots) && s.tag == TAKEN
    ensures Tidy(slots[i := s]) && (NoGraves(slots) ==> NoGraves(slots[i := s]))
  {
  }

  lemma BuryKeepsTidyBut(slots: seq<Slot>, i: nat)
    requires i < |slots| && Tidy(slots)
    ensures TidyBut(slots[i := slots[i].(tag := GRAVE)], i)
  {
  }

  /** The slot before `i`, cyclically. */
  function Before(i: nat, n: nat): (p: nat)
    requires i < n
    ensures p < n && Wrap(p, 1, n) == i
  {
    if i == 0 then n - 1 else i - 1
  }

  /** After a grave became empty only the slot before it can be a grave that leads nowhere. */
  lemma CleanMovesBack(slots: seq<Slot>, i: nat)
    requires i < |slots| && TidyBut(slots, i)
    ensures TidyBut(slots[i := slots[i].(tag := EMPTY)], Before(i, |slots|))
  {
  }

  /** Clean-up is complete: a table that lost all its keys and still has an empty slot has no grave left. */
  lemma TidyLeavesNoGraves(slots: seq<Slot>, e: nat)
    requires Tidy(slots) && e < |slots| && slots[e].tag == EMPTY
    requires forall i :: 0 <= i < |slots| ==> slots[i].tag == EMPTY || slots[i].tag == GRAVE
    ensures NoGraves(slots)
  {
    forall i | 0 <= i < |slots|
      ensures slots[i].tag == EMPTY
    {
      EmptyBackwards(slots, e, Dist(i, e, |slots|));
      assert Wrap(i, Dist(i, e, |slots|), |slots|) == e;
    }
  }

  /** In such a table the slot `d` steps before an empty one is empty. */
  lemma {:induction false} EmptyBackwards(slots: seq<Slot>, e: nat, d: nat)
    requires Tidy(slots) && e < |slots| && slots[e].tag == EMPTY && d < |slots|
    requires forall i :: 0 <= i < |slots| ==> slots[i].tag == EMPTY || slots[i].tag == GRAVE
    ensures slots[if d <= e then e - d else e + |slots| - d].tag == EMPTY
  {
    if d > 0 {
      EmptyBackwards(slots, e, d - 1);
      var p := if d <= e then e - d else e + |slots| - d;
      assert Wrap(p, 1, |slots|) == if d - 1 <= e then e - (d - 1) else e + |slots| - (d - 1);
    }
  }
}
