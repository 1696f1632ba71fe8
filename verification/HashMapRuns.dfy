/** The hash table over whole runs of insertions, lookups and removals. */
module HashMapRuns {
  import opened Net
  import opened ProbeTable
  import opened HashTable

  datatype Op = Put(key: seq<byte>, value: seq<byte>) | Look(key: seq<byte>) | Drop(key: seq<byte>)

  type Bytes = map<seq<byte>, seq<byte>>

  function Apply(m: Bytes, op: Op): (r: Bytes) {
    match op
    case Put(key, value) => m[key := value]
    case Look(_) => m
    case Drop(key) => m - {key}
  }

  /** The map after the operations. */
  function MapAfter(m: Bytes, ops: seq<Op>): (r: Bytes) {
    if ops == [] then m else Apply(MapAfter(m, ops[..|ops| - 1]), ops[|ops| - 1])
  }

  /** What a plain map answers to an operation. */
  function Reply(m: Bytes, op: Op): (a: Option<seq<byte>>) {
    if op.Look? && op.key in m then Some(m[op.key]) else None
  }

  function Answer(m: Bytes, ops: seq<Op>, i: nat): (a: Option<seq<byte>>)
    requires i < |ops|
  {
    Reply(MapAfter(m, ops[..i]), ops[i])
  }

  /** The answers to the first operations are those of a plain map. */
  predicate RightAnswers(m: Bytes, ops: seq<Op>, answers: seq<Option<seq<byte>>>) {
    |answers| <= |ops| && forall i :: 0 <= i < |answers| ==> answers[i] == Answer(m, ops, i)
  }

  /** Keys and values have the table's sizes, and a key is inserted only while it is absent. */
  predicate Legal(m: Bytes, ops: seq<Op>, sizeKey: nat, sizeValue: nat) {
    forall i :: 0 <= i < |ops| && ops[i].Put? ==>
      |ops[i].key| == sizeKey && |ops[i].value| == sizeValue && ops[i].key !in MapAfter(m, ops[..i])
  }

  /** The insertion at `j` put `value` under `key`, and no later operation removed it. */
  predicate PutAndKept(ops: seq<Op>, j: nat, key: seq<byte>, value: seq<byte>) {
    j < |ops| && ops[j] == Put(key, value) && forall i :: j < i < |ops| ==> ops[i] != Drop(key)
  }

  /** Over an initially empty map a lookup finds exactly what was inserted under its key and not removed. */
  lemma {:induction false} FindsWhatWasPut(ops: seq<Op>, sizeKey: nat, sizeValue: nat, key: seq<byte>, value: seq<byte>)
    requires Legal(map[], ops, sizeKey, sizeValue)
    ensures Reply(MapAfter(map[], ops), Look(key)) == Some(value)
      <==> exists j: nat :: PutAndKept(ops, j, key, value)
  {
    if ops != [] {
      var n := |ops| - 1;
      var front, last := ops[..n], ops[n];
      assert forall i :: 0 <= i < n ==> front[..i] == ops[..i];
      assert Legal(map[], front, sizeKey, sizeValue);
      FindsWhatWasPut(front, sizeKey, sizeValue, key, value);
      forall j: nat | j < n
        ensures PutAndKept(ops, j, key, value) <==> PutAndKept(front, j, key, value) && last != Drop(key)
      {
        assert ops == front + [last];
      }
      if last.Put? && last.key == key {
        KeptIsThere(front, sizeKey, sizeValue, key);
        assert PutAndKept(ops, n, key, last.value);
      }
    }
  }

  lemma {:induction false} KeptIsThere(ops: seq<Op>, sizeKey: nat, sizeValue: nat, key: seq<byte>)
    requires Legal(map[], ops, sizeKey, sizeValue) && key !in MapAfter(map[], ops)
    ensures forall j: nat, value :: !PutAndKept(ops, j, key, value)
  {
    forall j: nat, value
      ensures !PutAndKept(ops, j, key, value)
    {
      if PutAndKept(ops, j, key, value) {
        FindsWhatWasPut(ops, sizeKey, sizeValue, key, value);
      }
    }
  }

  predicate NoRemovals(ops: seq<Op>) {
    forall i :: 0 <= i < |ops| ==> !ops[i].Drop?
  }

  /** The probing loop of the operation does not end: its key is absent and no slot is empty. */
  ghost predicate Endless(t: HashMap, op: Op)
    reads t
  {
    !op.Put? && op.key !in t.Map() && !HasEmpty(t.slots)
  }

  /** The table after the answered operations. */
  ghost predicate Reached(t: HashMap, m: Bytes, ops: seq<Op>, answers: seq<Option<seq<byte>>>)
    reads t, t.data
  {
    t.Valid() && RightAnswers(m, ops, answers) && t.Map() == MapAfter(m, ops[..|answers|])
  }

  /**
   * Every run gives the answers of a plain map, through all growth and clean-up, up to the first search
   * that never ends. A run without removals has no such search.
   */
  method Replay(t: HashMap, ops: seq<Op>) returns (answers: seq<Option<seq<byte>>>)
    requires t.Valid() && Legal(t.Map(), ops, t.sizeKey, t.sizeValue)
    modifies t, t.data
    ensures Reached(t, old(t.Map()), ops, answers)
    ensures |answers| < |ops| ==> Endless(t, ops[|answers|])
    ensures NoRemovals(ops) && old(NoGraves(t.slots)) ==> |answers| == |ops|
  {
    answers := [];
    ghost var m, clean := t.Map(), NoRemovals(ops) && NoGraves(t.slots);
    assert ops[..0] == [];
    var running := true;
    while running && |answers| < |ops|
      invariant (t.data == old(t.data) || fresh(t.data)) && Reached(t, m, ops, answers)
      invariant clean ==> running && NoGraves(t.slots)
      invariant !running ==> |answers| < |ops| && Endless(t, ops[|answers|])
      decreases |ops| - |answers|, running
    {
      running, answers := Round(t, ops, answers, m);
    }
  }

  /** Whether the probing loop of the operation ends; an insertion's always does. */
  method Ends(t: HashMap, op: Op) returns (ends: bool)
    requires t.Valid()
    ensures ends <==> !Endless(t, op)
    ensures NoGraves(t.slots) ==> ends
  {
    if NoGraves(t.slots) {
      EmptyFromLoad(t.hash, t.slots);
    }
    if op.Put? {
      return true;
    }
    ends := t.SearchEnds(op.key);
  }

  lemma OneMore(m: Bytes, ops: seq<Op>, answers: seq<Option<seq<byte>>>, now: Bytes, a: Option<seq<byte>>)
    requires RightAnswers(m, ops, answers) && |answers| < |ops|
    requires now == MapAfter(m, ops[..|answers|]) && a == Reply(now, ops[|answers|])
    ensures RightAnswers(m, ops, answers + [a])
    ensures Apply(now, ops[|answers|]) == MapAfter(m, ops[..|answers| + 1])
  {
    assert ops[..|answers| + 1][..|answers|] == ops[..|answers|];
  }

  /** One operation of a run; not `done` when its search does not end. */
  method Round(t: HashMap, ops: seq<Op>, answers: seq<Option<seq<byte>>>, ghost m: Bytes)
    returns (done: bool, more: seq<Option<seq<byte>>>)
    requires Reached(t, m, ops, answers) && |answers| < |ops| && Legal(m, ops, t.sizeKey, t.sizeValue)
    modifies t, t.data
    ensures (t.data == old(t.data) || fresh(t.data)) && Reached(t, m, ops, more)
    ensures if done then |more| == |answers| + 1 else more == answers && Endless(t, ops[|answers|])
    ensures old(NoGraves(t.slots)) ==> done && (!ops[|answers|].Drop? ==> NoGraves(t.slots))
  {
    var op := ops[|answers|];
    more := answers;
    done := Ends(t, op);
    if done {
      ghost var now := t.Map();
      var answer := Perform(t, op);
      more := answers + [answer];
      OneMore(m, ops, answers, now, answer);
    }
  }

  method Perform(t: HashMap, op: Op) returns (answer: Option<seq<byte>>)
    requires t.Valid() && !Endless(t, op)
    requires op.Put? ==> |op.key| == t.sizeKey && |op.value| == t.sizeValue && op.key !in t.Map()
    modifies t, t.data
    ensures t.Valid() && (t.data == old(t.data) || fresh(t.data))
    ensures t.Map() == Apply(old(t.Map()), op) && answer == Reply(old(t.Map()), op)
    ensures !op.Drop? && old(NoGraves(t.slots)) ==> NoGraves(t.slots)
  {
    answer := None;
    match op
    case Put(key, value) =>
      t.Insert(key, value);
    case Look(key) =>
      answer := t.Get(key);
    case Drop(key) =>
      t.Remove(key);
  }
}
