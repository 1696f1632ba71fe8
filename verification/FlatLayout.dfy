/**
 * The single byte block of hashmap.c: two tag bits for each slot, then for each slot its key and value.
 */
module FlatLayout {
  import opened Net

  const EMPTY := 0
  const TAKEN := 1
  const GRAVE := 2

  datatype Slot = Slot(tag: nat, key: seq<byte>, value: seq<byte>)

  /** Bytes of the tag area for `n` slots, as `hashmap_insert` and `hashmap_get` compute it. */
  function TagArea(n: nat): (t: nat) {
    (n + 3) / 4
  }

  /** `hashmap_init` and `hashmap_grow` compute the same size in another way. */
  lemma TagAreasAgree(n: nat)
    ensures (n * 2 + 7) / 8 == TagArea(n)
  {
  }

  /** `(b >> bit_index) & 0x03` with `bit_index` twice the index modulo 4. */
  function TagBits(b: byte, index: nat): (tag: nat)
    ensures tag < 4
  {
    var j := index % 4;
    if j == 0 then b % 4 else if j == 1 then (b / 4) % 4 else if j == 2 then (b / 16) % 4 else (b / 64) % 4
  }

  /** `(b & ~(0x03 << bit_index)) | (tag << bit_index)`: the two bits are cleared, then set to the tag. */
  function WithTagBits(b: byte, index: nat, tag: nat): (r: byte)
    requires tag < 4
  {
    Reassemble(b);
    var j := index % 4;
    if j == 0 then b - b % 4 + tag
    else if j == 1 then b - (b / 4) % 4 * 4 + tag * 4
    else if j == 2 then b - (b / 16) % 4 * 16 + tag * 16
    else b - (b / 64) % 4 * 64 + tag * 64
  }

  /** The four tags of a byte assembled from them. */
  lemma Digits(b0: nat, b1: nat, b2: nat, b3: nat)
    requires b0 < 4 && b1 < 4 && b2 < 4 && b3 < 4
    ensures var b := b0 + 4 * b1 + 16 * b2 + 64 * b3;
      b < 0x100 && b % 4 == b0 && (b / 4) % 4 == b1 && (b / 16) % 4 == b2 && (b / 64) % 4 == b3
  {
    var b := b0 + 4 * b1 + 16 * b2 + 64 * b3;
    assert b / 4 == b1 + 4 * b2 + 16 * b3;
    assert b / 16 == b2 + 4 * b3;
    assert b / 64 == b3;
  }

  /** The tag of a slot is the digit of its byte, in base four from the right, that its index counts to. */
  lemma TagIsDigit(b0: nat, b1: nat, b2: nat, b3: nat, index: nat)
    requires b0 < 4 && b1 < 4 && b2 < 4 && b3 < 4
    ensures b0 + 4 * b1 + 16 * b2 + 64 * b3 < 0x100
    ensures TagBits(b0 + 4 * b1 + 16 * b2 + 64 * b3, index) == [b0, b1, b2, b3][index % 4]
  {
    Digits(b0, b1, b2, b3);
  }

  lemma Reassemble(b: byte)
    ensures b == b % 4 + 4 * ((b / 4) % 4) + 16 * ((b / 16) % 4) + 64 * ((b / 64) % 4)
  {
    assert b / 16 == (b / 4) / 4 && b / 64 == (b / 16) / 4;
  }

  /** Setting one tag of a byte leaves the other three as they are. */
  lemma SetOneTag(b: byte, index: nat, tag: nat, other: nat)
    requires tag < 4
    ensures TagBits(WithTagBits(b, index, tag), other) ==
      if other % 4 == index % 4 then tag else TagBits(b, other)
  {
    var b0, b1, b2, b3 := b % 4, (b / 4) % 4, (b / 16) % 4, (b / 64) % 4;
    Reassemble(b);
    var j := index % 4;
    if j == 0 {
      Digits(tag, b1, b2, b3);
    } else if j == 1 {
      Digits(b0, tag, b2, b3);
    } else if j == 2 {
      Digits(b0, b1, tag, b3);
    } else {
      Digits(b0, b1, b2, tag);
    }
  }

  // ---------------------------------------------------------------- slots in the block

  /** Bytes of `i` slots, added up one by one. */
  function Span(width: nat, i: nat): (p: nat) {
    if i == 0 then 0 else Span(width, i - 1) + width
  }

  /** The C code multiplies instead. */
  lemma {:induction false} SpanIsProduct(width: nat, i: nat)
    ensures Span(width, i) == width * i
  {
    if i > 0 {
      SpanIsProduct(width, i - 1);
      assert width * i == width * (i - 1) + width;
    }
  }

  /** Byte position of slot `i`. */
  function SlotAt(n: nat, width: nat, i: nat): (p: nat) {
    TagArea(n) + Span(width, i)
  }

  function BlockLength(n: nat, width: nat): (len: nat) {
    TagArea(n) + Span(width, n)
  }

  lemma {:induction false} SpanAtLeast(width: nat, n: nat, m: nat)
    requires width > 0 && m + 1 < n
    ensures 2 * width + m <= Span(width, n)
    decreases n
  {
    if m > 0 {
      SpanAtLeast(width, n - 1, m - 1);
    } else {
      SpanTwo(width, n);
    }
  }

  lemma {:induction false} SpanTwo(width: nat, n: nat)
    requires n >= 2
    ensures 2 * width <= Span(width, n)
  {
    if n == 2 {
      assert Span(width, 2) == Span(width, 1) + width == Span(width, 0) + width + width;
    } else {
      SpanTwo(width, n - 1);
    }
  }

  /** Where `hashmap_remove` looks for the key of slot `i`: a sum where the other operations multiply. */
  function RemoveLooksAt(width: nat, i: nat): (p: nat) {
    width + i
  }

  /** It finds the key there only by coincidence; in a table of more than four slots only in slot 0. */
  lemma RemoveLooksRightIff(n: nat, width: nat, i: nat)
    requires i < n && width > 0
    ensures RemoveLooksAt(width, i) == SlotAt(n, width, i) <==>
      if i == 0 then width == TagArea(n) else n <= 4 && (i == 1 || width == 1)
  {
    if i > 0 {
      SpanLeast(width, i);
    }
  }

  lemma {:induction false} SpanLeast(width: nat, i: nat)
    requires width > 0 && i > 0
    ensures Span(width, i) >= width + i - 1
    ensures Span(width, i) == width + i - 1 <==> i == 1 || width == 1
  {
    if i > 1 {
      SpanLeast(width, i - 1);
    }
  }

  lemma SlotInBlock(n: nat, width: nat, i: nat)
    requires i < n
    ensures TagArea(n) <= SlotAt(n, width, i) && SlotAt(n, width, i) + width <= BlockLength(n, width)
  {
    SlotsApart(n, width, i, n);
  }

  lemma {:induction false} SlotsApart(n: nat, width: nat, i: nat, j: nat)
    requires i < j
    ensures SlotAt(n, width, i) + width <= SlotAt(n, width, j)
  {
    if i + 1 < j {
      SlotsApart(n, width, i, j - 1);
    }
  }

  /** The slot that the block holds at position `i`. */
  function ReadSlot(data: seq<byte>, n: nat, sizeKey: nat, sizeValue: nat, i: nat): (s: Slot)
    requires i < n && |data| == BlockLength(n, sizeKey + sizeValue)
  {
    SlotInBlock(n, sizeKey + sizeValue, i);
    var p := SlotAt(n, sizeKey + sizeValue, i);
    Slot(TagBits(data[i / 4], i), data[p..p + sizeKey], data[p + sizeKey..p + (sizeKey + sizeValue)])
  }

  /** The block holds exactly these slots. */
  predicate Holds(data: seq<byte>, n: nat, sizeKey: nat, sizeValue: nat, slots: seq<Slot>) {
    && |slots| == n
    && |data| == BlockLength(n, sizeKey + sizeValue)
    && forall i {:trigger slots[i]} :: 0 <= i < n ==> slots[i] == ReadSlot(data, n, sizeKey, sizeValue, i)
  }

  /** A slot is read from its own tag bits and its own bytes. */
  lemma ReadSlotFrame(before: seq<byte>, after: seq<byte>, n: nat, sizeKey: nat, sizeValue: nat, i: nat)
    requires i < n && |before| == |after| == BlockLength(n, sizeKey + sizeValue)
    requires var p := SlotAt(n, sizeKey + sizeValue, i);
      forall b {:trigger after[b]} :: p <= b < p + (sizeKey + sizeValue) && b < |before| ==> after[b] == before[b]
    ensures ReadSlot(after, n, sizeKey, sizeValue, i)
         == ReadSlot(before, n, sizeKey, sizeValue, i).(tag := TagBits(after[i / 4], i))
  {
    SlotInBlock(n, sizeKey + sizeValue, i);
    var p := SlotAt(n, sizeKey + sizeValue, i);
    SliceFrame(before, after, p, p + sizeKey);
    SliceFrame(before, after, p + sizeKey, p + (sizeKey + sizeValue));
  }

  lemma SliceFrame(before: seq<byte>, after: seq<byte>, p: nat, q: nat)
    requires p <= q <= |before| == |after|
    requires forall b {:trigger after[b]} :: p <= b < q ==> after[b] == before[b]
    ensures after[p..q] == before[p..q]
  {
  }

  lemma TagAfterWrite(tags: seq<byte>, index: nat, tag: nat, i: nat)
    requires index / 4 < |tags| && i / 4 < |tags| && tag < 4
    ensures TagBits(tags[index / 4 := WithTagBits(tags[index / 4], index, tag)][i / 4], i)
         == if i == index then tag else TagBits(tags[i / 4], i)
  {
    SetOneTag(tags[index / 4], index, tag, i);
    assert i / 4 == index / 4 && i % 4 == index % 4 ==> i == index;
  }

  /** Writing one tag changes that tag and nothing else. */
  lemma TagWrite(before: seq<byte>, after: seq<byte>, n: nat, sizeKey: nat, sizeValue: nat,
                 slots: seq<Slot>, index: nat, tag: nat)
    requires Holds(before, n, sizeKey, sizeValue, slots) && index < n && tag < 4
    requires after == before[index / 4 := WithTagBits(before[index / 4], index, tag)]
    ensures Holds(after, n, sizeKey, sizeValue, slots[index := slots[index].(tag := tag)])
  {
    forall i | 0 <= i < n
      ensures slots[index := slots[index].(tag := tag)][i] == ReadSlot(after, n, sizeKey, sizeValue, i)
    {
      SlotInBlock(n, sizeKey + sizeValue, i);
      assert index / 4 < TagArea(n) && i / 4 < TagArea(n);
      ReadSlotFrame(before, after, n, sizeKey, sizeValue, i);
      TagAfterWrite(before, index, tag, i);
      assert slots[i] == ReadSlot(before, n, sizeKey, sizeValue, i);
    }
  }

  function CopiedByte(before: seq<byte>, key: seq<byte>, value: seq<byte>, p: nat, b: nat): (r: byte)
    requires b < |before|
  {
    if p <= b < p + |key| then key[b - p]
    else if p + |key| <= b < p + (|key| + |value|) then value[b - p - |key|]
    else before[b]
  }

  /** The block after key and value were copied into slot `index`. */
  predicate CopiedInto(before: seq<byte>, after: seq<byte>, n: nat, key: seq<byte>, value: seq<byte>, index: nat) {
    var p := SlotAt(n, |key| + |value|, index);
    && |after| == |before|
    && (forall b :: 0 <= b < |before| ==> after[b] == CopiedByte(before, key, value, p, b))
  }

  lemma CopiedSlot(before: seq<byte>, after: seq<byte>, n: nat, key: seq<byte>, value: seq<byte>, index: nat)
    requires |before| == BlockLength(n, |key| + |value|) && index < n
    requires CopiedInto(before, after, n, key, value, index)
    ensures ReadSlot(after, n, |key|, |value|, index)
         == Slot(ReadSlot(before, n, |key|, |value|, index).tag, key, value)
  {
    var width := |key| + |value|;
    var p := SlotAt(n, width, index);
    SlotInBlock(n, width, index);
    assert after[p..p + |key|] == key;
    assert after[p + |key|..p + width] == value;
  }

  /** Writing a key and a value into one slot touches no tag and no other slot. */
  lemma SlotWrite(before: seq<byte>, after: seq<byte>, n: nat, key: seq<byte>, value: seq<byte>,
                  slots: seq<Slot>, index: nat)
    requires Holds(before, n, |key|, |value|, slots) && index < n
    requires CopiedInto(before, after, n, key, value, index)
    ensures Holds(after, n, |key|, |value|, slots[index := Slot(slots[index].tag, key, value)])
  {
    var width := |key| + |value|;
    SlotInBlock(n, width, index);
    forall i | 0 <= i < n
      ensures slots[index := Slot(slots[index].tag, key, value)][i] == ReadSlot(after, n, |key|, |value|, i)
    {
      SlotInBlock(n, width, i);
      assert slots[i] == ReadSlot(before, n, |key|, |value|, i);
      assert after[i / 4] == before[i / 4];
      if i == index {
        CopiedSlot(before, after, n, key, value, index);
      } else {
        if i < index {
          SlotsApart(n, width, i, index);
        } else {
          SlotsApart(n, width, index, i);
        }
        ReadSlotFrame(before, after, n, |key|, |value|, i);
      }
    }
  }

  /** A block of zero bytes holds empty slots only. */
  lemma ZeroBlock(data: seq<byte>, n: nat, sizeKey: nat, sizeValue: nat)
    requires |data| == BlockLength(n, sizeKey + sizeValue)
    requires forall b :: 0 <= b < |data| ==> data[b] == 0
    ensures Holds(data, n, sizeKey, sizeValue, seq(n, _ => Slot(EMPTY, Zeros(sizeKey), Zeros(sizeValue))))
  {
    var slots := seq(n, _ => Slot(EMPTY, Zeros(sizeKey), Zeros(sizeValue)));
    forall i | 0 <= i < n
      ensures slots[i] == ReadSlot(data, n, sizeKey, sizeValue, i)
    {
      SlotInBlock(n, sizeKey + sizeValue, i);
      var p := SlotAt(n, sizeKey + sizeValue, i);
      assert data[p..p + sizeKey] == Zeros(sizeKey);
      assert data[p + sizeKey..p + (sizeKey + sizeValue)] == Zeros(sizeValue);
    }
  }

  /** When the first slots are zero, so is every byte between the tags and their end. */
  lemma {:induction false} ZeroBytes(data: seq<byte>, n: nat, sizeKey: nat, sizeValue: nat, slots: seq<Slot>, i: nat)
    requires Holds(data, n, sizeKey, sizeValue, slots) && i <= n
    requires forall j :: 0 <= j < i ==> slots[j].key == Zeros(sizeKey) && slots[j].value == Zeros(sizeValue)
    ensures SlotAt(n, sizeKey + sizeValue, i) <= |data|
    ensures forall b :: TagArea(n) <= b < SlotAt(n, sizeKey + sizeValue, i) ==> data[b] == 0
  {
    if i > 0 {
      ZeroBytes(data, n, sizeKey, sizeValue, slots, i - 1);
      SlotInBlock(n, sizeKey + sizeValue, i - 1);
      var p := SlotAt(n, sizeKey + sizeValue, i - 1);
      var s := ReadSlot(data, n, sizeKey, sizeValue, i - 1);
      assert slots[i - 1] == s;
      assert s.key == data[p..p + sizeKey] && s.key == Zeros(sizeKey);
      assert s.value == data[p + sizeKey..p + (sizeKey + sizeValue)] && s.value == Zeros(sizeValue);
      forall b | p <= b < p + (sizeKey + sizeValue)
        ensures data[b] == 0
      {
        if b < p + sizeKey {
          assert data[b] == s.key[b - p];
        } else {
          assert data[b] == s.value[b - (p + sizeKey)];
        }
      }
    }
  }
}
