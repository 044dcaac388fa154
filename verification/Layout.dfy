// Where each variable of a device lives: addresses derived from the order and
// the types of the variables alone (tstlan/configs/schemas.py and its mirror
// web/tstlan-web/lib/configs.ts).
module Layout {
  import opened Wrappers
  import opened NetVars

  // A byte offset and, for a bit variable, the bit within that byte.
  datatype VarOffset = VarOffset(byte: nat, bit: Option<nat>)

  // ---------- reference definition ----------

  // Think of the memory as one row of bits with a cursor: a bit variable goes
  // right at the cursor, any other at the next whole byte.
  function Width(ct: CType): nat {
    if ct == BIT then 1 else 8 * ByteSize(ct)
  }

  function AlignUp(pos: nat): nat {
    (pos + 7) / 8 * 8
  }

  function Cursor(cts: seq<CType>, n: nat): nat
    requires n <= |cts|
    decreases n, 0
  {
    if n == 0 then 0 else Start(cts, n - 1) + Width(cts[n - 1])
  }

  function Start(cts: seq<CType>, i: nat): nat
    requires i < |cts|
    decreases i, 1
  {
    if cts[i] == BIT then Cursor(cts, i) else AlignUp(Cursor(cts, i))
  }

  function OffsetOf(cts: seq<CType>, i: nat): VarOffset
    requires i < |cts|
  {
    var start := Start(cts, i);
    VarOffset(start / 8, if cts[i] == BIT then Some(start % 8) else None)
  }

  function Offsets(cts: seq<CType>): (offsets: seq<VarOffset>)
    ensures |offsets| == |cts|
  {
    seq(|cts|, i requires 0 <= i < |cts| => OffsetOf(cts, i))
  }

  // The number of bytes a device takes.
  function Extent(cts: seq<CType>): nat {
    AlignUp(Cursor(cts, |cts|)) / 8
  }

  // ---------- the two loops ----------

  // tstlan/configs/schemas.py
  method VariableOffsets(cts: seq<CType>) returns (offsets: seq<VarOffset>)
    ensures offsets == Offsets(cts)
  {
    offsets := [];
    var prev: Option<VarOffset> := None;
    var prevType: Option<CType> := None;
    for i := 0 to |cts|
      invariant offsets == Offsets(cts)[..i]
      invariant i == 0 ==> prev == None && prevType == None
      invariant i > 0 ==> prev == Some(OffsetOf(cts, i - 1)) && prevType == Some(cts[i - 1])
    {
      var isBit := cts[i] == BIT;
      var cur;
      if prev.None? || prevType.None? {
        cur := VarOffset(0, if isBit then Some(0) else None);
      } else if prevType.value == BIT && isBit {
        assert prev.value.bit.Some?;
        cur := if prev.value.bit.value >= 7
        then VarOffset(prev.value.byte + 1, Some(0))
        else VarOffset(prev.value.byte, Some(prev.value.bit.value + 1));
      } else {
        cur := VarOffset(prev.value.byte + ByteSize(prevType.value), if isBit then Some(0) else None);
      }
      NextOffset(cts, i);
      assert cur == Offsets(cts)[i];
      offsets := offsets + [cur];
      prev, prevType := Some(cur), Some(cts[i]);
    }
  }

  // web/tstlan-web/lib/configs.ts: a missing bit index counts as 0 there
  method VariableOffsetsOfForm(cts: seq<CType>) returns (offsets: seq<VarOffset>)
    ensures offsets == Offsets(cts)
  {
    offsets := [];
    var prev: Option<VarOffset> := None;
    var prevType: Option<CType> := None;
    for i := 0 to |cts|
      invariant offsets == Offsets(cts)[..i]
      invariant i == 0 ==> prev == None && prevType == None
      invariant i > 0 ==> prev == Some(OffsetOf(cts, i - 1)) && prevType == Some(cts[i - 1])
    {
      var isBit := cts[i] == BIT;
      var cur;
      if prev.None? || prevType.None? {
        cur := VarOffset(0, if isBit then Some(0) else None);
      } else if prevType.value == BIT && isBit {
        var prevBit := if prev.value.bit.Some? then prev.value.bit.value else 0;
        cur := if prevBit >= 7
        then VarOffset(prev.value.byte + 1, Some(0))
        else VarOffset(prev.value.byte, Some(prevBit + 1));
      } else {
        cur := VarOffset(prev.value.byte + ByteSize(prevType.value), if isBit then Some(0) else None);
      }
      NextOffset(cts, i);
      assert cur == Offsets(cts)[i];
      offsets := offsets + [cur];
      prev, prevType := Some(cur), Some(cts[i]);
    }
  }

  // How the cursor moves, seen from one address to the next.
  lemma NextOffset(cts: seq<CType>, i: nat)
    requires i < |cts|
    ensures i == 0 ==> OffsetOf(cts, i) == VarOffset(0, if cts[i] == BIT then Some(0) else None)
    ensures i > 0 ==>
              var prev := OffsetOf(cts, i - 1);
              OffsetOf(cts, i) ==
              if cts[i - 1] == BIT && cts[i] == BIT then
                if prev.bit.value >= 7 then VarOffset(prev.byte + 1, Some(0))
                else VarOffset(prev.byte, Some(prev.bit.value + 1))
              else VarOffset(prev.byte + ByteSize(cts[i - 1]), if cts[i] == BIT then Some(0) else None)
  {
    if i > 0 {
      assert Cursor(cts, i) == Start(cts, i - 1) + Width(cts[i - 1]);
      if cts[i - 1] != BIT {
        WordsAreAligned(cts, i - 1);
      }
    }
  }

  lemma WordsAreAligned(cts: seq<CType>, i: nat)
    requires i < |cts| && cts[i] != BIT
    ensures Start(cts, i) % 8 == 0
    ensures Cursor(cts, i + 1) == 8 * (OffsetOf(cts, i).byte + ByteSize(cts[i]))
  {
  }

  // ---------- what the layout guarantees ----------

  // A bit index is present exactly for BIT and is at most 7.
  predicate FitsType(ct: CType, off: VarOffset) {
    if ct == BIT then off.bit.Some? && off.bit.value < 8 else off.bit.None?
  }

  // Does a variable of type `ct` at `off` own bit `k` of byte `i`?
  predicate Owns(ct: CType, off: VarOffset, i: nat, k: nat)
    requires FitsType(ct, off)
  {
    if ct == BIT then i == off.byte && k == off.bit.value
    else off.byte <= i < off.byte + ByteSize(ct)
  }

  predicate Before(a: VarOffset, b: VarOffset) {
    a.byte < b.byte || (a.byte == b.byte && a.bit.Some? && b.bit.Some? && a.bit.value < b.bit.value)
  }

  lemma OffsetsFitTypes(cts: seq<CType>, i: nat)
    requires i < |cts|
    ensures FitsType(cts[i], Offsets(cts)[i])
  {
  }

  lemma {:induction false} CursorGrows(cts: seq<CType>, m: nat, n: nat)
    requires m <= n <= |cts|
    ensures Cursor(cts, m) <= Cursor(cts, n)
    decreases n
  {
    if m < n {
      CursorGrows(cts, m, n - 1);
    }
  }

  // In the row of bits, a variable owns exactly its stretch.
  lemma OwnsItsStretch(cts: seq<CType>, i: nat, byteIndex: nat, k: nat)
    requires i < |cts| && k < 8
    ensures FitsType(cts[i], Offsets(cts)[i])
    ensures Owns(cts[i], Offsets(cts)[i], byteIndex, k) <==>
            Start(cts, i) <= 8 * byteIndex + k < Start(cts, i) + Width(cts[i])
  {
    if cts[i] != BIT {
      WordsAreAligned(cts, i);
    }
  }

  // No two variables share a bit, and later ones lie at higher addresses.
  lemma OffsetsDisjoint(cts: seq<CType>, i: nat, j: nat)
    requires i < j < |cts|
    ensures FitsType(cts[i], Offsets(cts)[i]) && FitsType(cts[j], Offsets(cts)[j])
    ensures forall b: nat, k: nat | k < 8 ::
              !(Owns(cts[i], Offsets(cts)[i], b, k) && Owns(cts[j], Offsets(cts)[j], b, k))
    ensures Before(Offsets(cts)[i], Offsets(cts)[j])
  {
    CursorGrows(cts, i + 1, j);
    assert Start(cts, i) + Width(cts[i]) <= Start(cts, j);
    forall b: nat, k: nat | k < 8
      ensures !(Owns(cts[i], Offsets(cts)[i], b, k) && Owns(cts[j], Offsets(cts)[j], b, k))
    {
      OwnsItsStretch(cts, i, b, k);
      OwnsItsStretch(cts, j, b, k);
    }
    if cts[i] != BIT {
      WordsAreAligned(cts, i);
    }
    if cts[j] != BIT {
      WordsAreAligned(cts, j);
    }
  }

  // No byte is wasted, and none beyond the extent is used.
  lemma {:induction false} EveryByteUsed(cts: seq<CType>, n: nat, b: nat)
    requires n <= |cts| && b < AlignUp(Cursor(cts, n)) / 8
    ensures exists i: nat :: i < n && FitsType(cts[i], Offsets(cts)[i]) &&
              exists k: nat :: k < 8 && Owns(cts[i], Offsets(cts)[i], b, k)
  {
    if b < AlignUp(Cursor(cts, n - 1)) / 8 {
      EveryByteUsed(cts, n - 1, b);
    } else {
      var i := n - 1;
      var k := if cts[i] == BIT then Start(cts, i) % 8 else 0;
      OwnsItsStretch(cts, i, b, k);
      assert Owns(cts[i], Offsets(cts)[i], b, k);
    }
  }

  lemma ExtentIsUsed(cts: seq<CType>, b: nat)
    requires b < Extent(cts)
    ensures exists i: nat :: i < |cts| && FitsType(cts[i], Offsets(cts)[i]) &&
              exists k: nat :: k < 8 && Owns(cts[i], Offsets(cts)[i], b, k)
  {
    EveryByteUsed(cts, |cts|, b);
  }

  lemma WithinExtent(cts: seq<CType>, i: nat, b: nat, k: nat)
    requires i < |cts| && k < 8 && FitsType(cts[i], Offsets(cts)[i])
    requires Owns(cts[i], Offsets(cts)[i], b, k)
    ensures b < Extent(cts)
  {
    OwnsItsStretch(cts, i, b, k);
    CursorGrows(cts, i + 1, |cts|);
  }

  // Appending variables moves no earlier one.
  lemma AppendKeepsOffsets(cts: seq<CType>, more: seq<CType>)
    ensures Offsets(cts + more)[..|cts|] == Offsets(cts)
  {
    forall i | 0 <= i < |cts|
      ensures Offsets(cts + more)[i] == Offsets(cts)[i]
    {
      CursorOfPrefix(cts, more, i);
    }
  }

  lemma {:induction false} CursorOfPrefix(cts: seq<CType>, more: seq<CType>, n: nat)
    requires n <= |cts|
    ensures Cursor(cts + more, n) == Cursor(cts, n)
  {
    if n > 0 {
      CursorOfPrefix(cts, more, n - 1);
    }
  }

  // The closed form. The first variable is at byte 0; a variable that is not a
  // bit takes its size; and a maximal run of k bits takes ceil(k / 8) bytes, its
  // bit number j being bit j % 8 of byte j / 8 of the run.
  lemma FirstAndWords(cts: seq<CType>, i: nat)
    requires i < |cts|
    ensures Offsets(cts)[0].byte == 0
    ensures cts[i] != BIT && i + 1 < |cts| ==>
              Offsets(cts)[i + 1].byte == Offsets(cts)[i].byte + ByteSize(cts[i])
  {
    NextOffset(cts, 0);
    if i + 1 < |cts| {
      NextOffset(cts, i + 1);
    }
  }

  lemma BitRun(cts: seq<CType>, a: nat, k: nat)
    requires k > 0 && a + k <= |cts|
    requires forall j | a <= j < a + k :: cts[j] == BIT
    requires a == 0 || cts[a - 1] != BIT
    ensures forall j: nat | j < k ::
              Offsets(cts)[a + j] == VarOffset(Offsets(cts)[a].byte + j / 8, Some(j % 8))
    ensures a + k < |cts| && cts[a + k] != BIT ==>
              Offsets(cts)[a + k].byte == Offsets(cts)[a].byte + (k + 7) / 8
  {
    hide Cursor;
    RunStartsOnByte(cts, a);
    forall j: nat | j < k
      ensures Offsets(cts)[a + j] == VarOffset(Offsets(cts)[a].byte + j / 8, Some(j % 8))
    {
      CursorInRun(cts, a, j);
      SplitBits(Offsets(cts)[a].byte, j);
    }
    CursorInRun(cts, a, k);
    SplitBits(Offsets(cts)[a].byte, k + 7);
  }

  lemma RunStartsOnByte(cts: seq<CType>, a: nat)
    requires a < |cts| && cts[a] == BIT
    requires a == 0 || cts[a - 1] != BIT
    ensures Cursor(cts, a) == 8 * Offsets(cts)[a].byte
  {
    if a > 0 {
      WordsAreAligned(cts, a - 1);
    }
  }

  lemma SplitBits(start: nat, j: nat)
    ensures (8 * start + j) / 8 == start + j / 8 && (8 * start + j) % 8 == j % 8
  {
  }

  lemma {:induction false} CursorInRun(cts: seq<CType>, a: nat, j: nat)
    requires a + j <= |cts|
    requires forall i | a <= i < a + j :: cts[i] == BIT
    ensures Cursor(cts, a + j) == Cursor(cts, a) + j
  {
    if j > 0 {
      CursorInRun(cts, a, j - 1);
    }
  }
}
