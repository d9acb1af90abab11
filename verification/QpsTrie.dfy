/**
 The QPS bitmap: a three level trie from 32-bit rows to one bit (plain form) or to a pair of bits
 (nullable form).  This module holds the trie as data, what it means to look a row up in it, and
 the accounting invariant that ties each leaf's `active_bits` counter to its contents.
 */
module QpsTrie {
  import opened Bits

  const ROOTS: nat := 64
  const DISPATCH: nat := 2048
  const ROWS: nat := 0x1_0000_0000

  datatype Option<+T> = None | Some(value: T)

  /** A leaf is an array of 64-bit words; `Entry` is one slot of a dispatch page. */
  type Leaf = seq<nat>
  datatype Entry = Entry(node: Option<Leaf>, activeBits: nat)
  type Page = seq<Entry>
  type Roots = seq<Option<Page>>

  datatype State = Zero | One | Null

  /** Keys held by one word, and words in one leaf, in either form. */
  function Slots(nullable: bool): nat { if nullable then 32 else 64 }
  function Words(nullable: bool): nat { if nullable then 1024 else 512 }

  // ---------------------------------------------------------------- keys

  /** The bit fields of `qps_bitmap_key_t`: `word`/`bit` are `word_null`/`bit_null` when nullable. */
  datatype Key = Key(root: nat, dispatch: nat, word: nat, bit: nat)

  predicate ValidKey(nullable: bool, k: Key) {
    k.root < ROOTS && k.dispatch < DISPATCH && k.word < Words(nullable) && k.bit < Slots(nullable)
  }

  /** The `uint32_t` view of the union. */
  function Val(nullable: bool, k: Key): nat {
    k.root * 0x400_0000 + k.dispatch * 0x8000 + (if nullable then k.word * 32 else k.word * 64) + k.bit
  }

  /** The bit field view of a row. */
  function Split(nullable: bool, row: nat): Key {
    var low := row % 0x8000;
    Key(row / 0x400_0000, row / 0x8000 % 2048,
        if nullable then low / 32 else low / 64,
        if nullable then low % 32 else low % 64)
  }

  /** `key.key += delta` on a `uint32_t`. */
  function AddKey(nullable: bool, k: Key, delta: nat): Key {
    Split(nullable, (Val(nullable, k) + delta) % ROWS)
  }

  /** Lexicographic order on the fields. */
  predicate Lt(a: Key, b: Key) {
    a.root < b.root || (a.root == b.root &&
    (a.dispatch < b.dispatch || (a.dispatch == b.dispatch &&
    (a.word < b.word || (a.word == b.word && a.bit < b.bit)))))
  }

  predicate Le(a: Key, b: Key) { a == b || Lt(a, b) }

  lemma SplitVal(nullable: bool, k: Key)
    requires ValidKey(nullable, k)
    ensures Val(nullable, k) < ROWS
    ensures Split(nullable, Val(nullable, k)) == k
  {
    var low := (if nullable then k.word * 32 else k.word * 64) + k.bit;
    assert low < 0x8000;
    var v := Val(nullable, k);
    assert v == (k.root * 2048 + k.dispatch) * 0x8000 + low;
    assert v / 0x8000 == k.root * 2048 + k.dispatch && v % 0x8000 == low;
    assert v / 0x400_0000 == k.root;
  }

  lemma ValSplit(nullable: bool, row: nat)
    requires row < ROWS
    ensures ValidKey(nullable, Split(nullable, row))
    ensures Val(nullable, Split(nullable, row)) == row
  {
    assert row / 0x8000 / 2048 == row / 0x400_0000;
  }

  /** Field order is numeric order. */
  lemma LtIsLess(nullable: bool, a: Key, b: Key)
    requires ValidKey(nullable, a) && ValidKey(nullable, b)
    ensures Lt(a, b) <==> Val(nullable, a) < Val(nullable, b)
  {
  }

  /** Carry into the next word, the next dispatch entry, the next root, or past the end to 0. */
  function NextWordKey(nullable: bool, k: Key): Key {
    if k.word + 1 < Words(nullable) then Key(k.root, k.dispatch, k.word + 1, 0) else NextLeafKey(k)
  }

  function NextLeafKey(k: Key): Key {
    if k.dispatch + 1 < DISPATCH then Key(k.root, k.dispatch + 1, 0, 0)
    else if k.root + 1 < ROOTS then Key(k.root + 1, 0, 0, 0)
    else Key(0, 0, 0, 0)
  }

  lemma NextWordIsAdd(nullable: bool, k: Key)
    requires ValidKey(nullable, k) && k.bit == 0
    ensures AddKey(nullable, k, Slots(nullable)) == NextWordKey(nullable, k)
  {
    var n := NextWordKey(nullable, k);
    assert (Val(nullable, k) + Slots(nullable)) % ROWS == Val(nullable, n);
    SplitVal(nullable, n);
  }

  lemma NextLeafIsAdd(nullable: bool, k: Key)
    requires ValidKey(nullable, k) && k.word == 0 && k.bit == 0
    ensures AddKey(nullable, k, 0x8000) == NextLeafKey(k)
  {
    var n := NextLeafKey(k);
    assert (Val(nullable, k) + 0x8000) % ROWS == Val(nullable, n);
    SplitVal(nullable, n);
  }

  // ---------------------------------------------------------------- slots of a word

  predicate SlotSet(nullable: bool, w: nat, s: nat) {
    if nullable then Bit(w, 2 * s) || Bit(w, 2 * s + 1) else Bit(w, s)
  }

  /** `qps_bitmap_get` on one slot. */
  function SlotState(nullable: bool, w: nat, s: nat): State {
    if nullable then
      if !Bit(w, 2 * s + 1) then Null else if Bit(w, 2 * s) then One else Zero
    else
      if Bit(w, s) then One else Zero
  }

  /** What an absent row reads as. */
  function Absent(nullable: bool): State { if nullable then Null else Zero }

  /** The pair 01 is never written. */
  ghost predicate PairsNormal(nullable: bool, w: nat) {
    nullable ==> forall s: nat :: Bit(w, 2 * s) ==> Bit(w, 2 * s + 1)
  }

  ghost predicate GoodWord(nullable: bool, w: nat) {
    w < WORD && PairsNormal(nullable, w)
  }

  /** The masks of `qps_bitmap_set`, `reset` and `remove` for slot `s`. */
  function SetSlot(nullable: bool, w: nat, s: nat): nat {
    if nullable then Or(w, Shl(3, 2 * s)) else Or(w, Shl(1, s))
  }

  function ZeroSlot(w: nat, s: nat): nat {
    Or(AndNot(w, Shl(3, 2 * s)), Shl(2, 2 * s))
  }

  function ClearSlot(nullable: bool, w: nat, s: nat): nat {
    if nullable then AndNot(w, Shl(3, 2 * s)) else AndNot(w, Shl(1, s))
  }

  lemma SmallBits(i: nat)
    ensures Bit(1, i) == (i == 0)
    ensures Bit(2, i) == (i == 1)
    ensures Bit(3, i) == (i <= 1)
  {
    if i >= 2 {
      BitZero(i - 2);
      assert Bit(1, i) == Bit(0, i - 1) == Bit(0, i - 2);
      assert Bit(2, i) == Bit(1, i - 1) == Bit(0, i - 2);
      assert Bit(3, i) == Bit(1, i - 1);
    }
  }

  lemma SetSlotBit(nullable: bool, w: nat, s: nat, i: nat)
    ensures Bit(SetSlot(nullable, w, s), i) ==
            (Bit(w, i) || (if nullable then i == 2 * s || i == 2 * s + 1 else i == s))
  {
    var c, k := if nullable then 3 else 1, if nullable then 2 * s else s;
    BitOr(w, Shl(c, k), i);
    BitShl(c, k, i);
    if i >= k { SmallBits(i - k); }
  }

  lemma ClearSlotBit(nullable: bool, w: nat, s: nat, i: nat)
    ensures Bit(ClearSlot(nullable, w, s), i) ==
            (Bit(w, i) && !(if nullable then i == 2 * s || i == 2 * s + 1 else i == s))
  {
    var c, k := if nullable then 3 else 1, if nullable then 2 * s else s;
    BitAndNot(w, Shl(c, k), i);
    BitShl(c, k, i);
    if i >= k { SmallBits(i - k); }
  }

  lemma ZeroSlotBit(w: nat, s: nat, i: nat)
    ensures Bit(ZeroSlot(w, s), i) == (i == 2 * s + 1 || (i != 2 * s && Bit(w, i)))
  {
    var m := AndNot(w, Shl(3, 2 * s));
    BitOr(m, Shl(2, 2 * s), i);
    BitAndNot(w, Shl(3, 2 * s), i);
    BitShl(3, 2 * s, i);
    BitShl(2, 2 * s, i);
    if i >= 2 * s { SmallBits(i - 2 * s); }
  }

  /** `w2` is `w` with slot `s` now in state `st`, and nothing else changed. */
  ghost predicate SlotWritten(nullable: bool, w: nat, w2: nat, s: nat, st: State) {
    && GoodWord(nullable, w2)
    && SlotState(nullable, w2, s) == st
    && SlotSet(nullable, w2, s) == (st != Absent(nullable))
    && forall t: nat | t != s :: SlotState(nullable, w2, t) == SlotState(nullable, w, t)
                              && SlotSet(nullable, w2, t) == SlotSet(nullable, w, t)
  }

  /** The three word updates do to the word what their names say. */
  lemma SetSlotWrites(nullable: bool, w: nat, s: nat)
    requires GoodWord(nullable, w) && s < Slots(nullable)
    ensures SlotWritten(nullable, w, SetSlot(nullable, w, s), s, One)
  {
    WordIsPow2();
    forall i: nat
      ensures Bit(SetSlot(nullable, w, s), i) ==
              (Bit(w, i) || (if nullable then i == 2 * s || i == 2 * s + 1 else i == s))
      ensures i >= 64 ==> !Bit(w, i)
    {
      SetSlotBit(nullable, w, s, i);
      if i >= 64 { BitAbove(w, 64, i); }
    }
    BelowPow2(SetSlot(nullable, w, s), 64);
  }

  lemma ClearSlotWrites(nullable: bool, w: nat, s: nat)
    requires GoodWord(nullable, w) && s < Slots(nullable)
    ensures SlotWritten(nullable, w, ClearSlot(nullable, w, s), s, Absent(nullable))
  {
    WordIsPow2();
    forall i: nat
      ensures Bit(ClearSlot(nullable, w, s), i) ==
              (Bit(w, i) && !(if nullable then i == 2 * s || i == 2 * s + 1 else i == s))
      ensures i >= 64 ==> !Bit(w, i)
    {
      ClearSlotBit(nullable, w, s, i);
      if i >= 64 { BitAbove(w, 64, i); }
    }
    BelowPow2(ClearSlot(nullable, w, s), 64);
  }

  lemma ZeroSlotWrites(w: nat, s: nat)
    requires GoodWord(true, w) && s < 32
    ensures SlotWritten(true, w, ZeroSlot(w, s), s, Zero)
  {
    WordIsPow2();
    forall i: nat
      ensures Bit(ZeroSlot(w, s), i) == (i == 2 * s + 1 || (i != 2 * s && Bit(w, i)))
      ensures i >= 64 ==> !Bit(w, i)
    {
      ZeroSlotBit(w, s, i);
      if i >= 64 { BitAbove(w, 64, i); }
    }
    BelowPow2(ZeroSlot(w, s), 64);
  }

  // ---------------------------------------------------------------- counting

  /** Set slots among the first `n` of a word, and in a whole leaf. */
  function SlotCount(nullable: bool, w: nat, n: nat): nat {
    if n == 0 then 0 else SlotCount(nullable, w, n - 1) + (if SlotSet(nullable, w, n - 1) then 1 else 0)
  }

  function LeafCount(nullable: bool, leaf: Leaf): nat {
    if leaf == [] then 0
    else LeafCount(nullable, leaf[..|leaf| - 1]) + SlotCount(nullable, leaf[|leaf| - 1], Slots(nullable))
  }

  lemma {:induction false} SlotCountWrite(nullable: bool, w: nat, w2: nat, s: nat, n: nat)
    requires forall t: nat | t != s :: SlotSet(nullable, w2, t) == SlotSet(nullable, w, t)
    ensures SlotCount(nullable, w2, n) == SlotCount(nullable, w, n)
            + (if s < n && SlotSet(nullable, w2, s) then 1 else 0)
            - (if s < n && SlotSet(nullable, w, s) then 1 else 0)
    decreases n
  {
    if n > 0 { SlotCountWrite(nullable, w, w2, s, n - 1); }
  }

  lemma {:induction false} LeafCountWrite(nullable: bool, leaf: Leaf, i: nat, w2: nat)
    requires i < |leaf|
    ensures LeafCount(nullable, leaf[i := w2]) == LeafCount(nullable, leaf)
            + SlotCount(nullable, w2, Slots(nullable)) - SlotCount(nullable, leaf[i], Slots(nullable))
    decreases |leaf|
  {
    var n := |leaf| - 1;
    if i < n {
      assert leaf[i := w2][..n] == leaf[..n][i := w2];
      LeafCountWrite(nullable, leaf[..n], i, w2);
    } else {
      assert leaf[i := w2][..n] == leaf[..n];
    }
  }

  lemma {:induction false} SlotCountPositive(nullable: bool, w: nat, s: nat, n: nat)
    requires s < n && SlotSet(nullable, w, s)
    ensures SlotCount(nullable, w, n) > 0
    decreases n
  {
    if s < n - 1 { SlotCountPositive(nullable, w, s, n - 1); }
  }

  /** A leaf with a set slot has a positive count; so a leaf counted empty holds nothing. */
  lemma {:induction false} LeafCountPositive(nullable: bool, leaf: Leaf, i: nat, s: nat)
    requires i < |leaf| && s < Slots(nullable) && SlotSet(nullable, leaf[i], s)
    ensures LeafCount(nullable, leaf) > 0
    decreases |leaf|
  {
    var n := |leaf| - 1;
    if i == n {
      SlotCountPositive(nullable, leaf[i], s, Slots(nullable));
    } else {
      LeafCountPositive(nullable, leaf[..n], i, s);
    }
  }

  lemma {:induction false} SlotCountBound(nullable: bool, w: nat, n: nat)
    ensures SlotCount(nullable, w, n) <= n
    ensures w == 0 ==> SlotCount(nullable, w, n) == 0
    decreases n
  {
    if n > 0 {
      SlotCountBound(nullable, w, n - 1);
      BitZero(n - 1);
      BitZero(2 * (n - 1));
      BitZero(2 * (n - 1) + 1);
    }
  }

  /** The counter of a leaf never exceeds 32768, so it fits the `uint16_t` that holds it. */
  lemma {:induction false} LeafCountBound(nullable: bool, leaf: Leaf)
    ensures LeafCount(nullable, leaf) <= if nullable then 32 * |leaf| else 64 * |leaf|
    ensures (forall i | 0 <= i < |leaf| :: leaf[i] == 0) ==> LeafCount(nullable, leaf) == 0
    decreases |leaf|
  {
    if leaf != [] {
      LeafCountBound(nullable, leaf[..|leaf| - 1]);
      SlotCountBound(nullable, leaf[|leaf| - 1], Slots(nullable));
    }
  }

  // ---------------------------------------------------------------- the trie

  ghost predicate GoodLeaf(nullable: bool, leaf: Leaf) {
    |leaf| == Words(nullable) && forall i | 0 <= i < |leaf| :: GoodWord(nullable, leaf[i])
  }

  /** The counter is the number of set slots, and 0 when there is no leaf. */
  ghost predicate GoodEntry(nullable: bool, e: Entry) {
    match e.node
    case None => e.activeBits == 0
    case Some(leaf) => GoodLeaf(nullable, leaf) && e.activeBits == LeafCount(nullable, leaf)
  }

  ghost predicate GoodPage(nullable: bool, page: Page) {
    |page| == DISPATCH && forall d | 0 <= d < |page| :: GoodEntry(nullable, page[d])
  }

  ghost predicate GoodRoots(nullable: bool, roots: Roots) {
    |roots| == ROOTS && forall r | 0 <= r < |roots| :: roots[r].Some? ==> GoodPage(nullable, roots[r].value)
  }

  /** The sizes alone: pages and leaves may be empty, counters and pairs may be anything. */
  ghost predicate Shaped(nullable: bool, roots: Roots) {
    && |roots| == ROOTS
    && (forall r | 0 <= r < ROOTS :: roots[r].Some? ==> |roots[r].value| == DISPATCH)
    && (forall r: nat, d: nat :: LeafAt(roots, r, d).Some? ==> ShapedLeaf(nullable, LeafAt(roots, r, d).value))
  }

  ghost predicate ShapedLeaf(nullable: bool, leaf: Leaf) {
    |leaf| == Words(nullable) && forall i | 0 <= i < |leaf| :: leaf[i] < WORD
  }

  lemma GoodIsShaped(nullable: bool, roots: Roots)
    requires GoodRoots(nullable, roots)
    ensures Shaped(nullable, roots)
  {
    forall r: nat, d: nat | LeafAt(roots, r, d).Some?
      ensures ShapedLeaf(nullable, LeafAt(roots, r, d).value)
    {
      assert GoodEntry(nullable, roots[r].value[d]);
    }
  }

  predicate HasLeaf(page: Page) {
    exists d | 0 <= d < |page| :: page[d].node.Some?
  }

  /** No leaf is empty and no page is without leaf. */
  ghost predicate Compact(roots: Roots) {
    forall r | 0 <= r < |roots| && roots[r].Some? ::
      HasLeaf(roots[r].value) && LeavesUsed(roots[r].value)
  }

  ghost predicate LeavesUsed(page: Page) {
    forall d | 0 <= d < |page| :: page[d].node.Some? ==> page[d].activeBits > 0
  }

  /** The leaf a key falls in, if there is one. */
  function LeafAt(roots: Roots, r: nat, d: nat): Option<Leaf> {
    if r < |roots| && roots[r].Some? && d < |roots[r].value| then roots[r].value[d].node else None
  }

  /** Whether a key is present, as the enumerators see it. */
  predicate Stored(nullable: bool, roots: Roots, k: Key) {
    var leaf := LeafAt(roots, k.root, k.dispatch);
    leaf.Some? && k.word < |leaf.value| && SlotSet(nullable, leaf.value[k.word], k.bit)
  }

  /** `qps_bitmap_get`. */
  function Lookup(nullable: bool, roots: Roots, k: Key): State {
    var leaf := LeafAt(roots, k.root, k.dispatch);
    if leaf.Some? && k.word < |leaf.value| then SlotState(nullable, leaf.value[k.word], k.bit)
    else Absent(nullable)
  }

  /** Enumerators and lookups agree on which rows are present. */
  lemma StoredIsPresent(nullable: bool, roots: Roots, k: Key)
    requires GoodRoots(nullable, roots)
    ensures Stored(nullable, roots, k) <==> Lookup(nullable, roots, k) != Absent(nullable)
  {
    var leaf := LeafAt(roots, k.root, k.dispatch);
    if leaf.Some? && k.word < |leaf.value| {
      assert GoodEntry(nullable, roots[k.root].value[k.dispatch]);
      assert GoodWord(nullable, leaf.value[k.word]);
    }
  }

  // ---------------------------------------------------------------- contents

  /** What the bitmap holds: each present row with its bit. */
  ghost function Contents(nullable: bool, roots: Roots): imap<nat, bool> {
    imap r: nat | r < ROWS && Lookup(nullable, roots, Split(nullable, r)) != Absent(nullable)
      :: Lookup(nullable, roots, Split(nullable, r)) == One
  }

  /** How a row reads, given the contents. */
  ghost function StateOf(nullable: bool, c: imap<nat, bool>, row: nat): State {
    if row !in c then Absent(nullable) else if c[row] then One else Zero
  }

  ghost function Without(c: imap<nat, bool>, row: nat): imap<nat, bool> {
    imap r | r in c && r != row :: c[r]
  }

  lemma LookupIsState(nullable: bool, roots: Roots, row: nat)
    requires row < ROWS
    ensures Lookup(nullable, roots, Split(nullable, row)) == StateOf(nullable, Contents(nullable, roots), row)
  {
  }
}
