/**
 The mutable QPS bitmap: `qps_bitmap_get`, `set`, `reset`, `remove` and `clear`, each proved to
 act on one row as a map update and to keep the trie well formed, correctly counted and compact.
 */
module QpsBitmap {
  import opened Bits
  import opened QpsTrie

  /** `qps_pg_zero` of a dispatch page and of a leaf. */
  function EmptyPage(): Page {
    seq(DISPATCH, _ => Entry(None, 0))
  }

  function EmptyLeaf(nullable: bool): Leaf {
    seq(Words(nullable), _ => 0)
  }

  /** Store `e` in entry `d` of the page of root `r`. */
  function PutEntry(roots: Roots, r: nat, d: nat, e: Entry): Roots
    requires r < |roots| && roots[r].Some? && d < |roots[r].value|
  {
    roots[r := Some(roots[r].value[d := e])]
  }

  /** The same leaves hang at the same places. */
  ghost predicate SameLeaves(a: Roots, b: Roots) {
    forall r: nat, d: nat :: LeafAt(a, r, d) == LeafAt(b, r, d)
  }

  /** Both tries answer every lookup alike. */
  ghost predicate SameLookups(nullable: bool, a: Roots, b: Roots) {
    forall k: Key | ValidKey(nullable, k) :: Lookup(nullable, a, k) == Lookup(nullable, b, k)
  }

  /** `b` is `a` with key `k` now reading `st`. */
  ghost predicate Updated(nullable: bool, a: Roots, b: Roots, key: Key, st: State) {
    forall k: Key | ValidKey(nullable, k) ::
      Lookup(nullable, b, k) == if k == key then st else Lookup(nullable, a, k)
  }

  /** Every page has a leaf, and every leaf other than the one at (r, d) is in use. */
  ghost predicate CompactBut(roots: Roots, r: nat, d: nat) {
    forall i | 0 <= i < |roots| && roots[i].Some? ::
      && HasLeaf(roots[i].value)
      && forall j | 0 <= j < |roots[i].value| :: (i != r || j != d) && roots[i].value[j].node.Some?
           ==> roots[i].value[j].activeBits > 0
  }

  lemma PutEntryKeeps(nullable: bool, roots: Roots, r: nat, d: nat, e: Entry)
    requires GoodRoots(nullable, roots)
    requires r < |roots| && roots[r].Some? && d < |roots[r].value|
    requires GoodEntry(nullable, e)
    ensures GoodRoots(nullable, PutEntry(roots, r, d, e))
    ensures CompactBut(roots, r, d) && e.node.Some? && e.activeBits > 0 ==> Compact(PutEntry(roots, r, d, e))
    ensures CompactBut(roots, r, d) && e.node.Some? ==> CompactBut(PutEntry(roots, r, d, e), r, d)
  {
    var after := PutEntry(roots, r, d, e);
    assert after[r].value == roots[r].value[d := e];
    if CompactBut(roots, r, d) && e.node.Some? {
      assert HasLeaf(after[r].value) by { assert after[r].value[d].node.Some?; }
    }
  }

  /** Writing one word of an existing leaf changes the lookup of one key only. */
  lemma WriteWord(nullable: bool, roots: Roots, key: Key, w: nat, st: State)
    requires GoodRoots(nullable, roots) && ValidKey(nullable, key)
    requires LeafAt(roots, key.root, key.dispatch).Some?
    requires var leaf := LeafAt(roots, key.root, key.dispatch).value;
             SlotWritten(nullable, leaf[key.word], w, key.bit, st)
    ensures var leaf := LeafAt(roots, key.root, key.dispatch).value;
            var before := Lookup(nullable, roots, key);
            var n := roots[key.root].value[key.dispatch].activeBits
                     + (if st != Absent(nullable) then 1 else 0) - (if before != Absent(nullable) then 1 else 0);
            n >= 0 &&
            var e := Entry(Some(leaf[key.word := w]), n);
            && GoodEntry(nullable, e)
            && (st != Absent(nullable) ==> n > 0)
            && Updated(nullable, roots, PutEntry(roots, key.root, key.dispatch, e), key, st)
  {
    var leaf := LeafAt(roots, key.root, key.dispatch).value;
    assert GoodEntry(nullable, roots[key.root].value[key.dispatch]);
    StoredIsPresent(nullable, roots, key);
    SlotCountWrite(nullable, leaf[key.word], w, key.bit, Slots(nullable));
    LeafCountWrite(nullable, leaf, key.word, w);
    var leaf2 := leaf[key.word := w];
    if st != Absent(nullable) { LeafCountPositive(nullable, leaf2, key.word, key.bit); }
    var e := Entry(Some(leaf2), LeafCount(nullable, leaf2));
    assert GoodLeaf(nullable, leaf2);
    var after := PutEntry(roots, key.root, key.dispatch, e);
    forall k: Key | ValidKey(nullable, k)
      ensures Lookup(nullable, after, k) == if k == key then st else Lookup(nullable, roots, k)
    {
      if k.root == key.root && k.dispatch == key.dispatch {
        assert LeafAt(after, k.root, k.dispatch) == Some(leaf2);
      } else {
        assert LeafAt(after, k.root, k.dispatch) == LeafAt(roots, k.root, k.dispatch);
      }
    }
  }

  /** A leaf counted empty can be dropped, and so can a page without leaf. */
  lemma DropLeaf(nullable: bool, roots: Roots, r: nat, d: nat)
    requires GoodRoots(nullable, roots)
    requires LeafAt(roots, r, d).Some? && roots[r].value[d].activeBits == 0
    ensures SameLookups(nullable, roots, PutEntry(roots, r, d, Entry(None, 0)))
    ensures GoodRoots(nullable, PutEntry(roots, r, d, Entry(None, 0)))
  {
    var after := PutEntry(roots, r, d, Entry(None, 0));
    PutEntryKeeps(nullable, roots, r, d, Entry(None, 0));
    forall k: Key | ValidKey(nullable, k)
      ensures Lookup(nullable, roots, k) == Lookup(nullable, after, k)
    {
      if k.root == r && k.dispatch == d {
        var leaf := LeafAt(roots, r, d).value;
        assert GoodEntry(nullable, roots[r].value[d]);
        if Stored(nullable, roots, k) { LeafCountPositive(nullable, leaf, k.word, k.bit); }
        StoredIsPresent(nullable, roots, k);
        assert LeafAt(after, r, d) == None;
      } else {
        assert LeafAt(after, k.root, k.dispatch) == LeafAt(roots, k.root, k.dispatch);
      }
    }
  }

  class Bitmap {
    const nullable: bool
    /** `bitmap_gen`, a `uint32_t` bumped by every mutator. */
    var gen: nat
    var roots: Roots
    /** How many mutators have run; `gen` is this number modulo 2^32. */
    ghost var mutations: nat

    ghost predicate Valid()
      reads this
    {
      && GoodRoots(nullable, roots)
      && Compact(roots)
      && gen == mutations % ROWS
    }

    /** The map from present rows to their bits that this bitmap stands for. */
    ghost function Rows(): imap<nat, bool>
      reads this
    {
      Contents(nullable, roots)
    }

    constructor (isNullable: bool)
      ensures Valid() && nullable == isNullable && gen == 0
      ensures Rows() == imap[]
    {
      nullable := isNullable;
      gen := 0;
      roots := seq(ROOTS, _ => None);
      mutations := 0;
    }

    /** `qps_bitmap_get` */
    method Get(row: nat) returns (st: State)
      requires Valid() && row < ROWS
      ensures st == StateOf(nullable, Rows(), row)
    {
      var key := Split(nullable, row);
      LookupIsState(nullable, roots, row);
      ValSplit(nullable, row);
      if roots[key.root].None? {
        return if nullable then Null else Zero;
      }
      var dispatch := roots[key.root].value;
      if dispatch[key.dispatch].node.None? {
        return if nullable then Null else Zero;
      }
      var leaf := dispatch[key.dispatch].node.value;
      assert GoodEntry(nullable, dispatch[key.dispatch]);
      if nullable {
        var word := Shr(leaf[key.word], key.bit * 2);
        BitShr(leaf[key.word], key.bit * 2, 0);
        BitShr(leaf[key.word], key.bit * 2, 1);
        if !Bit(word, 1) {
          return Null;
        }
        return if Bit(word, 0) then One else Zero;
      } else {
        var word := Shr(leaf[key.word], key.bit);
        BitShr(leaf[key.word], key.bit, 0);
        return if Bit(word, 0) then One else Zero;
      }
    }

    /** `map->bitmap_gen++` */
    method Bump()
      requires gen == mutations % ROWS
      modifies `gen, `mutations
      ensures gen == mutations % ROWS && mutations == old(mutations) + 1
    {
      gen, mutations := (gen + 1) % ROWS, mutations + 1;
    }

    /** `w_deref_dispatch`: whether there is a dispatch page for `key`, created on demand. */
    method DerefDispatch(key: Key, create: bool) returns (found: bool)
      requires GoodRoots(nullable, roots) && Compact(roots) && ValidKey(nullable, key)
      modifies `roots
      ensures GoodRoots(nullable, roots) && SameLeaves(old(roots), roots)
      ensures found == roots[key.root].Some? && found == (create || old(roots)[key.root].Some?)
      ensures !create || old(roots)[key.root].Some? ==> roots == old(roots)
      ensures forall i | 0 <= i < ROOTS && i != key.root :: roots[i] == old(roots)[i]
      ensures old(roots)[key.root].None? && found ==> roots[key.root].value == EmptyPage()
    {
      if roots[key.root].None? {
        if !create {
          return false;
        }
        roots := roots[key.root := Some(EmptyPage())];
        assert GoodPage(nullable, EmptyPage());
      }
      return true;
    }

    /** `w_deref_leaf`: whether there is a leaf for `key`, created on demand in an existing page. */
    method DerefLeaf(key: Key, found: bool, create: bool) returns (leaf: bool)
      requires GoodRoots(nullable, roots) && ValidKey(nullable, key)
      requires found == roots[key.root].Some?
      modifies `roots
      ensures GoodRoots(nullable, roots) && SameLookups(nullable, old(roots), roots)
      ensures leaf == LeafAt(roots, key.root, key.dispatch).Some?
      ensures leaf == (found && (create || LeafAt(old(roots), key.root, key.dispatch).Some?))
      ensures !leaf || LeafAt(old(roots), key.root, key.dispatch).Some? ==> roots == old(roots)
      ensures leaf && LeafAt(old(roots), key.root, key.dispatch).None? ==>
                roots == PutEntry(old(roots), key.root, key.dispatch, Entry(Some(EmptyLeaf(nullable)), 0))
    {
      if !found {
        return false;
      }
      var dispatch := roots[key.root].value;
      if dispatch[key.dispatch].node.None? {
        if !create {
          return false;
        }
        var e := Entry(Some(EmptyLeaf(nullable)), 0);
        EmptyLeafIsGood(nullable);
        PutEntryKeeps(nullable, roots, key.root, key.dispatch, e);
        roots := PutEntry(roots, key.root, key.dispatch, e);
        forall k: Key | ValidKey(nullable, k)
          ensures Lookup(nullable, old(roots), k) == Lookup(nullable, roots, k)
        {
          EmptySlot(nullable, k.bit);
          if k.root == key.root && k.dispatch == key.dispatch {
            assert LeafAt(roots, k.root, k.dispatch) == Some(EmptyLeaf(nullable));
          } else {
            assert LeafAt(roots, k.root, k.dispatch) == LeafAt(old(roots), k.root, k.dispatch);
          }
        }
      }
      return true;
    }

    /** Both dereferences, as the mutators call them. */
    method Deref(key: Key, create: bool) returns (leaf: bool)
      requires Valid() && ValidKey(nullable, key)
      modifies `roots
      ensures GoodRoots(nullable, roots) && SameLookups(nullable, old(roots), roots)
      ensures leaf == LeafAt(roots, key.root, key.dispatch).Some?
      ensures create ==> leaf
      ensures !create ==> roots == old(roots)
      ensures leaf ==> CompactBut(roots, key.root, key.dispatch)
    {
      var found := DerefDispatch(key, create);
      ghost var mid := roots;
      leaf := DerefLeaf(key, found, create);
      if leaf {
        assert roots[key.root].value[key.dispatch].node.Some?;
        assert HasLeaf(roots[key.root].value);
        forall i | 0 <= i < |roots| && roots[i].Some?
          ensures HasLeaf(roots[i].value)
          ensures forall j | 0 <= j < |roots[i].value| ::
                    (i != key.root || j != key.dispatch) && roots[i].value[j].node.Some?
                    ==> roots[i].value[j].activeBits > 0
        {
          if i != key.root {
            assert roots[i] == mid[i] == old(roots)[i];
          } else if old(roots)[i].Some? {
            assert LeavesUsed(old(roots)[i].value);
          }
        }
      }
    }

    /** `delete_leaf`: drop the leaf of `key`, then its page if that was the last leaf. */
    method DeleteLeaf(key: Key)
      requires GoodRoots(nullable, roots) && ValidKey(nullable, key)
      requires CompactBut(roots, key.root, key.dispatch)
      requires LeafAt(roots, key.root, key.dispatch).Some?
      requires roots[key.root].value[key.dispatch].activeBits == 0
      modifies `roots
      ensures GoodRoots(nullable, roots) && Compact(roots)
      ensures SameLookups(nullable, old(roots), roots)
      ensures LeafAt(roots, key.root, key.dispatch).None?
    {
      DropLeaf(nullable, roots, key.root, key.dispatch);
      var e := roots[key.root].value[key.dispatch];
      roots := PutEntry(roots, key.root, key.dispatch, e.(node := None));
      ghost var mid := roots;
      var dispatch := roots[key.root].value;
      for i := 0 to DISPATCH
        invariant roots == mid
        invariant forall j | 0 <= j < i :: dispatch[j].node.None?
      {
        if dispatch[i].node.Some? {
          assert HasLeaf(dispatch);
          return;
        }
      }
      roots := roots[key.root := None];
      forall k: Key | ValidKey(nullable, k)
        ensures Lookup(nullable, mid, k) == Lookup(nullable, roots, k)
      {
        assert LeafAt(mid, k.root, k.dispatch) == LeafAt(roots, k.root, k.dispatch);
      }
    }

    /** Write slot `key` as `st`, adjusting the counter by `delta`; the leaf ends up in use. */
    method WriteUsed(key: Key, w: nat, delta: nat, ghost st: State)
      requires GoodRoots(nullable, roots) && ValidKey(nullable, key)
      requires CompactBut(roots, key.root, key.dispatch)
      requires LeafAt(roots, key.root, key.dispatch).Some?
      requires SlotWritten(nullable, LeafAt(roots, key.root, key.dispatch).value[key.word], w, key.bit, st)
      requires st != Absent(nullable)
      requires delta == if Lookup(nullable, roots, key) == Absent(nullable) then 1 else 0
      modifies `roots
      ensures GoodRoots(nullable, roots) && Compact(roots)
      ensures Updated(nullable, old(roots), roots, key, st)
    {
      var e := roots[key.root].value[key.dispatch];
      WriteWord(nullable, roots, key, w, st);
      var e2 := Entry(Some(e.node.value[key.word := w]), e.activeBits + delta);
      PutEntryKeeps(nullable, roots, key.root, key.dispatch, e2);
      roots := PutEntry(roots, key.root, key.dispatch, e2);
    }

    /** Clear slot `key`, decrement the counter, and delete the leaf when it reaches 0. */
    method WriteAbsent(key: Key, w: nat)
      requires GoodRoots(nullable, roots) && ValidKey(nullable, key)
      requires CompactBut(roots, key.root, key.dispatch)
      requires LeafAt(roots, key.root, key.dispatch).Some?
      requires SlotWritten(nullable, LeafAt(roots, key.root, key.dispatch).value[key.word], w, key.bit, Absent(nullable))
      requires Lookup(nullable, roots, key) != Absent(nullable)
      modifies `roots
      ensures GoodRoots(nullable, roots) && Compact(roots)
      ensures Updated(nullable, old(roots), roots, key, Absent(nullable))
    {
      var e := roots[key.root].value[key.dispatch];
      WriteWord(nullable, roots, key, w, Absent(nullable));
      var e2 := Entry(Some(e.node.value[key.word := w]), e.activeBits - 1);
      PutEntryKeeps(nullable, roots, key.root, key.dispatch, e2);
      roots := PutEntry(roots, key.root, key.dispatch, e2);
      if roots[key.root].value[key.dispatch].activeBits == 0 {
        DeleteLeaf(key);
      }
    }

    /** `qps_bitmap_set` */
    method Set(row: nat) returns (previous: State)
      requires Valid() && row < ROWS
      modifies this
      ensures Valid() && mutations == old(mutations) + 1
      ensures previous == StateOf(nullable, old(Rows()), row)
      ensures Rows() == old(Rows())[row := true]
    {
      LookupIsState(nullable, roots, row);
      ValSplit(nullable, row);
      Bump();
      previous := SetKey(Split(nullable, row));
      ContentsAfter(nullable, old(roots), roots, row, One);
    }

    method SetKey(key: Key) returns (previous: State)
      requires Valid() && ValidKey(nullable, key)
      modifies `roots
      ensures Valid() && previous == Lookup(nullable, old(roots), key)
      ensures Updated(nullable, old(roots), roots, key, One)
    {
      var leaf := Deref(key, true);
      assert GoodEntry(nullable, roots[key.root].value[key.dispatch]);
      var word := roots[key.root].value[key.dispatch].node.value[key.word];
      SetSlotWrites(nullable, word, key.bit);
      if nullable {
        if !Bit(word, 2 * key.bit + 1) {
          WriteUsed(key, SetSlot(nullable, word, key.bit), 1, One);
          previous := Null;
        } else if !Bit(word, 2 * key.bit) {
          WriteUsed(key, SetSlot(nullable, word, key.bit), 0, One);
          previous := Zero;
        } else {
          StillUsed(nullable, roots, key);
          previous := One;
        }
      } else {
        if !Bit(word, key.bit) {
          WriteUsed(key, SetSlot(nullable, word, key.bit), 1, One);
          previous := Zero;
        } else {
          StillUsed(nullable, roots, key);
          previous := One;
        }
      }
    }

    /** `qps_bitmap_reset` */
    method Reset(row: nat) returns (previous: State)
      requires Valid() && row < ROWS
      modifies this
      ensures Valid() && mutations == old(mutations) + 1
      ensures previous == StateOf(nullable, old(Rows()), row)
      ensures Rows() == if nullable then old(Rows())[row := false] else Without(old(Rows()), row)
    {
      LookupIsState(nullable, roots, row);
      ValSplit(nullable, row);
      Bump();
      previous := ResetKey(Split(nullable, row));
      ContentsAfter(nullable, old(roots), roots, row, Zero);
    }

    method ResetKey(key: Key) returns (previous: State)
      requires Valid() && ValidKey(nullable, key)
      modifies `roots
      ensures Valid() && previous == Lookup(nullable, old(roots), key)
      ensures Updated(nullable, old(roots), roots, key, Zero)
    {
      var leaf := Deref(key, nullable);
      if !leaf {
        return Zero;
      }
      assert GoodEntry(nullable, roots[key.root].value[key.dispatch]);
      var word := roots[key.root].value[key.dispatch].node.value[key.word];
      if nullable {
        ZeroSlotWrites(word, key.bit);
        if !Bit(word, 2 * key.bit + 1) {
          WriteUsed(key, ZeroSlot(word, key.bit), 1, Zero);
          previous := Null;
        } else if Bit(word, 2 * key.bit) {
          WriteUsed(key, ZeroSlot(word, key.bit), 0, Zero);
          previous := One;
        } else {
          StillUsed(nullable, roots, key);
          previous := Zero;
        }
      } else {
        ClearSlotWrites(nullable, word, key.bit);
        if Bit(word, key.bit) {
          WriteAbsent(key, ClearSlot(nullable, word, key.bit));
          previous := One;
        } else {
          previous := Zero;
        }
      }
    }

    /** `qps_bitmap_remove` */
    method Remove(row: nat) returns (previous: State)
      requires Valid() && row < ROWS
      modifies this
      ensures Valid() && mutations == old(mutations) + 1
      ensures previous == StateOf(nullable, old(Rows()), row)
      ensures Rows() == Without(old(Rows()), row)
    {
      LookupIsState(nullable, roots, row);
      ValSplit(nullable, row);
      Bump();
      previous := RemoveKey(Split(nullable, row));
      ContentsAfter(nullable, old(roots), roots, row, Absent(nullable));
    }

    method RemoveKey(key: Key) returns (previous: State)
      requires Valid() && ValidKey(nullable, key)
      modifies `roots
      ensures Valid() && previous == Lookup(nullable, old(roots), key)
      ensures Updated(nullable, old(roots), roots, key, Absent(nullable))
    {
      var leaf := Deref(key, false);
      if !leaf {
        return if nullable then Null else Zero;
      }
      assert GoodEntry(nullable, roots[key.root].value[key.dispatch]);
      var word := roots[key.root].value[key.dispatch].node.value[key.word];
      ClearSlotWrites(nullable, word, key.bit);
      if nullable {
        if !Bit(word, 2 * key.bit + 1) {
          previous := Null;
        } else {
          previous := if Bit(word, 2 * key.bit) then One else Zero;
          WriteAbsent(key, ClearSlot(nullable, word, key.bit));
        }
      } else {
        if Bit(word, key.bit) {
          WriteAbsent(key, ClearSlot(nullable, word, key.bit));
          previous := One;
        } else {
          previous := Zero;
        }
      }
    }

    /** `qps_bitmap_clear` */
    method Clear()
      requires Valid()
      modifies this
      ensures Valid() && mutations == old(mutations) + 1
      ensures Rows() == imap[]
    {
      roots := seq(ROOTS, _ => None);
      Bump();
    }
  }

  lemma EmptySlot(nullable: bool, s: nat)
    ensures SlotState(nullable, 0, s) == Absent(nullable)
  {
    BitZero(s);
    BitZero(2 * s);
    BitZero(2 * s + 1);
  }

  lemma EmptyLeafIsGood(nullable: bool)
    ensures GoodEntry(nullable, Entry(Some(EmptyLeaf(nullable)), 0))
  {
    LeafCountBound(nullable, EmptyLeaf(nullable));
    forall s: nat ensures !Bit(0, s) { BitZero(s); }
    assert GoodWord(nullable, 0);
  }

  /** A leaf that holds a present key needs no compaction. */
  lemma StillUsed(nullable: bool, roots: Roots, key: Key)
    requires GoodRoots(nullable, roots) && ValidKey(nullable, key)
    requires CompactBut(roots, key.root, key.dispatch)
    requires Lookup(nullable, roots, key) != Absent(nullable)
    ensures Compact(roots)
  {
    StoredIsPresent(nullable, roots, key);
    var e := roots[key.root].value[key.dispatch];
    assert GoodEntry(nullable, e);
    LeafCountPositive(nullable, e.node.value, key.word, key.bit);
  }

  /** One key updated is one entry of the contents updated. */
  lemma ContentsAfter(nullable: bool, a: Roots, b: Roots, row: nat, st: State)
    requires row < ROWS
    requires Updated(nullable, a, b, Split(nullable, row), st)
    ensures Contents(nullable, b) ==
            if st == Absent(nullable) then Without(Contents(nullable, a), row)
            else Contents(nullable, a)[row := st == One]
  {
    ValSplit(nullable, row);
    forall r: nat | r < ROWS
      ensures Lookup(nullable, b, Split(nullable, r)) ==
              if r == row then st else Lookup(nullable, a, Split(nullable, r))
    {
      ValSplit(nullable, r);
    }
  }
}
