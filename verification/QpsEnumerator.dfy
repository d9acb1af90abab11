/**
 The QPS bitmap enumerator, in its nullable and plain forms.  The five mutually recursive search
 functions are proved to stop on the least stored key at or above their target.
 */
module QpsEnumerator {
  import opened Bits
  import opened QpsTrie
  import opened QpsBitmap

  // ---------------------------------------------------------------- what a search must find

  ghost predicate NoneBetween(nullable: bool, roots: Roots, lo: Key, hi: Key) {
    forall k: Key {:trigger Stored(nullable, roots, k)} | ValidKey(nullable, k) && Le(lo, k) && Lt(k, hi) :: !Stored(nullable, roots, k)
  }

  ghost predicate NoneFrom(nullable: bool, roots: Roots, lo: Key) {
    forall k: Key {:trigger Stored(nullable, roots, k)} | ValidKey(nullable, k) && Le(lo, k) :: !Stored(nullable, roots, k)
  }

  /** `key` is the least stored key at or above `lo`; `lo.bit` may be one past the last bit. */
  ghost predicate LeastFrom(nullable: bool, roots: Roots, lo: Key, key: Key) {
    && ValidKey(nullable, key)
    && Stored(nullable, roots, key)
    && Le(lo, key)
    && NoneBetween(nullable, roots, lo, key)
  }

  /** The search that began at `lo` has come to `mid` without passing a stored key. */
  ghost predicate Searched(nullable: bool, roots: Roots, lo: Key, mid: Key) {
    Le(lo, mid) && NoneBetween(nullable, roots, lo, mid)
  }

  /** The search that began at `lo` goes on at `up`, or is over if `up` has wrapped to key 0. */
  ghost predicate GoesOn(nullable: bool, roots: Roots, lo: Key, up: Key) {
    if up == Key(0, 0, 0, 0) then NoneFrom(nullable, roots, lo) else Searched(nullable, roots, lo, up)
  }

  lemma Extend(nullable: bool, roots: Roots, lo: Key, mid: Key, hi: Key)
    requires Searched(nullable, roots, lo, mid) && Searched(nullable, roots, mid, hi)
    ensures Searched(nullable, roots, lo, hi)
  {
    forall k: Key | ValidKey(nullable, k) && Le(lo, k) && Lt(k, hi) ensures !Stored(nullable, roots, k) {
      Total(k, mid);
    }
  }

  lemma ExtendEnd(nullable: bool, roots: Roots, lo: Key, mid: Key)
    requires Searched(nullable, roots, lo, mid) && NoneFrom(nullable, roots, mid)
    ensures NoneFrom(nullable, roots, lo)
  {
    forall k: Key | ValidKey(nullable, k) && Le(lo, k) ensures !Stored(nullable, roots, k) {
      Total(k, mid);
    }
  }

  lemma Total(a: Key, b: Key)
    ensures Lt(a, b) || Le(b, a)
  {
  }

  /** Absent pages are passed over. */
  lemma SkipRoots(nullable: bool, roots: Roots, lo: Key, at: Key, i: nat)
    requires Searched(nullable, roots, lo, at)
    requires at.root <= i <= |roots| == ROOTS
    requires forall r | at.root <= r < i :: roots[r].None?
    ensures i < ROOTS ==> Searched(nullable, roots, lo, if i == at.root then at else Key(i, 0, 0, 0))
    ensures i == ROOTS ==> NoneFrom(nullable, roots, lo)
  {
    if i == ROOTS {
      ExtendEnd(nullable, roots, lo, at);
    } else if i > at.root {
      Extend(nullable, roots, lo, at, Key(i, 0, 0, 0));
    }
  }

  /** Absent leaves are passed over. */
  lemma SkipEntries(nullable: bool, roots: Roots, lo: Key, at: Key, i: nat)
    requires Searched(nullable, roots, lo, at) && at.root < ROOTS
    requires at.dispatch <= i <= DISPATCH
    requires forall d | at.dispatch <= d < i :: LeafAt(roots, at.root, d).None?
    ensures i < DISPATCH ==>
              Searched(nullable, roots, lo, if i == at.dispatch then at else Key(at.root, i, 0, 0))
    ensures i == DISPATCH ==> GoesOn(nullable, roots, lo, Key((at.root + 1) % ROOTS, 0, 0, 0))
  {
    if i < DISPATCH {
      if i > at.dispatch { Extend(nullable, roots, lo, at, Key(at.root, i, 0, 0)); }
    } else if at.root + 1 < ROOTS {
      Extend(nullable, roots, lo, at, Key(at.root + 1, 0, 0, 0));
    } else {
      ExtendEnd(nullable, roots, lo, at);
    }
  }

  /** Zero words are passed over. */
  lemma SkipWords(nullable: bool, roots: Roots, lo: Key, at: Key, leaf: Leaf, i: nat)
    requires Searched(nullable, roots, lo, at) && at.root < ROOTS && at.dispatch < DISPATCH
    requires LeafAt(roots, at.root, at.dispatch) == Some(leaf)
    requires at.word <= i <= |leaf| == Words(nullable)
    requires forall w | at.word <= w < i :: leaf[w] == 0
    ensures i < |leaf| ==>
              Searched(nullable, roots, lo, if i == at.word then at else Key(at.root, at.dispatch, i, 0))
    ensures i == |leaf| ==> GoesOn(nullable, roots, lo, NextLeafKey(at))
  {
    forall b: nat ensures !Bit(0, b) { BitZero(b); }
    if i < |leaf| {
      if i > at.word { Extend(nullable, roots, lo, at, Key(at.root, at.dispatch, i, 0)); }
    } else if NextLeafKey(at) == Key(0, 0, 0, 0) {
      ExtendEnd(nullable, roots, lo, at);
    } else {
      Extend(nullable, roots, lo, at, NextLeafKey(at));
    }
  }

  /** The unset slots of a word are passed over, up to a set one or to the end of the word. */
  lemma SkipBits(nullable: bool, roots: Roots, lo: Key, at: Key, w: nat, found: bool, bit: nat)
    requires Searched(nullable, roots, lo, at) && ValidKey(nullable, at.(bit := 0))
    requires LeafAt(roots, at.root, at.dispatch).Some?
    requires ShapedLeaf(nullable, LeafAt(roots, at.root, at.dispatch).value)
    requires w == LeafAt(roots, at.root, at.dispatch).value[at.word]
    requires found ==> at.bit <= bit < Slots(nullable) && SlotSet(nullable, w, bit)
    requires forall s: nat | at.bit <= s && (found ==> s < bit) :: !SlotSet(nullable, w, s)
    ensures found ==> LeastFrom(nullable, roots, lo, at.(bit := bit))
    ensures !found ==> GoesOn(nullable, roots, lo, NextWordKey(nullable, at))
  {
    if found {
      Extend(nullable, roots, lo, at, at.(bit := bit));
    } else if NextWordKey(nullable, at) == Key(0, 0, 0, 0) {
      ExtendEnd(nullable, roots, lo, at);
    } else {
      Extend(nullable, roots, lo, at, NextWordKey(nullable, at));
    }
  }

  // ---------------------------------------------------------------- the cached word

  /** The first bit of slot `s` in its word. */
  function Sh(nullable: bool, s: nat): nat { if nullable then 2 * s else s }

  /** `current_word &= ~1` or `&= ~3`. */
  function DropSlot(nullable: bool, cw: nat): nat {
    AndNot(cw, if nullable then 3 else 1)
  }

  /** `w` shifted down to slot `b`. */
  function From(nullable: bool, w: nat, b: nat): nat {
    Shr(w, Sh(nullable, b))
  }

  /**
   `cw` is word `w` shifted down to slot `b`, where slot `b` itself may have been masked out if
   only slots from `from` on matter and those lie above `b`; and no slot in [from, b) is set.
   */
  ghost predicate Tracks(nullable: bool, w: nat, b: nat, cw: nat, from: nat) {
    && (cw == From(nullable, w, b) || (from > b && cw == DropSlot(nullable, From(nullable, w, b))))
    && forall s: nat | from <= s < b :: !SlotSet(nullable, w, s)
  }

  /** Bit `i` of the cached word, wherever slot `b` has not been masked out of it. */
  lemma TracksBit(nullable: bool, w: nat, b: nat, cw: nat, from: nat, i: nat)
    requires Tracks(nullable, w, b, cw, from)
    ensures Bit(cw, i) ==> Bit(w, Sh(nullable, b) + i)
    ensures i >= Sh(nullable, 1) || from <= b ==> Bit(cw, i) == Bit(w, Sh(nullable, b) + i)
    ensures from > b && cw == DropSlot(nullable, From(nullable, w, b)) && i < Sh(nullable, 1) ==> !Bit(cw, i)
  {
    BitShr(w, Sh(nullable, b), i);
    BitAndNot(From(nullable, w, b), if nullable then 3 else 1, i);
    SmallBits(i);
  }

  /** One turn of the loop of `find_bit`: `bsf`, shift, advance. */
  lemma TracksStep(nullable: bool, w: nat, b: nat, cw: nat, from: nat)
    requires w < WORD
    requires Tracks(nullable, w, b, cw, from)
    requires cw != 0
    ensures var bit := Lsb(cw);
            var s := if nullable then bit / 2 else bit;
            && b + s < Slots(nullable)
            && Shr(cw, Sh(nullable, s)) == From(nullable, w, b + s)
            && (s == 0 ==> cw == From(nullable, w, b))
            && SlotSet(nullable, w, b + s)
            && (nullable ==> Bit(w, 2 * (b + s)) == (bit % 2 == 0))
            && forall t: nat | from <= t < b + s :: !SlotSet(nullable, w, t)
  {
    var bit := Lsb(cw);
    var s := if nullable then bit / 2 else bit;
    TracksBit(nullable, w, b, cw, from, bit);
    TracksShift(nullable, w, b, cw, from, s);
    WordIsPow2();
    if Sh(nullable, b) + bit >= 64 { BitAbove(w, 64, Sh(nullable, b) + bit); }
    if nullable && bit % 2 == 1 {
      TracksBit(nullable, w, b, cw, from, bit - 1);
      BitShr(w, 2 * b, bit - 1);
    }
    forall t: nat | from <= t < b + s ensures !SlotSet(nullable, w, t) {
      if t >= b { TracksUnset(nullable, w, b, cw, from, t); }
    }
  }

  lemma TracksUnset(nullable: bool, w: nat, b: nat, cw: nat, from: nat, t: nat)
    requires Tracks(nullable, w, b, cw, from)
    requires t >= b && t >= from
    requires !Bit(cw, Sh(nullable, t - b)) && (nullable ==> !Bit(cw, Sh(nullable, t - b) + 1))
    ensures !SlotSet(nullable, w, t)
  {
    var o := Sh(nullable, t - b);
    TracksBit(nullable, w, b, cw, from, o);
    TracksBit(nullable, w, b, cw, from, o + 1);
  }

  lemma TracksShift(nullable: bool, w: nat, b: nat, cw: nat, from: nat, s: nat)
    requires Tracks(nullable, w, b, cw, from)
    requires s > 0 || cw == From(nullable, w, b)
    ensures Shr(cw, Sh(nullable, s)) == From(nullable, w, b + s)
  {
    forall i: nat ensures Bit(Shr(cw, Sh(nullable, s)), i) == Bit(From(nullable, w, b + s), i) {
      BitShr(cw, Sh(nullable, s), i);
      BitShr(w, Sh(nullable, b + s), i);
      BitShr(w, Sh(nullable, b), i + Sh(nullable, s));
      TracksBit(nullable, w, b, cw, from, i + Sh(nullable, s));
    }
    SameBits(Shr(cw, Sh(nullable, s)), From(nullable, w, b + s));
  }

  /** Masking slot `b` out leaves nothing in it. */
  lemma Dropped(nullable: bool, cw: nat)
    ensures !SlotSet(nullable, DropSlot(nullable, cw), 0)
  {
    BitAndNot(cw, if nullable then 3 else 1, 0);
    BitAndNot(cw, if nullable then 3 else 1, 1);
    SmallBits(0);
    SmallBits(1);
  }

  /** Once the cached word is 0, no slot from `from` on is set. */
  lemma TracksEnd(nullable: bool, w: nat, b: nat, from: nat)
    requires Tracks(nullable, w, b, 0, from)
    ensures forall s: nat | s >= from :: !SlotSet(nullable, w, s)
  {
    forall s: nat | s >= from ensures !SlotSet(nullable, w, s) {
      if s >= b {
        BitZero(Sh(nullable, s - b));
        BitZero(Sh(nullable, s - b) + 1);
        TracksUnset(nullable, w, b, 0, from, s);
      }
    }
  }

  // ---------------------------------------------------------------- the three scans

  /** The loop of `find_dispatch`: the first present page from `start` on. */
  method FirstRoot(roots: Roots, start: nat) returns (i: nat)
    requires start <= |roots|
    ensures start <= i <= |roots|
    ensures forall r | start <= r < i :: roots[r].None?
    ensures i < |roots| ==> roots[i].Some?
  {
    i := start;
    while i < |roots|
      invariant start <= i <= |roots|
      invariant forall r | start <= r < i :: roots[r].None?
    {
      if roots[i].Some? {
        return;
      }
      i := i + 1;
    }
  }

  /** The loop of `find_leaf`: the first present leaf from `start` on. */
  method FirstEntry(page: Page, start: nat) returns (i: nat)
    requires start <= |page|
    ensures start <= i <= |page|
    ensures forall d | start <= d < i :: page[d].node.None?
    ensures i < |page| ==> page[i].node.Some?
  {
    i := start;
    while i < |page|
      invariant start <= i <= |page|
      invariant forall d | start <= d < i :: page[d].node.None?
    {
      if page[i].node.Some? {
        return;
      }
      i := i + 1;
    }
  }

  /** The loop of `find_word`: the first non-zero word from `start` on. */
  method FirstWord(leaf: Leaf, start: nat) returns (i: nat)
    requires start <= |leaf|
    ensures start <= i <= |leaf|
    ensures forall w | start <= w < i :: leaf[w] == 0
    ensures i < |leaf| ==> leaf[i] != 0
  {
    i := start;
    while i < |leaf|
      invariant start <= i <= |leaf|
      invariant forall w | start <= w < i :: leaf[w] == 0
    {
      if leaf[i] != 0 {
        return;
      }
      i := i + 1;
    }
  }

  /** One turn of the loop of `find_bit`: move to the lowest slot of the cached word that is set. */
  method StepWord(nullable: bool, ghost w: nat, b: nat, cw: nat, before: bool, ghost from: nat)
    returns (bit: nat, word: nat, value: bool)
    requires w < WORD && b < Slots(nullable) && (!nullable ==> before)
    requires Tracks(nullable, w, b, cw, from) && cw != 0
    ensures b <= bit < Slots(nullable)
    ensures bit == b ==> cw == From(nullable, w, b)
    ensures word == From(nullable, w, bit) && SlotSet(nullable, w, bit)
    ensures value == (nullable ==> Bit(w, 2 * bit))
    ensures forall s: nat | from <= s < bit :: !SlotSet(nullable, w, s)
  {
    var first := Lsb(cw);
    TracksStep(nullable, w, b, cw, from);
    if nullable {
      assert first - first % 2 == 2 * (first / 2);
      value := first % 2 == 0;
      word := Shr(cw, first - first % 2);
      bit := (b + first / 2) % 32;
    } else {
      value := before;
      word := Shr(cw, first);
      bit := (b + first) % 64;
    }
  }

  /**
   The loop of `find_bit` on the cached word `cw` of word `w`, standing on slot `b`: the first set
   slot at or above `target` (and above `from`), or none left.
   */
  method ScanWord(nullable: bool, ghost w: nat, b: nat, cw: nat, before: bool, target: nat, ghost from: nat)
    returns (found: bool, bit: nat, word: nat, value: bool)
    requires w < WORD && b < Slots(nullable) && (!nullable ==> before)
    requires Tracks(nullable, w, b, cw, from)
    requires cw != 0 ==> from == if target >= b then target else b
    ensures bit < Slots(nullable) && (!nullable ==> value)
    ensures found ==> from <= bit && SlotSet(nullable, w, bit)
    ensures found ==> word == From(nullable, w, bit)
    ensures found ==> value == (nullable ==> Bit(w, 2 * bit))
    ensures forall s: nat | from <= s && (found ==> s < bit) :: !SlotSet(nullable, w, s)
  {
    bit, word, value := b, cw, before;
    ghost var masked := false;
    while word != 0
      invariant b <= bit < Slots(nullable) && (!nullable ==> value)
      invariant Tracks(nullable, w, bit, word, from)
      invariant masked ==> !SlotSet(nullable, word, 0)
      invariant word != 0 ==> from == if target >= b then target else b
      decreases Slots(nullable) - bit, !masked
    {
      ghost var was := bit;
      bit, word, value := StepWord(nullable, w, bit, word, value, from);
      if bit == was && masked { FirstSlotSet(nullable, w, bit); }
      if bit >= target {
        return true, bit, word, value;
      }
      word := DropSlot(nullable, word);
      masked := true;
      Dropped(nullable, From(nullable, w, bit));
    }
    TracksEnd(nullable, w, bit, from);
    found := false;
  }

  lemma FirstSlotSet(nullable: bool, w: nat, b: nat)
    requires SlotSet(nullable, w, b)
    ensures SlotSet(nullable, From(nullable, w, b), 0)
  {
    BitShr(w, Sh(nullable, b), 0);
    BitShr(w, Sh(nullable, b), 1);
  }

  /** `up` lies above `key`, in a later word at least, or has wrapped to 0. */
  ghost predicate Carried(nullable: bool, key: Key, up: Key) {
    && ValidKey(nullable, up)
    && if up.root < key.root then up == Key(0, 0, 0, 0) else Lt(key.(bit := Slots(nullable)), up)
  }

  /** `key.word = key.bit = 0; key.key += 1 << 15`: the key after the current leaf, wrapping. */
  method CarryLeaf(nullable: bool, key: Key) returns (up: Key)
    requires ValidKey(nullable, key)
    ensures up == NextLeafKey(key)
  {
    NextLeafIsAdd(nullable, key.(word := 0, bit := 0));
    up := AddKey(nullable, key.(word := 0, bit := 0), 0x8000);
  }

  /** `key.bit = 0; key.key += 1 << 6` (or 5): the key after the current word, wrapping. */
  method CarryWord(nullable: bool, key: Key) returns (up: Key)
    requires ValidKey(nullable, key)
    ensures up == NextWordKey(nullable, key)
  {
    NextWordIsAdd(nullable, key.(bit := 0));
    up := AddKey(nullable, key.(bit := 0), Slots(nullable));
  }

  // ---------------------------------------------------------------- the enumerator

  class Enumerator {
    const bitmap: Bitmap
    const nullable: bool
    var key: Key
    var end: bool
    var value: bool
    var leaf: Option<Leaf>
    var dispatch: Option<Page>
    var currentWord: nat
    var gen: nat
    /** The value of `bitmap.mutations` when `gen` was taken. */
    ghost var seen: nat

    ghost predicate PageCached()
      reads this, bitmap
    {
      && nullable == bitmap.nullable
      && Shaped(nullable, bitmap.roots)
      && ValidKey(nullable, key)
      && dispatch.Some?
      && bitmap.roots[key.root] == dispatch
    }

    ghost predicate LeafCached()
      reads this, bitmap
    {
      && PageCached()
      && leaf.Some?
      && dispatch.value[key.dispatch].node == leaf
      && ShapedLeaf(nullable, leaf.value)
    }

    /** The enumerator is on a stored key and every cached field agrees with the bitmap. */
    ghost predicate OnKey()
      reads this, bitmap
    {
      && LeafCached()
      && Stored(nullable, bitmap.roots, key)
      && currentWord == From(nullable, leaf.value[key.word], key.bit)
      && value == (nullable ==> Bit(leaf.value[key.word], 2 * key.bit))
    }

    /** The enumerator is where a search from `lo` must end. */
    ghost predicate At(lo: Key)
      reads this, bitmap
    {
      if end then NoneFrom(nullable, bitmap.roots, lo)
      else LeastFrom(nullable, bitmap.roots, lo, key) && OnKey()
    }

    /**
     What a caller keeps between steps: `gen` was read when `bitmap.mutations` was `seen`, fewer
     than 2^32 mutations ago, and the caches are right if the bitmap has not changed since.
     */
    ghost predicate Live()
      reads this, bitmap
    {
      && nullable == bitmap.nullable
      && Shaped(nullable, bitmap.roots)
      && gen == seen % ROWS
      && bitmap.gen == bitmap.mutations % ROWS
      && seen <= bitmap.mutations < seen + ROWS
      && (!end && !nullable ==> value)
      && (!end ==> ValidKey(nullable, key))
      && (!end && seen == bitmap.mutations ==> OnKey())
    }

    /** `qps_bitmap_enumerator_is_sync` tells exactly whether the bitmap was mutated. */
    method IsSync() returns (sync: bool)
      requires Live()
      ensures sync <==> seen == bitmap.mutations
    {
      sync := gen == bitmap.gen;
    }

    /** `qps_bitmap_get_enumerator_at` */
    constructor (bitmap: Bitmap, row: nat)
      requires Shaped(bitmap.nullable, bitmap.roots) && row < ROWS
      requires bitmap.gen == bitmap.mutations % ROWS
      ensures this.bitmap == bitmap && seen == bitmap.mutations
      ensures Live() && At(Split(nullable, row))
    {
      this.bitmap, nullable := bitmap, bitmap.nullable;
      key, end, value := Key(0, 0, 0, 0), false, !bitmap.nullable;
      leaf, dispatch, currentWord := None, None, 0;
      gen, seen := bitmap.gen, bitmap.mutations;
      new;
      ValSplit(nullable, row);
      FindDispatch(Split(nullable, row), Split(nullable, row));
    }

    /** A search from `lo` that did not stop on `lo` is a search from the next bit. */
    lemma Past(lo: Key)
      requires At(lo) && (!end ==> key != lo)
      ensures At(lo.(bit := lo.bit + 1))
    {
    }

    /** The out of sync start of `next` and `go_to`: take the generation and search afresh. */
    method Resync(target: Key)
      requires Live() && !end && ValidKey(nullable, target)
      modifies this
      ensures Live() && seen == bitmap.mutations
      ensures At(target)
    {
      gen, seen := bitmap.gen, bitmap.mutations;
      FindDispatch(target, target);
    }

    /** `qps_bitmap_enumerator_next` */
    method Next(safe: bool)
      requires Live() && !end
      requires safe || seen == bitmap.mutations
      modifies this
      ensures Live() && seen == bitmap.mutations
      ensures At(old(key).(bit := old(key).bit + 1))
    {
      var sync := IsSync();
      if safe && !sync {
        ResyncNext();
      } else {
        Advance();
      }
    }

    /** `next` on a bitmap that changed: if the current key is gone, its successor is the next key. */
    method ResyncNext()
      requires Live() && !end
      modifies this
      ensures Live() && seen == bitmap.mutations
      ensures At(old(key).(bit := old(key).bit + 1))
    {
      var target := key;
      Resync(target);
      if end || key != target {
        Past(target);
        return;
      }
      Advance();
    }

    /** The end of `qps_bitmap_enumerator_next`: step over the current slot of the cached word. */
    method Advance()
      requires !end && OnKey()
      modifies `key, `end, `value, `leaf, `dispatch, `currentWord
      ensures At(old(key).(bit := old(key).bit + 1))
    {
      ghost var from := key.bit + 1;
      if from == Slots(nullable) { LastSlotDone(nullable, leaf.value[key.word]); }
      currentWord := DropSlot(nullable, currentWord);
      var target := key.(bit := (key.bit + 1) % Slots(nullable));
      FindBit(target, from, key.(bit := from));
    }

    /** `qps_bitmap_enumerator_go_to` */
    method GoTo(row: nat, safe: bool)
      requires Live() && row < ROWS
      requires safe || seen == bitmap.mutations
      modifies this
      ensures Live()
      ensures old(end) ==> end && key == old(key) && seen == old(seen)
      ensures !old(end) ==> seen == bitmap.mutations
      ensures !old(end) && old(seen) != bitmap.mutations ==> At(Split(nullable, row))
      ensures !old(end) && old(seen) == bitmap.mutations ==> At(GoToTarget(old(key), Split(nullable, row)))
    {
      var target := Split(nullable, row);
      ValSplit(nullable, row);
      if end {
        return;
      }
      var sync := IsSync();
      if safe && !sync {
        Resync(target);
        return;
      }
      SplitVal(nullable, key);
      if Val(nullable, key) == row {
        return;
      }
      MoveTo(target);
    }

    /** The field by field descent of `qps_bitmap_enumerator_go_to`. */
    method MoveTo(target: Key)
      requires !end && OnKey() && ValidKey(nullable, target)
      modifies `key, `end, `value, `leaf, `dispatch, `currentWord
      ensures At(GoToTarget(old(key), target))
    {
      ghost var lo := GoToTarget(key, target);
      if key.root < target.root {
        FindDispatch(target, lo);
      } else if key.dispatch < target.dispatch {
        FindLeaf(target, lo);
      } else if key.word < target.word {
        FindWord(target, lo);
      } else {
        ghost var from := if target.bit >= key.bit then target.bit else key.bit;
        FindBit(target, from, lo);
      }
    }

    /** `qps_bitmap_enumerator_dispatch_up` */
    method DispatchUp(newKey: Key, ghost lo: Key)
      requires !end && (!nullable ==> value)
      requires PageCached() && ValidKey(nullable, newKey)
      requires Carried(nullable, key, newKey)
      requires GoesOn(nullable, bitmap.roots, lo, newKey)
      requires newKey.root == key.root && newKey.dispatch == key.dispatch ==> LeafCached()
      modifies `key, `end, `value, `leaf, `dispatch, `currentWord
      ensures At(lo)
      decreases if newKey.root < key.root then 0 else ROOTS - newKey.root,
                DISPATCH - newKey.dispatch, Words(nullable) - newKey.word, 4
    {
      if key.root != newKey.root {
        if newKey.root == 0 {
          end := true;
        } else {
          FindDispatch(newKey, lo);
        }
      } else if key.dispatch != newKey.dispatch {
        FindLeaf(newKey, lo);
      } else {
        FindWord(newKey, lo);
      }
    }

    /** `qps_bitmap_enumerator_find_dispatch` */
    method FindDispatch(target: Key, ghost lo: Key)
      requires !end && (!nullable ==> value)
      requires nullable == bitmap.nullable && Shaped(nullable, bitmap.roots) && ValidKey(nullable, target)
      requires Searched(nullable, bitmap.roots, lo, target)
      modifies `key, `end, `value, `leaf, `dispatch, `currentWord
      ensures At(lo)
      decreases ROOTS - target.root, DISPATCH - target.dispatch, Words(nullable) - target.word, 3
    {
      dispatch := None;
      var i := FirstRoot(bitmap.roots, target.root);
      SkipRoots(nullable, bitmap.roots, lo, target, i);
      if i < ROOTS {
        key := Key(i, 0, 0, 0);
        dispatch := bitmap.roots[i];
        var start := if target.root != i then key else target;
        FindLeaf(start, lo);
      } else {
        end := true;
      }
    }

    /** `qps_bitmap_enumerator_find_leaf`: searches the current root only, whatever `target.root`. */
    method FindLeaf(target: Key, ghost lo: Key)
      requires !end && (!nullable ==> value)
      requires PageCached() && ValidKey(nullable, target)
      requires Searched(nullable, bitmap.roots, lo, target.(root := key.root))
      modifies `key, `end, `value, `leaf, `dispatch, `currentWord
      ensures At(lo)
      decreases ROOTS - key.root, DISPATCH - target.dispatch, Words(nullable) - target.word, 2
    {
      ghost var at := target.(root := key.root);
      leaf := None;
      var i := FirstEntry(dispatch.value, target.dispatch);
      SkipEntries(nullable, bitmap.roots, lo, at, i);
      if i < DISPATCH {
        key := Key(key.root, i, 0, 0);
        leaf := dispatch.value[i].node;
        var start := if target.dispatch != i then key else target;
        assert LeafAt(bitmap.roots, key.root, key.dispatch) == leaf;
        FindWord(start, lo);
      } else {
        var up := Key((key.root + 1) % ROOTS, 0, 0, 0);
        DispatchUp(up, lo);
      }
    }

    /** `qps_bitmap_enumerator_find_word`: searches the current leaf only. */
    method FindWord(target: Key, ghost lo: Key)
      requires !end && (!nullable ==> value)
      requires LeafCached() && ValidKey(nullable, target)
      requires Searched(nullable, bitmap.roots, lo, target.(root := key.root, dispatch := key.dispatch))
      modifies `key, `end, `value, `leaf, `dispatch, `currentWord
      ensures At(lo)
      decreases ROOTS - key.root, DISPATCH - key.dispatch, Words(nullable) - target.word, 1
    {
      ghost var at := target.(root := key.root, dispatch := key.dispatch);
      assert LeafAt(bitmap.roots, key.root, key.dispatch) == leaf;
      var i := FirstWord(leaf.value, target.word);
      SkipWords(nullable, bitmap.roots, lo, at, leaf.value, i);
      if i < Words(nullable) {
        key := key.(bit := 0, word := i);
        currentWord := leaf.value[i];
        var start := if target.word != i then key else target;
        FindBit(start, start.bit, lo);
      } else {
        var up := CarryLeaf(nullable, key);
        DispatchUp(up, lo);
      }
    }

    /** `qps_bitmap_enumerator_find_bit`: searches the current word only. */
    method FindBit(target: Key, ghost from: nat, ghost lo: Key)
      requires !end && (!nullable ==> value)
      requires LeafCached() && ValidKey(nullable, target)
      requires Tracks(nullable, leaf.value[key.word], key.bit, currentWord, from)
      requires currentWord != 0 ==> from == if target.bit >= key.bit then target.bit else key.bit
      requires Searched(nullable, bitmap.roots, lo, key.(bit := from))
      modifies `key, `end, `value, `leaf, `dispatch, `currentWord
      ensures At(lo)
      decreases ROOTS - key.root, DISPATCH - key.dispatch, Words(nullable) - key.word, 0
    {
      assert LeafAt(bitmap.roots, key.root, key.dispatch) == leaf;
      ghost var w := leaf.value[key.word];
      var found, bit, word, v := ScanWord(nullable, w, key.bit, currentWord, value, target.bit, from);
      SkipBits(nullable, bitmap.roots, lo, key.(bit := from), w, found, bit);
      key, currentWord, value := key.(bit := bit), word, v;
      if found {
        return;
      }
      var up := CarryWord(nullable, key);
      DispatchUp(up, lo);
    }
  }

  /** After the last slot of a word nothing is left in the cached word. */
  lemma LastSlotDone(nullable: bool, w: nat)
    requires w < WORD
    ensures DropSlot(nullable, From(nullable, w, Slots(nullable) - 1)) == 0
  {
    var b := Slots(nullable) - 1;
    var cw := DropSlot(nullable, From(nullable, w, b));
    WordIsPow2();
    forall i: nat ensures Bit(cw, i) == Bit(0, i) {
      BitZero(i);
      BitAndNot(From(nullable, w, b), if nullable then 3 else 1, i);
      SmallBits(i);
      BitShr(w, Sh(nullable, b), i);
      if i >= Sh(nullable, 1) { BitAbove(w, 64, Sh(nullable, b) + i); }
    }
    SameBits(cw, 0);
  }

  /** Where `go_to` starts searching from: it tests one field after the other, each on its own. */
  function GoToTarget(at: Key, row: Key): Key {
    if at.root < row.root then row
    else if at.dispatch < row.dispatch then row.(root := at.root)
    else if at.word < row.word then row.(root := at.root, dispatch := at.dispatch)
    else at.(bit := if row.bit >= at.bit then row.bit else at.bit)
  }
}
