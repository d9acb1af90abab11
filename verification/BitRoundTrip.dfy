/**
 Writers against readers: what is written to a bit buffer is what a bit stream over it reads back,
 in both bit orders, from any starting offset; and copying a stream into a buffer.
 */
module BitRoundTrip {
  import opened Bits
  import opened BitMemory
  import opened BitBuffer
  import opened BitStreams

  datatype Item = Item(value: nat, width: nat)

  predicate ValidItem(x: Item) { x.value < WORD && x.width <= 64 }

  ghost predicate ValidItems(items: seq<Item>) {
    forall i | 0 <= i < |items| :: ValidItem(items[i])
  }

  /** The bits of a list of fields. */
  function Encoded(be: bool, items: seq<Item>): seq<bool> {
    if items == [] then [] else ValueBits(be, items[0].value, items[0].width) + Encoded(be, items[1..])
  }

  /** The values of fields of the given widths, if there are enough bits. */
  function Decoded(be: bool, s: seq<bool>, widths: seq<nat>): seq<nat> {
    if widths == [] || widths[0] > |s| then []
    else [BitsValue(be, s[..widths[0]])] + Decoded(be, s[widths[0]..], widths[1..])
  }

  function Widths(items: seq<Item>): (w: seq<nat>)
    ensures |w| == |items|
  {
    if items == [] then [] else [items[0].width] + Widths(items[1..])
  }

  function Truncated(items: seq<Item>): (v: seq<nat>)
    ensures |v| == |items|
  {
    if items == [] then [] else [items[0].value % Pow2(items[0].width)] + Truncated(items[1..])
  }

  /** Decoding inverts encoding, modulo the widths. */
  lemma {:induction false} DecodeEncode(be: bool, items: seq<Item>, rest: seq<bool>)
    ensures Decoded(be, Encoded(be, items) + rest, Widths(items)) == Truncated(items)
    decreases |items|
  {
    if items != [] {
      var x, more := items[0], Encoded(be, items[1..]) + rest;
      var s := Encoded(be, items) + rest;
      assert s == ValueBits(be, x.value, x.width) + more;
      assert s[..x.width] == ValueBits(be, x.value, x.width) && s[x.width..] == more;
      ValueRoundTrip(be, x.value, x.width);
      DecodeEncode(be, items[1..], rest);
    }
  }

  lemma {:induction false} EncodedAppend(be: bool, items: seq<Item>, x: Item)
    ensures Encoded(be, items + [x]) == Encoded(be, items) + ValueBits(be, x.value, x.width)
    decreases |items|
  {
    if items == [] {
      assert items + [x] == [x] && [x][1..] == [];
      assert Encoded(be, []) == [];
    } else {
      assert (items + [x])[0] == items[0] && (items + [x])[1..] == items[1..] + [x];
      EncodedAppend(be, items[1..], x);
    }
  }

  /** Write a list of fields with `bb_add_bits` or `bb_be_add_bits`. */
  method WriteAll(bb: BitBuf, be: bool, items: seq<Item>)
    requires bb.Valid(be) && ValidItems(items)
    modifies bb
    ensures bb.Valid(be) && bb.Contents(be) == old(bb.Contents(be)) + Encoded(be, items)
  {
    ghost var before := bb.Contents(be);
    for i := 0 to |items|
      invariant bb.Valid(be) && bb.Contents(be) == before + Encoded(be, items[..i])
    {
      WriteOne(bb, be, items[i]);
      assert items[..i + 1] == items[..i] + [items[i]];
      EncodedAppend(be, items[..i], items[i]);
      Assoc(before, Encoded(be, items[..i]), ValueBits(be, items[i].value, items[i].width));
    }
    assert items[..|items|] == items;
  }

  method WriteOne(bb: BitBuf, be: bool, x: Item)
    requires bb.Valid(be) && ValidItem(x)
    modifies bb
    ensures bb.Valid(be) && bb.Contents(be) == old(bb.Contents(be)) + ValueBits(be, x.value, x.width)
  {
    if be {
      bb.BeAddBits(x.value, x.width);
    } else {
      bb.AddBits(x.value, x.width);
    }
  }

  /** The bit by bit form of the same write, with `bb_add_bit` or `bb_be_add_bit`. */
  method WriteBitByBit(bb: BitBuf, be: bool, x: Item)
    requires bb.Valid(be) && ValidItem(x)
    modifies bb
    ensures bb.Valid(be) && bb.Contents(be) == old(bb.Contents(be)) + ValueBits(be, x.value, x.width)
  {
    ghost var before, bits := bb.Contents(be), ValueBits(be, x.value, x.width);
    for i := 0 to x.width
      invariant bb.Valid(be) && bb.Contents(be) == before + bits[..i]
    {
      if be {
        bb.BeAddBit(Bit(x.value, x.width - 1 - i));
      } else {
        bb.AddBit(Bit(x.value, i));
      }
      NextBit(before, bits, i);
    }
    assert bits[..x.width] == bits;
  }

  lemma NextBit(before: seq<bool>, bits: seq<bool>, i: nat)
    requires i < |bits|
    ensures (before + bits[..i]) + [bits[i]] == before + bits[..i + 1]
  {
  }

  /** Read fields with `bs_get_bits` or `bs_be_get_bits` as long as there are bits for them. */
  method ReadAll(bs: BitStream, be: bool, widths: seq<nat>) returns (values: seq<nat>)
    requires bs.Valid() && forall i | 0 <= i < |widths| :: widths[i] <= 64
    modifies bs
    ensures bs.Valid()
    ensures values == Decoded(be, old(bs.Bits(be)), widths)
  {
    values := [];
    ghost var all := bs.Bits(be);
    var i := 0;
    while i < |widths|
      invariant 0 <= i <= |widths| && bs.Valid()
      invariant values + Decoded(be, bs.Bits(be), widths[i..]) == Decoded(be, all, widths)
    {
      DecodedHead(be, bs.Bits(be), widths, i);
      var r, v := ReadOne(bs, be, widths[i]);
      if r < 0 {
        return;
      }
      DecodedStep(values, v, Decoded(be, bs.Bits(be), widths[i + 1..]));
      values, i := values + [v], i + 1;
    }
    assert widths[|widths|..] == [];
  }

  lemma DecodedHead(be: bool, s: seq<bool>, widths: seq<nat>, i: nat)
    requires i < |widths|
    ensures Decoded(be, s, widths[i..]) ==
            if widths[i] > |s| then []
            else [BitsValue(be, s[..widths[i]])] + Decoded(be, s[widths[i]..], widths[i + 1..])
  {
    assert widths[i..][0] == widths[i] && widths[i..][1..] == widths[i + 1..];
  }

  lemma DecodedStep(values: seq<nat>, v: nat, rest: seq<nat>)
    ensures values + ([v] + rest) == (values + [v]) + rest
  {
  }

  method ReadOne(bs: BitStream, be: bool, width: nat) returns (r: int, v: nat)
    requires bs.Valid() && width <= 64
    modifies bs
    ensures bs.Valid()
    ensures r == if width <= |old(bs.Bits(be))| then width else -1
    ensures r >= 0 ==> v == BitsValue(be, old(bs.Bits(be))[..width]) && bs.Bits(be) == old(bs.Bits(be))[width..]
  {
    if be {
      r, v := bs.BeGetBits(width);
    } else {
      r, v := bs.GetBits(width);
    }
  }

  /** Any list of fields written to any buffer is read back from where it was written. */
  method RoundTrip(bb: BitBuf, be: bool, items: seq<Item>) returns (values: seq<nat>)
    requires bb.Valid(be) && ValidItems(items)
    modifies bb
    ensures bb.Valid(be)
    ensures values == Truncated(items)
  {
    var from := bb.len;
    ghost var before := bb.Contents(be);
    WriteAll(bb, be, items);
    var bs := InitBb(bb);
    var r := bs.Skip(from);
    assert bs.Bits(be) == Encoded(be, items) + [] by { AfterPrefix(before, Encoded(be, items)); }
    WidthsSmall(items);
    values := ReadAll(bs, be, Widths(items));
    DecodeEncode(be, items, []);
  }

  lemma AfterPrefix(a: seq<bool>, b: seq<bool>)
    ensures (a + b)[|a|..] == b + []
  {
  }

  lemma {:induction false} WidthsSmall(items: seq<Item>)
    requires ValidItems(items)
    ensures forall i | 0 <= i < |items| :: Widths(items)[i] <= 64
    decreases |items|
  {
    if items != [] { WidthsSmall(items[1..]); }
  }

  /** `bb_add_bs` and `bb_be_add_bs`: bits up to a byte boundary, whole bytes, the bits left over. */
  method AddBs(bb: BitBuf, be: bool, b: BitStream)
    requires bb.Valid(be) && b.Valid()
    modifies bb
    ensures bb.Valid(be) && bb.Contents(be) == old(bb.Contents(be)) + b.Bits(be)
  {
    ghost var before, all := bb.Contents(be), b.Bits(be);
    var bs := new BitStream.Between(b.mem, b.s, b.e);
    CopyBits(bb, be, bs, true);
    ghost var mid := bs.Bits(be);
    assert bb.Contents(be) + mid == before + all;
    if !bs.Done() {
      var unaligned := (8 - (8 * bs.s.p + bs.s.offset / 8) % 8) % 8;
      var n := bs.Len() / 8;
      ghost var was := bb.Contents(be);
      var bytes := bs.GetBytes(n);
      if be {
        bb.BeAddBytes(bytes);
      } else {
        bb.AddBytes(bytes, unaligned);
      }
      Assoc(was, BytesBits(be, bytes), bs.Bits(be));
    }
    CopyBits(bb, be, bs, false);
    assert bs.Bits(be) == [];
    assert bb.Contents(be) == bb.Contents(be) + bs.Bits(be);
  }

  /** Copy bit by bit, up to a byte boundary or to the end. */
  method CopyBits(bb: BitBuf, be: bool, bs: BitStream, untilAligned: bool)
    requires bb.Valid(be) && bs.Valid()
    modifies bb, bs
    ensures bb.Valid(be) && bs.Valid()
    ensures bs.Done() || (untilAligned && bs.s.offset % 8 == 0)
    ensures bb.Contents(be) + bs.Bits(be) == old(bb.Contents(be)) + old(bs.Bits(be))
  {
    ghost var total := bb.Contents(be) + bs.Bits(be);
    while !bs.Done() && !(untilAligned && bs.s.offset % 8 == 0)
      invariant bb.Valid(be) && bs.Valid()
      invariant bb.Contents(be) + bs.Bits(be) == total
      decreases bs.Len()
    {
      ghost var was, rest := bb.Contents(be), bs.Bits(be);
      var bit := bs.GetBit(be);
      if be {
        bb.BeAddBit(bit == 1);
      } else {
        bb.AddBit(bit == 1);
      }
      MoveBit(was, rest);
    }
  }

  lemma MoveBit(a: seq<bool>, b: seq<bool>)
    requires |b| > 0
    ensures (a + [b[0]]) + b[1..] == a + b
  {
  }
}
