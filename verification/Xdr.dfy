/**
 XDR buffers (src/xdr.c): big-endian words, opaque data padded to four bytes, and an error
 latch. A 32-bit sum that wraps is modelled where the length comes from the wire (Skip, ReadRaw).
 */
module Xdr {
  import opened Bytes

  /** One value of the wire format. */
  datatype Item =
    | Word(v: nat)             // uint32
    | Hyper(v: nat)            // uint64, high word first
    | Opaque(data: seq<byte>)  // length, data, zero padding to a multiple of four
    | Fixed(data: seq<byte>)   // data alone

  predicate Encodable(it: Item) {
    match it
    case Word(v) => v < U32
    case Hyper(v) => v < U32 * U32
    case Opaque(data) => |data| < U32
    case Fixed(_) => true
  }

  function Be32(v: nat): (b: seq<byte>)
    ensures |b| == 4
  {
    [v / 0x100_0000 % 256, v / 0x1_0000 % 256, v / 0x100 % 256, v % 256]
  }

  function OfBe32(b: seq<byte>): (v: nat)
    requires |b| == 4
    ensures v < U32
  {
    (b[0] as int) * 0x100_0000 + (b[1] as int) * 0x1_0000 + (b[2] as int) * 0x100 + b[3]
  }

  lemma Be32RoundTrip(v: nat)
    requires v < U32
    ensures OfBe32(Be32(v)) == v
  {
    var a := v / 0x100;
    var b := a / 0x100;
    var c := b / 0x100;
    assert v / 0x1_0000 == b;
    assert v / 0x100_0000 == c;
    assert c % 256 == c;
  }

  /** Bytes of padding after `n` bytes of opaque data. */
  function Pad(n: nat): (p: nat)
    ensures p < 4 && (n + p) % 4 == 0
  {
    (4 - n % 4) % 4
  }

  function Encode(it: Item): seq<byte> {
    match it
    case Word(v) => Be32(v)
    case Hyper(v) => Be32(v / U32) + Be32(v % U32)
    case Opaque(data) => Be32(|data|) + data + Zeros(Pad(|data|))
    case Fixed(data) => data
  }

  function EncodeAll(items: seq<Item>): seq<byte> {
    if items == [] then [] else Encode(items[0]) + EncodeAll(items[1..])
  }

  lemma {:induction false} EncodeAllAppend(a: seq<Item>, b: seq<Item>)
    ensures EncodeAll(a + b) == EncodeAll(a) + EncodeAll(b)
  {
    if a == [] {
      assert a + b == b;
    } else {
      assert (a + b)[1..] == a[1..] + b;
      EncodeAllAppend(a[1..], b);
    }
  }

  lemma SliceOfSlice(a: seq<byte>, p: nat, n: nat, i: nat, j: nat)
    requires p + n <= |a| && i <= j <= n
    ensures a[p..p + n][i..j] == a[p + i..p + j]
  {
    var x, y := a[p..p + n][i..j], a[p + i..p + j];
    assert |x| == |y| && forall k | 0 <= k < j - i :: x[k] == y[k];
  }

  lemma OpaqueParts(data: seq<byte>)
    requires |data| < U32
    ensures var e := Encode(Opaque(data));
      4 + |data| <= |e| && OfBe32(e[0..4]) == |data| && e[4..4 + |data|] == data
  {
    Be32RoundTrip(|data|);
    assert Encode(Opaque(data))[0..4] == Be32(|data|);
  }

  class Buffer {
    const base: array<byte>
    const capacity: nat
    var pos: nat
    var error: bool

    constructor (base: array<byte>, capacity: nat)
      requires capacity <= base.Length && capacity < U32
      ensures Valid() && pos == 0 && !error && this.base == base && this.capacity == capacity
    {
      this.base, this.capacity := base, capacity;
      pos, error := 0, false;
    }

    ghost predicate Valid()
      reads this
    {
      pos <= capacity <= base.Length && capacity < U32
    }

    /** Write `data` as it is, or latch the error and write nothing. */
    method WriteRaw(data: seq<byte>)
      requires Valid() && pos + |data| < U32
      modifies this, base
      ensures Valid() && base[..old(pos)] == old(base[..pos])
      ensures error == (old(error) || old(pos) + |data| > capacity)
      ensures error ==> pos == old(pos) && base[..] == old(base[..])
      ensures !error ==> pos == old(pos) + |data| && base[old(pos)..pos] == data
    {
      if error {
        return;
      }
      if pos + |data| > capacity {
        error := true;
        return;
      }
      forall i | 0 <= i < |data| {
        base[pos + i] := data[i];
      }
      pos := pos + |data|;
    }

    method WriteWord(v: nat)
      requires Valid() && pos + 4 < U32
      modifies this, base
      ensures Valid() && base[..old(pos)] == old(base[..pos])
      ensures error == (old(error) || old(pos) + 4 > capacity)
      ensures error ==> pos == old(pos) && base[..] == old(base[..])
      ensures !error ==> pos == old(pos) + 4 && base[old(pos)..pos] == Be32(v)
    {
      WriteRaw(Be32(v));
    }

    /** Two writes in a row append both pieces, or latch the error. */
    method WriteTwo(a: seq<byte>, b: seq<byte>)
      requires Valid() && pos + |a| + |b| < U32
      modifies this, base
      ensures Valid() && old(pos) <= pos && base[..old(pos)] == old(base[..pos])
      ensures error == (old(error) || old(pos) + |a| + |b| > capacity)
      ensures old(error) ==> pos == old(pos) && base[..] == old(base[..])
      ensures !error ==> pos == old(pos) + |a| + |b| && base[old(pos)..pos] == a + b
    {
      WriteRaw(a);
      ghost var mid := pos;
      ghost var front := base[..mid];
      WriteRaw(b);
      if !error {
        assert base[..mid] == front;
        assert base[old(pos)..pos] == base[..mid][old(pos)..] + base[mid..pos];
        assert front[old(pos)..] == a;
      }
      assert base[..old(pos)] == base[..mid][..old(pos)] == front[..old(pos)];
    }

    method WriteHyper(v: nat)
      requires Valid() && v < U32 * U32 && pos + 8 < U32
      modifies this, base
      ensures Valid() && old(pos) <= pos && base[..old(pos)] == old(base[..pos])
      ensures error == (old(error) || old(pos) + 8 > capacity)
      ensures old(error) ==> pos == old(pos) && base[..] == old(base[..])
      ensures !error ==> pos == old(pos) + 8 && base[old(pos)..pos] == Encode(Hyper(v))
    {
      WriteTwo(Be32(v / U32), Be32(v % U32));
    }

    method WriteOpaque(data: seq<byte>)
      requires Valid() && |data| < U32 && pos + |Encode(Opaque(data))| < U32
      modifies this, base
      ensures Valid() && old(pos) <= pos && base[..old(pos)] == old(base[..pos])
      ensures error == (old(error) || old(pos) + |Encode(Opaque(data))| > capacity)
      ensures old(error) ==> pos == old(pos) && base[..] == old(base[..])
      ensures !error ==> pos == old(pos) + |Encode(Opaque(data))| && base[old(pos)..pos] == Encode(Opaque(data))
    {
      WriteTwo(Be32(|data|), data);
      ghost var mid := pos;
      ghost var front := base[..mid];
      if Pad(|data|) > 0 {
        WriteRaw(Zeros(Pad(|data|)));
      }
      if !error {
        assert base[..mid] == front;
        assert base[old(pos)..pos] == base[..mid][old(pos)..] + base[mid..pos];
        assert front[old(pos)..] == Be32(|data|) + data;
      }
      assert base[..old(pos)] == base[..mid][..old(pos)] == front[..old(pos)];
    }

    /** Write one item. Without an error the item's encoding has been appended; an error that
        was already latched changes nothing. */
    method Write(it: Item)
      requires Valid() && Encodable(it) && pos + |Encode(it)| < U32
      modifies this, base
      ensures Valid() && old(pos) <= pos && base[..old(pos)] == old(base[..pos])
      ensures error == (old(error) || old(pos) + |Encode(it)| > capacity)
      ensures old(error) ==> pos == old(pos) && base[..] == old(base[..])
      ensures !error ==> pos == old(pos) + |Encode(it)| && base[old(pos)..pos] == Encode(it)
    {
      match it {
        case Word(v) => WriteWord(v);
        case Hyper(v) => WriteHyper(v);
        case Opaque(data) => WriteOpaque(data);
        case Fixed(data) => WriteRaw(data);
      }
    }

    /** Since position `start`, `wire` has been written, or the error latched for want of room. */
    ghost predicate Wrote(start: nat, wire: seq<byte>)
      reads this, base
    {
      && Valid() && start <= pos <= start + |wire| && error == (start + |wire| > capacity)
      && (!error ==> pos == start + |wire| && base[start..pos] == wire)
    }

    method WriteOn(it: Item, ghost start: nat, ghost wire: seq<byte>)
      requires Wrote(start, wire) && Encodable(it) && start + |wire| + |Encode(it)| < U32
      modifies this, base
      ensures Wrote(start, wire + Encode(it)) && base[..start] == old(base[..start])
    {
      ghost var mid, front := pos, base[..pos];
      Write(it);
      assert base[..mid] == front && base[..start] == front[..start];
      if !error {
        assert base[start..pos] == front[start..] + base[mid..pos];
      }
    }

    /** Write a list of items: their encoding is appended, or the error latched. */
    method WriteAll(items: seq<Item>)
      requires Valid() && !error && (forall i | 0 <= i < |items| :: Encodable(items[i]))
      requires pos + |EncodeAll(items)| < U32
      modifies this, base
      ensures Wrote(old(pos), EncodeAll(items)) && base[..old(pos)] == old(base[..pos])
    {
      for k := 0 to |items|
        invariant Wrote(old(pos), EncodeAll(items[..k])) && base[..old(pos)] == old(base[..pos])
      {
        ItemAt(items, k);
        WriteOn(items[k], old(pos), EncodeAll(items[..k]));
      }
      assert items[..|items|] == items;
    }

    /** Advance over `n` bytes, or latch the error. The bound is tested on a 32-bit sum. */
    method Skip(n: nat)
      requires Valid() && n < U32
      modifies this
      ensures Valid()
      ensures old(error) ==> error && pos == old(pos)
      ensures error && !old(error) ==> pos == old(pos)
      ensures !error && old(pos) + n < U32 ==> pos == old(pos) + n
      ensures old(pos) + n < U32 ==> error == (old(error) || old(pos) + n > capacity)
    {
      if error {
        return;
      }
      if (pos + n) % U32 > capacity {
        error := true;
        return;
      }
      pos := (pos + n) % U32;
    }

    /** The next `n` bytes, or the latched error. The bound is tested on a 32-bit sum; a sum that
        wraps is no promise about the data. */
    method ReadRaw(n: nat) returns (data: seq<byte>)
      requires Valid() && n < U32
      modifies this
      ensures Valid() && (error ==> pos == old(pos)) && (old(error) ==> error)
      ensures old(pos) + n < U32 ==> error == (old(error) || old(pos) + n > capacity)
      ensures old(pos) + n < U32 && !error ==> pos == old(pos) + n && data == base[old(pos)..pos]
    {
      data := [];
      if error {
        return;
      }
      if (pos + n) % U32 > capacity {
        error := true;
        return;
      }
      if pos + n < U32 {
        data := base[pos..pos + n];
      }
      pos := (pos + n) % U32;
    }

    method ReadWord() returns (v: nat)
      requires Valid() && pos + 4 < U32
      modifies this
      ensures Valid() && v < U32 && error == (old(error) || old(pos) + 4 > capacity)
      ensures pos == if error then old(pos) else old(pos) + 4
      ensures !error ==> v == OfBe32(base[old(pos)..pos])
      ensures error ==> v == 0
    {
      var b := ReadRaw(4);
      v := if error then 0 else OfBe32(b);
    }

    method ReadHyper() returns (v: nat)
      requires Valid() && pos + 8 < U32
      modifies this
      ensures Valid() && v < U32 * U32 && error == (old(error) || old(pos) + 8 > capacity)
      ensures !error ==> pos == old(pos) + 8
      ensures !error ==> v == OfBe32(base[old(pos)..old(pos) + 4]) * U32 + OfBe32(base[old(pos) + 4..pos])
      ensures old(error) ==> pos == old(pos)
    {
      var hi := ReadWord();
      var lo := ReadWord();
      v := hi * U32 + lo;
    }

    /** A length, the data, and the padding skipped; longer than `max` is an error. */
    method ReadOpaque(max: nat) returns (data: seq<byte>)
      requires Valid() && pos + 4 + max + 4 < U32
      modifies this
      ensures Valid() && (old(error) ==> error && pos == old(pos))
      ensures !error ==> |data| <= max && pos == old(pos) + 4 + |data| + Pad(|data|)
      ensures !error ==> |data| == OfBe32(base[old(pos)..old(pos) + 4])
      ensures !error ==> data == base[old(pos) + 4..old(pos) + 4 + |data|]
      ensures !old(error) && error && old(pos) + 4 <= capacity ==>
                var n := OfBe32(base[old(pos)..old(pos) + 4]);
                n > max || old(pos) + 4 + n + Pad(n) > capacity
    {
      data := [];
      var n := ReadWord();
      if error {
        return;
      }
      if n > max {
        error := true;
        return;
      }
      data := ReadRaw(n);
      var pad := Pad(n);
      if pad > 0 {
        Skip(pad);
      }
    }

    /** A string into a buffer of `max` bytes, its NUL included: what follows is as for opaque data, but
        a string that ends past the buffer is answered with its length, and only the latch tells. */
    method ReadString(max: nat) returns (len: int, data: seq<byte>)
      requires Valid() && pos + 4 + max + 4 < U32
      modifies this
      ensures Valid() && (old(error) ==> error && pos == old(pos) && len == -1)
      ensures old(pos) + 4 > capacity ==> error && len == -1
      ensures !old(error) && old(pos) + 4 <= capacity ==>
                var n := OfBe32(base[old(pos)..old(pos) + 4]);
                && len == (if n >= max then -1 else n)
                && error == (n >= max || old(pos) + 4 + n + Pad(n) > capacity)
                && (!error ==> data == base[old(pos) + 4..old(pos) + 4 + n] && pos == old(pos) + 4 + n + Pad(n))
    {
      data := [];
      var n := ReadWord();
      if error {
        return -1, data;
      }
      if n >= max {
        Skip((n + 3) / 4 * 4 % U32);
        error := true;
        return -1, data;
      }
      data := ReadRaw(n);
      var pad := Pad(n);
      if pad > 0 {
        Skip(pad);
      }
      len := n;
    }

    /** The encoding of `x` lies at the current position. */
    ghost predicate Here(x: Item)
      reads this, base
    {
      && Valid() && !error && Encodable(x)
      && pos + |Encode(x)| <= capacity && base[pos..pos + |Encode(x)|] == Encode(x)
    }

    lemma HyperHere(v: nat)
      requires Here(Hyper(v))
      ensures OfBe32(base[pos..pos + 4]) * U32 + OfBe32(base[pos + 4..pos + 8]) == v
    {
      Be32RoundTrip(v / U32);
      Be32RoundTrip(v % U32);
      SliceOfSlice(base[..], pos, 8, 0, 4);
      SliceOfSlice(base[..], pos, 8, 4, 8);
      assert Encode(Hyper(v))[0..4] == Be32(v / U32) && Encode(Hyper(v))[4..8] == Be32(v % U32);
    }

    lemma OpaqueHere(data: seq<byte>)
      requires Here(Opaque(data))
      ensures OfBe32(base[pos..pos + 4]) == |data| && base[pos + 4..pos + 4 + |data|] == data
    {
      var n := |Encode(Opaque(data))|;
      SliceOfSlice(base[..], pos, n, 0, 4);
      SliceOfSlice(base[..], pos, n, 4, 4 + |data|);
      OpaqueParts(data);
    }

    method ReadHyperItem(ghost x: Item) returns (it: Item)
      requires Valid() && pos + 8 < U32
      modifies this
      ensures Valid() && (old(error) ==> error && pos == old(pos))
      ensures old(Here(x)) && x.Hyper? ==> !error && it == x && pos == old(pos) + 8
    {
      if Here(x) && x.Hyper? {
        HyperHere(x.v);
      }
      var v := ReadHyper();
      it := Hyper(v);
    }

    method ReadOpaqueItem(max: nat, ghost x: Item) returns (it: Item)
      requires Valid() && pos + max + 8 < U32
      modifies this
      ensures Valid() && (old(error) ==> error && pos == old(pos))
      ensures old(Here(x)) && x.Opaque? && |x.data| <= max ==> !error && it == x && pos == old(pos) + |Encode(x)|
    {
      if Here(x) && x.Opaque? {
        OpaqueHere(x.data);
      }
      var data := ReadOpaque(max);
      it := Opaque(data);
    }

    method ReadStringItem(max: nat, ghost x: Item) returns (it: Item)
      requires Valid() && pos + max + 8 < U32
      modifies this
      ensures Valid() && (old(error) ==> error && pos == old(pos))
      ensures old(Here(x)) && x.Opaque? && |x.data| < max ==> !error && it == x && pos == old(pos) + |Encode(x)|
    {
      if Here(x) && x.Opaque? {
        OpaqueHere(x.data);
      }
      var _, data := ReadString(max);
      it := Opaque(data);
    }

    /** Read one item of the given shape. When the buffer holds the encoding of an item of that
        shape here, that is the item read. */
    method Read(shape: Shape, ghost x: Item) returns (it: Item)
      requires Valid() && pos + Reach(shape) < U32
      modifies this
      ensures Valid() && (old(error) ==> error && pos == old(pos))
      ensures old(Here(x)) && Matches(shape, x) ==> !error && it == x && pos == old(pos) + |Encode(x)|
    {
      match shape {
        case AWord =>
          if Here(x) && x.Word? {
            Be32RoundTrip(x.v);
          }
          var v := ReadWord();
          it := Word(v);
        case AHyper =>
          it := ReadHyperItem(x);
        case AnOpaque(max) =>
          it := ReadOpaqueItem(max, x);
        case AString(max) =>
          it := ReadStringItem(max, x);
        case AFixed(n) =>
          var data := ReadRaw(n);
          it := Fixed(data);
      }
    }
  }

  /** What a reader expects at a position. */
  datatype Shape = AWord | AHyper | AnOpaque(max: nat) | AString(max: nat) | AFixed(n: nat)

  predicate Matches(shape: Shape, it: Item) {
    match shape
    case AWord => it.Word?
    case AHyper => it.Hyper?
    case AnOpaque(max) => it.Opaque? && |it.data| <= max
    case AString(max) => it.Opaque? && |it.data| < max
    case AFixed(n) => it.Fixed? && |it.data| == n
  }

  /** Bytes a read of the shape may look at. */
  function Reach(shape: Shape): nat {
    match shape
    case AWord => 4
    case AHyper => 8
    case AnOpaque(max) => max + 8
    case AString(max) => max + 8
    case AFixed(n) => n
  }

  /** Where item `k` lies in the encoding of a list. */
  lemma ItemAt(items: seq<Item>, k: nat)
    requires k < |items|
    ensures
      var p := |EncodeAll(items[..k])|;
      var q := p + |Encode(items[k])|;
      && q == |EncodeAll(items[..k + 1])| <= |EncodeAll(items)|
      && EncodeAll(items)[p..q] == Encode(items[k])
      && EncodeAll(items[..k + 1]) == EncodeAll(items[..k]) + Encode(items[k])
  {
    var one, rest := [items[k]], items[k + 1..];
    assert one[1..] == [];
    assert EncodeAll(one) == Encode(items[k]) + [] == Encode(items[k]);
    assert items[..k + 1] == items[..k] + one;
    EncodeAllAppend(items[..k], one);
    assert items == items[..k + 1] + rest;
    EncodeAllAppend(items[..k + 1], rest);
  }

  /** `source` has read the first `k` items of an encoding that fills it. */
  ghost predicate Reading(source: Buffer, items: seq<Item>, k: nat)
    reads source, source.base
  {
    && source.Valid() && !source.error && k <= |items|
    && source.base[..source.capacity] == EncodeAll(items)
    && source.pos == |EncodeAll(items[..k])|
  }

  /** The next item lies at the position. */
  lemma ItemHere(source: Buffer, items: seq<Item>, k: nat)
    requires Reading(source, items, k) && k < |items| && Encodable(items[k])
    ensures source.Here(items[k])
  {
    ItemAt(items, k);
    var p, q := source.pos, source.pos + |Encode(items[k])|;
    FrontSlice(source.base[..], source.capacity, p, q);
    assert source.base[..][..source.capacity] == source.base[..source.capacity];
    assert source.base[..][p..q] == source.base[p..q];
  }

  method ReadNext(source: Buffer, shape: Shape, ghost items: seq<Item>, ghost k: nat) returns (it: Item)
    requires Reading(source, items, k) && k < |items|
    requires Encodable(items[k]) && Matches(shape, items[k]) && source.capacity + Reach(shape) < U32
    modifies source
    ensures Reading(source, items, k + 1) && it == items[k]
  {
    ItemAt(items, k);
    ItemHere(source, items, k);
    it := source.Read(shape, items[k]);
  }

  /** Matching reads over the encoding of `items` return them and consume it exactly. */
  method ReadAll(base: array<byte>, len: nat, shapes: seq<Shape>, ghost items: seq<Item>)
    returns (back: seq<Item>, read: nat)
    requires len <= base.Length && len < U32 && base[..len] == EncodeAll(items) && |shapes| == |items|
    requires forall i | 0 <= i < |items| ::
               Encodable(items[i]) && Matches(shapes[i], items[i]) && len + Reach(shapes[i]) < U32
    ensures back == items && read == len
  {
    var source := new Buffer(base, len);
    back := [];
    for k := 0 to |shapes|
      invariant Reading(source, items, k) && source.capacity == len && source.base == base && fresh(source)
      invariant back == items[..k]
    {
      var it := ReadNext(source, shapes[k], items, k);
      TakeOneMore(items, k);
      back := back + [it];
    }
    TakeAll(items);
    read := source.pos;
  }

  /** Any items that fit a buffer are read back by matching reads, ending where the writes did;
      items that do not fit latch the error. */
  method RoundTrip(items: seq<Item>, shapes: seq<Shape>, capacity: nat)
    returns (fits: bool, back: seq<Item>, wrote: nat, read: nat)
    requires |shapes| == |items| && capacity + |EncodeAll(items)| < U32
    requires forall i | 0 <= i < |items| ::
               Encodable(items[i]) && Matches(shapes[i], items[i]) && capacity + Reach(shapes[i]) < U32
    ensures fits == (|EncodeAll(items)| <= capacity)
    ensures fits ==> back == items && read == wrote == |EncodeAll(items)|
  {
    var base := new byte[capacity];
    var out := new Buffer(base, capacity);
    out.WriteAll(items);
    fits, back, wrote, read := !out.error, [], out.pos, 0;
    if fits {
      assert base[..wrote] == base[0..wrote];
      back, read := ReadAll(base, wrote, shapes, items);
    }
  }
}
