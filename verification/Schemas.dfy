/** How many bytes of a buffer an encoded value takes, given its schema. */
module Schemas {
  import opened Hashing

  datatype Kind =
    | Bool | Int8 | Uint8 | Int16 | Uint16 | Int32 | Uint32 | Float32 | Int64 | Uint64 | Float64
    | String | Slice | Array | Struct | Ptr | Interface | Unsupported

  datatype ReferenceType = NoReference | Single | Many | Dynamic

  datatype Schema =
    | Plain(kind: Kind)
    | Reference(kind: Kind, typ: ReferenceType)
    | SliceOf(elem: Schema)
    | ArrayOf(elem: Schema, length: nat)
    | StructOf(fields: seq<Schema>)

  function KindOf(s: Schema): Kind {
    match s
    case Plain(kind) => kind
    case Reference(kind, _) => kind
    case SliceOf(_) => Slice
    case ArrayOf(_, _) => Array
    case StructOf(_) => Struct
  }

  datatype Error = InvalidSchemaOrData | BufferUnderflow | InvalidReferenceType

  datatype Size = Takes(n: nat) | Fails(error: Error)

  const HASH_SIZE: nat := 32

  // ---------------------------------------------------------- what is encoded

  /** A value: its bytes, the bytes of a string, the elements of a slice or an array, the fields of a struct. */
  datatype Value = Raw(bytes: Bytes) | Text(bytes: Bytes) | List(items: seq<Value>)

  const WIDTH: nat := 0x1_0000_0000

  /** The number of bytes of a kind that always takes as many; -1 for other kinds. */
  function FixedSize(kind: Kind): int {
    match kind
    case Bool => 1 case Int8 => 1 case Uint8 => 1
    case Int16 => 2 case Uint16 => 2
    case Int32 => 4 case Uint32 => 4 case Float32 => 4
    case Int64 => 8 case Uint64 => 8 case Float64 => 8
    case _ => -1
  }

  function ReferenceSize(typ: ReferenceType): int {
    match typ
    case Single => HASH_SIZE
    case Many => HASH_SIZE
    case Dynamic => HASH_SIZE + HASH_SIZE
    case NoReference => -1
  }

  /** The width of the numbers of a kind, in bits; a bool takes a byte. */
  function Bits(kind: Kind): nat {
    if kind in {Bool, Int8, Uint8} then 8
    else if kind in {Int16, Uint16} then 16
    else if kind in {Int32, Uint32, Float32} then 32
    else if kind in {Int64, Uint64, Float64} then 64
    else 0
  }

  /** The hashes a reference is made of: that of an object, of a Refs, or of an object and of its schema. */
  function Hashes(typ: ReferenceType): nat {
    match typ
    case NoReference => 0
    case Single => 1
    case Many => 1
    case Dynamic => 2
  }

  ghost predicate Typed(s: Schema, v: Value)
    decreases s
  {
    match s
    case Plain(String) => v.Text? && |v.bytes| < WIDTH
    case Plain(kind) => v.Raw? && Bits(kind) > 0 && 8 * |v.bytes| == Bits(kind)
    case Reference(_, typ) => v.Raw? && Hashes(typ) > 0 && 8 * |v.bytes| == 256 * Hashes(typ)
    case SliceOf(elem) => v.List? && |v.items| < WIDTH && forall i | 0 <= i < |v.items| :: Typed(elem, v.items[i])
    case ArrayOf(elem, length) => v.List? && |v.items| == length && forall i | 0 <= i < |v.items| ::
            Typed(elem, v.items[i])
    case StructOf(fields) => v.List? && |v.items| == |fields| && forall i | 0 <= i < |fields| ::
            Typed(fields[i], v.items[i])
  }

  /** A 32-bit number, least significant byte first. */
  function Prefix(n: nat): Bytes
    requires n < WIDTH
  {
    [(n % 256) as Byte, (n / 256 % 256) as Byte, (n / 256 / 256 % 256) as Byte, (n / 256 / 256 / 256) as Byte]
  }

  function Number(p: Bytes): (n: nat)
    requires |p| >= 4
    ensures n < WIDTH
  {
    p[0] as nat + 256 * (p[1] as nat + 256 * (p[2] as nat + 256 * (p[3] as nat)))
  }

  lemma NumberIs(n: nat, p: Bytes)
    requires n < WIDTH && |p| >= 4 && p[..4] == Prefix(n)
    ensures Number(p) == n
  {
    assert p[0] == p[..4][0] && p[1] == p[..4][1] && p[2] == p[..4][2] && p[3] == p[..4][3];
  }

  lemma PrefixIs(p: Bytes)
    requires |p| >= 4
    ensures Prefix(Number(p)) == p[..4]
  {
    var a, b, c, d := p[0] as nat, p[1] as nat, p[2] as nat, p[3] as nat;
    var n := Number(p);
    assert n % 256 == a && n / 256 == b + 256 * (c + 256 * d);
    assert n / 256 % 256 == b && n / 256 / 256 == c + 256 * d;
    assert n / 256 / 256 % 256 == c && n / 256 / 256 / 256 == d;
  }

  function Encode(s: Schema, v: Value): Bytes
    requires Typed(s, v)
    decreases s, 0
  {
    match s
    case Plain(String) => Prefix(|v.bytes|) + v.bytes
    case Plain(kind) => v.bytes
    case Reference(_, _) => v.bytes
    case SliceOf(elem) => Prefix(|v.items|) + EncodeItems(elem, v.items)
    case ArrayOf(elem, _) => EncodeItems(elem, v.items)
    case StructOf(fields) => EncodeFields(fields, v.items)
  }

  function EncodeItems(elem: Schema, vs: seq<Value>): Bytes
    requires forall i | 0 <= i < |vs| :: Typed(elem, vs[i])
    decreases elem, 1, |vs|
  {
    if vs == [] then [] else Encode(elem, vs[0]) + EncodeItems(elem, vs[1..])
  }

  function EncodeFields(fields: seq<Schema>, vs: seq<Value>): Bytes
    requires |vs| == |fields| && forall i | 0 <= i < |fields| :: Typed(fields[i], vs[i])
    decreases fields, 1
  {
    if fields == [] then [] else Encode(fields[0], vs[0]) + EncodeFields(fields[1..], vs[1..])
  }

  // ------------------------------------------------------------------- size

  /** What Size answers; the methods below compute it. */
  function SizeOf(s: Schema, p: Bytes): Size
    decreases s, 0
  {
    match s
    case Plain(String) => if |p| < 4 then Fails(BufferUnderflow) else Within(Takes(Number(p) + 4), p)
    case Plain(kind) => if FixedSize(kind) < 0 then Fails(InvalidSchemaOrData) else Within(Takes(FixedSize(kind)), p)
    case Reference(_, typ) => if ReferenceSize(typ) < 0 then Fails(InvalidReferenceType)
            else Within(Takes(ReferenceSize(typ)), p)
    case SliceOf(elem) => if |p| < 4 then Fails(BufferUnderflow) else Within(ItemsSize(elem, Number(p), 4, p), p)
    case ArrayOf(elem, length) => Within(ItemsSize(elem, length, 0, p), p)
    case StructOf(fields) => Within(FieldsSize(fields, 0, p), p)
  }

  /** The size, if there are as many bytes. */
  function Within(z: Size, p: Bytes): Size {
    if z.Takes? && z.n > |p| then Fails(InvalidSchemaOrData) else z
  }

  /** The end of `l` elements that start at `n`; elements of a fixed size are not looked at. */
  function ItemsSize(elem: Schema, l: nat, n: nat, p: Bytes): Size
    decreases elem, 2, l
  {
    if FixedSize(KindOf(elem)) > 0 then Takes(n + l * FixedSize(KindOf(elem))) else EachSize(elem, l, n, p)
  }

  function EachSize(elem: Schema, l: nat, n: nat, p: Bytes): Size
    decreases elem, 1, l
  {
    if l == 0 then Takes(n)
    else if n > |p| then Fails(InvalidSchemaOrData)
    else
      match SizeOf(elem, p[n..])
      case Takes(m) => EachSize(elem, l - 1, n + m, p)
      case Fails(e) => Fails(e)
  }

  /** The end of the fields that start at `n`. */
  function FieldsSize(fields: seq<Schema>, n: nat, p: Bytes): Size
    decreases fields, 1
  {
    if fields == [] then Takes(n)
    else if n > |p| then Fails(InvalidSchemaOrData)
    else
      match SizeOf(fields[0], p[n..])
      case Takes(m) => FieldsSize(fields[1..], n + m, p)
      case Fails(e) => Fails(e)
  }

  method GetLength(p: Bytes) returns (l: nat, err: bool)
    ensures err <==> |p| < 4
    ensures !err ==> l == Number(p)
    ensures !err ==> l == p[0] as nat + p[1] as nat * 0x100 + p[2] as nat * 0x1_0000 + p[3] as nat * 0x100_0000
  {
    if |p| < 4 {
      return 0, true;
    }
    return Number(p), false;
  }

  method SchemaArraySliceSize(el: Schema, l: nat, shift: nat, p: Bytes) returns (z: Size)
    ensures z == ItemsSize(el, l, shift, p)
    decreases el, 1
  {
    var n: nat := shift;
    var s := FixedSize(KindOf(el));
    if s > 0 {
      n := n + l * s;
    } else {
      for i := 0 to l
        invariant EachSize(el, l - i, n, p) == EachSize(el, l, shift, p)
      {
        if n > |p| {
          return Fails(InvalidSchemaOrData);
        }
        var m := GetSize(el, p[n..]);
        if m.Fails? {
          return m;
        }
        n := n + m.n;
      }
    }
    return Takes(n);
  }

  method GetSize(s: Schema, p: Bytes) returns (z: Size)
    ensures z == SizeOf(s, p)
    decreases s, 0
  {
    match s
    case Plain(kind) =>
      var n;
      if kind == String {
        var l, err := GetLength(p);
        if err {
          return Fails(BufferUnderflow);
        }
        n := l + 4;
      } else {
        match kind
        case Bool => n := 1;
        case Int8 => n := 1;
        case Uint8 => n := 1;
        case Int16 => n := 2;
        case Uint16 => n := 2;
        case Int32 => n := 4;
        case Uint32 => n := 4;
        case Float32 => n := 4;
        case Int64 => n := 8;
        case Uint64 => n := 8;
        case Float64 => n := 8;
        case _ => return Fails(InvalidSchemaOrData);
      }
      if n > |p| {
        return Fails(InvalidSchemaOrData);
      }
      return Takes(n);
    case Reference(_, typ) =>
      if ReferenceSize(typ) < 0 {
        return Fails(InvalidReferenceType);
      }
      if ReferenceSize(typ) > |p| {
        return Fails(InvalidSchemaOrData);
      }
      return Takes(ReferenceSize(typ));
    case SliceOf(elem) =>
      var l, err := GetLength(p);
      if err {
        return Fails(BufferUnderflow);
      }
      z := SchemaArraySliceSize(elem, l, 4, p);
      if z.Takes? && z.n > |p| {
        return Fails(InvalidSchemaOrData);
      }
    case ArrayOf(elem, length) =>
      z := SchemaArraySliceSize(elem, length, 0, p);
      if z.Takes? && z.n > |p| {
        return Fails(InvalidSchemaOrData);
      }
    case StructOf(fields) =>
      z := StructSize(fields, p);
  }

  method StructSize(fields: seq<Schema>, p: Bytes) returns (z: Size)
    ensures z == SizeOf(StructOf(fields), p)
    decreases fields, 1
  {
    var n: nat := 0;
    for i := 0 to |fields|
      invariant FieldsSize(fields[i..], n, p) == FieldsSize(fields, 0, p)
    {
      if n > |p| {
        return Fails(InvalidSchemaOrData);
      }
      assert fields[i..][0] == fields[i] && fields[i..][1..] == fields[i + 1..];
      var m := GetSize(fields[i], p[n..]);
      if m.Fails? {
        return m;
      }
      n := n + m.n;
    }
    if n > |p| {
      return Fails(InvalidSchemaOrData);
    }
    return Takes(n);
  }

  /** The sizes of plain values and references, in bits, and the errors when there is not as much. */
  lemma SizesAre(s: Schema, p: Bytes)
    ensures s.Plain? && s.kind != String ==>
              SizeOf(s, p) ==
              if Bits(s.kind) > 0 && 8 * |p| >= Bits(s.kind) then Takes(Bits(s.kind) / 8)
              else Fails(InvalidSchemaOrData)
    ensures s == Plain(String) ==>
              SizeOf(s, p) ==
              if |p| < 4 then Fails(BufferUnderflow)
              else if |p| - 4 < Number(p) then Fails(InvalidSchemaOrData)
              else Takes(4 + Number(p))
    ensures s.Reference? ==>
              SizeOf(s, p) ==
              if Hashes(s.typ) == 0 then Fails(InvalidReferenceType)
              else if 8 * |p| < 256 * Hashes(s.typ) then Fails(InvalidSchemaOrData)
              else Takes(32 * Hashes(s.typ))
    ensures s.SliceOf? && |p| < 4 ==> SizeOf(s, p) == Fails(BufferUnderflow)
  {
  }

  // ------------------------------------------------------------------- exact

  /** A reference that passes for a number, which decoding a schema does not rule out. */
  predicate Pretends(elem: Schema) {
    elem.Reference? && Bits(elem.kind) > 0
  }

  /** Some value has this schema. */
  predicate Inhabited(s: Schema)
    decreases s
  {
    match s
    case Plain(kind) => kind == String || Bits(kind) > 0
    case Reference(_, typ) => typ != NoReference
    case SliceOf(_) => true
    case ArrayOf(elem, length) => length == 0 || Inhabited(elem)
    case StructOf(fields) => forall i | 0 <= i < |fields| :: Inhabited(fields[i])
  }

  /** No element that there can be is a reference that passes for a number. */
  predicate Honest(s: Schema)
    decreases s
  {
    match s
    case Plain(_) => true
    case Reference(_, _) => true
    case SliceOf(elem) => !Inhabited(elem) || (!Pretends(elem) && Honest(elem))
    case ArrayOf(elem, length) => length == 0 || !Inhabited(elem) || (!Pretends(elem) && Honest(elem))
    case StructOf(fields) => !Inhabited(s) || forall i | 0 <= i < |fields| :: Honest(fields[i])
  }

  lemma {:induction false} TypedInhabited(s: Schema, v: Value)
    requires Typed(s, v)
    ensures Inhabited(s)
    decreases s
  {
    match s
    case Plain(_) =>
    case Reference(_, _) =>
    case SliceOf(_) =>
    case ArrayOf(elem, length) =>
      if length > 0 {
        TypedInhabited(elem, v.items[0]);
      }
    case StructOf(fields) =>
      forall i | 0 <= i < |fields|
        ensures Inhabited(fields[i])
      {
        TypedInhabited(fields[i], v.items[i]);
      }
  }

  lemma {:induction false} FixedItems(elem: Schema, vs: seq<Value>)
    requires !Pretends(elem) && FixedSize(KindOf(elem)) > 0 && forall i | 0 <= i < |vs| :: Typed(elem, vs[i])
    ensures |EncodeItems(elem, vs)| == |vs| * FixedSize(KindOf(elem))
    decreases |vs|
  {
    if vs != [] {
      FixedItems(elem, vs[1..]);
      assert |Encode(elem, vs[0])| == FixedSize(KindOf(elem));
    }
  }

  /** Size finds the end of an encoded value, whatever comes after it. */
  lemma {:induction false} Exact(s: Schema, v: Value, tail: Bytes)
    requires Honest(s) && Typed(s, v)
    ensures SizeOf(s, Encode(s, v) + tail) == Takes(|Encode(s, v)|)
    decreases s, 0
  {
    var p := Encode(s, v) + tail;
    TypedInhabited(s, v);
    match s
    case Plain(String) =>
      assert p[..4] == Prefix(|v.bytes|);
      NumberIs(|v.bytes|, p);
    case Plain(_) =>
    case Reference(_, _) =>
    case SliceOf(elem) =>
      var head := Prefix(|v.items|);
      assert p[..4] == head;
      NumberIs(|v.items|, p);
      assert p == head + EncodeItems(elem, v.items) + tail;
      ExactItems(elem, v.items, head, tail);
    case ArrayOf(elem, length) =>
      assert p == [] + EncodeItems(elem, v.items) + tail;
      ExactItems(elem, v.items, [], tail);
    case StructOf(fields) =>
      assert p == [] + EncodeFields(fields, v.items) + tail;
      ExactFields(fields, v.items, [], tail);
  }

  lemma {:induction false} ExactItems(elem: Schema, vs: seq<Value>, head: Bytes, tail: Bytes)
    requires vs != [] && Inhabited(elem) ==> !Pretends(elem) && Honest(elem)
    requires forall i | 0 <= i < |vs| :: Typed(elem, vs[i])
    ensures ItemsSize(elem, |vs|, |head|, head + EncodeItems(elem, vs) + tail) ==
            Takes(|head| + |EncodeItems(elem, vs)|)
    decreases elem, 2, |vs|
  {
    if vs != [] {
      TypedInhabited(elem, vs[0]);
    }
    if FixedSize(KindOf(elem)) > 0 {
      if vs != [] {
        FixedItems(elem, vs);
      }
    } else {
      ExactEach(elem, vs, head, tail);
    }
  }

  lemma AfterHead(head: Bytes, first: Bytes, rest: Bytes, tail: Bytes)
    ensures var p := head + (first + rest) + tail;
            p[|head|..] == first + (rest + tail) && p == (head + first) + rest + tail
  {
  }

  lemma {:induction false} ExactEach(elem: Schema, vs: seq<Value>, head: Bytes, tail: Bytes)
    requires (vs != [] ==> Honest(elem)) && forall i | 0 <= i < |vs| :: Typed(elem, vs[i])
    ensures EachSize(elem, |vs|, |head|, head + EncodeItems(elem, vs) + tail) == Takes(|head| + |EncodeItems(elem, vs)|)
    decreases elem, 1, |vs|
  {
    hide SizeOf, Encode;
    if vs != [] {
      var first, rest := Encode(elem, vs[0]), EncodeItems(elem, vs[1..]);
      var p := head + EncodeItems(elem, vs) + tail;
      assert EncodeItems(elem, vs) == first + rest;
      AfterHead(head, first, rest, tail);
      Exact(elem, vs[0], rest + tail);
      ExactEach(elem, vs[1..], head + first, tail);
    }
  }

  lemma {:induction false} ExactFields(fields: seq<Schema>, vs: seq<Value>, head: Bytes, tail: Bytes)
    requires |vs| == |fields| && forall i | 0 <= i < |fields| :: Honest(fields[i]) && Typed(fields[i], vs[i])
    ensures FieldsSize(fields, |head|, head + EncodeFields(fields, vs) + tail) ==
            Takes(|head| + |EncodeFields(fields, vs)|)
    decreases fields, 1
  {
    if fields != [] {
      var first, rest := Encode(fields[0], vs[0]), EncodeFields(fields[1..], vs[1..]);
      var p := head + EncodeFields(fields, vs) + tail;
      assert EncodeFields(fields, vs) == first + rest;
      AfterHead(head, first, rest, tail);
      Exact(fields[0], vs[0], rest + tail);
      ExactFields(fields[1..], vs[1..], head + first, tail);
    }
  }

  // ------------------------------------------------------------- and not else

  function Zeros(n: nat): (z: Bytes)
    ensures |z| == n && forall i | 0 <= i < n :: z[i] == 0
  {
    seq(n, _ => 0)
  }

  predicate AllZero(p: Bytes) {
    forall i | 0 <= i < |p| :: p[i] == 0
  }

  lemma ZerosAre(p: Bytes)
    requires AllZero(p)
    ensures p == Zeros(|p|)
  {
  }

  function Copies(n: nat, v: Value): (vs: seq<Value>)
    ensures |vs| == n && forall i | 0 <= i < n :: vs[i] == v
  {
    seq(n, _ => v)
  }

  /** The value of which all bytes are zero. */
  function Zero(s: Schema): Value
    requires Inhabited(s)
    decreases s, 0
  {
    match s
    case Plain(kind) => if kind == String then Text([]) else Raw(Zeros(FixedSize(kind)))
    case Reference(_, typ) => Raw(Zeros(ReferenceSize(typ)))
    case SliceOf(_) => List([])
    case ArrayOf(elem, length) => if length == 0 then List([]) else List(Copies(length, Zero(elem)))
    case StructOf(fields) => List(ZeroFields(fields))
  }

  function ZeroFields(fields: seq<Schema>): (vs: seq<Value>)
    requires forall i | 0 <= i < |fields| :: Inhabited(fields[i])
    ensures |vs| == |fields| && forall i | 0 <= i < |fields| :: vs[i] == Zero(fields[i])
    decreases fields, 1
  {
    if fields == [] then [] else [Zero(fields[0])] + ZeroFields(fields[1..])
  }

  /** What Size makes of zeros. */
  function ZeroSize(s: Schema): nat
    requires Inhabited(s)
    decreases s, 0
  {
    match s
    case Plain(kind) => if kind == String then 4 else FixedSize(kind)
    case Reference(_, typ) => ReferenceSize(typ)
    case SliceOf(_) => 4
    case ArrayOf(elem, length) =>
      if length == 0 then 0
      else if FixedSize(KindOf(elem)) > 0 then length * FixedSize(KindOf(elem))
      else length * ZeroSize(elem)
    case StructOf(fields) => ZeroFieldsSize(fields)
  }

  function ZeroFieldsSize(fields: seq<Schema>): nat
    requires forall i | 0 <= i < |fields| :: Inhabited(fields[i])
    decreases fields, 1
  {
    if fields == [] then 0 else ZeroSize(fields[0]) + ZeroFieldsSize(fields[1..])
  }

  lemma ZeroArrayTyped(elem: Schema, length: nat)
    requires Inhabited(elem) && length > 0
    requires Typed(elem, Zero(elem)) && AllZero(Encode(elem, Zero(elem)))
      && ZeroSize(elem) <= |Encode(elem, Zero(elem))|
    ensures var s := ArrayOf(elem, length);
            Typed(s, Zero(s)) && AllZero(Encode(s, Zero(s))) && ZeroSize(s) <= |Encode(s, Zero(s))|
  {
    CopiesEncode(elem, length);
    var k, z := |Encode(elem, Zero(elem))|, ZeroSize(elem);
    TimesMore(length, z, k);
    if FixedSize(KindOf(elem)) > 0 {
      TimesMore(length, FixedSize(KindOf(elem)), k);
    }
  }

  lemma {:induction false} ZeroTyped(s: Schema)
    requires Inhabited(s)
    ensures Typed(s, Zero(s)) && AllZero(Encode(s, Zero(s))) && ZeroSize(s) <= |Encode(s, Zero(s))|
    decreases s, 0
  {
    match s
    case Plain(_) =>
    case Reference(_, _) =>
    case SliceOf(_) =>
    case ArrayOf(elem, length) =>
      if length > 0 {
        ZeroTyped(elem);
        ZeroArrayTyped(elem, length);
      }
    case StructOf(fields) => ZeroFieldsTyped(fields);
  }

  lemma TimesMore(n: nat, a: nat, b: nat)
    requires a <= b
    ensures n * a <= n * b
  {
  }

  lemma {:induction false} ZeroFieldsTyped(fields: seq<Schema>)
    requires forall i | 0 <= i < |fields| :: Inhabited(fields[i])
    ensures forall i | 0 <= i < |fields| :: Typed(fields[i], ZeroFields(fields)[i])
    ensures AllZero(EncodeFields(fields, ZeroFields(fields)))
      && ZeroFieldsSize(fields) <= |EncodeFields(fields, ZeroFields(fields))|
    decreases fields, 1
  {
    if fields != [] {
      ZeroTyped(fields[0]);
      ZeroFieldsTyped(fields[1..]);
      assert ZeroFields(fields)[1..] == ZeroFields(fields[1..]);
    }
  }

  lemma {:induction false} CopiesEncode(elem: Schema, n: nat)
    requires Inhabited(elem) && Typed(elem, Zero(elem)) && AllZero(Encode(elem, Zero(elem)))
    ensures AllZero(EncodeItems(elem, Copies(n, Zero(elem))))
      && |EncodeItems(elem, Copies(n, Zero(elem)))| == n * |Encode(elem, Zero(elem))|
    decreases n
  {
    hide Zero, Encode, Typed;
    if n > 0 {
      var k := |Encode(elem, Zero(elem))|;
      CopiesEncode(elem, n - 1);
      assert Copies(n, Zero(elem))[1..] == Copies(n - 1, Zero(elem));
      assert n * k == k + (n - 1) * k;
    }
  }

  /** Zeros are taken for the value of zeros. */
  lemma {:induction false} SizeOfZeros(s: Schema, p: Bytes)
    requires Inhabited(s) && AllZero(p) && |p| >= ZeroSize(s)
    ensures SizeOf(s, p) == Takes(ZeroSize(s))
    decreases s, 0
  {
    match s
    case Plain(_) =>
    case Reference(_, _) =>
    case SliceOf(elem) =>
      assert Number(p) == 0;
      assert ItemsSize(elem, 0, 4, p) == Takes(4);
    case ArrayOf(elem, length) =>
      if length == 0 {
        assert ItemsSize(elem, 0, 0, p) == Takes(0);
      } else if FixedSize(KindOf(elem)) < 0 {
        assert p[0..] == p;
        EachOfZeros(elem, length, 0, p);
      }
    case StructOf(fields) => FieldsOfZeros(fields, 0, p);
  }

  lemma {:induction false} EachOfZeros(elem: Schema, l: nat, n: nat, p: Bytes)
    requires Inhabited(elem) && n <= |p| && AllZero(p[n..]) && |p| >= n + l * ZeroSize(elem)
    ensures EachSize(elem, l, n, p) == Takes(n + l * ZeroSize(elem))
    decreases elem, 1, l
  {
    hide SizeOf, ZeroSize;
    if l > 0 {
      var z := ZeroSize(elem);
      assert l * z == z + (l - 1) * z;
      TimesMore(l - 1, 0, z);
      SizeOfZeros(elem, p[n..]);
      assert p[n + z..] == p[n..][z..];
      EachOfZeros(elem, l - 1, n + z, p);
    }
  }

  lemma {:induction false} FieldsOfZeros(fields: seq<Schema>, n: nat, p: Bytes)
    requires (forall i | 0 <= i < |fields| :: Inhabited(fields[i])) && n <= |p| && AllZero(p[n..])
      && |p| >= n + ZeroFieldsSize(fields)
    ensures FieldsSize(fields, n, p) == Takes(n + ZeroFieldsSize(fields))
    decreases fields, 1
  {
    if fields != [] {
      var z := ZeroSize(fields[0]);
      SizeOfZeros(fields[0], p[n..]);
      assert p[n + z..] == p[n..][z..];
      FieldsOfZeros(fields[1..], n + z, p);
    }
  }

  /** An encoded value of which Size sees too little, what is left being zeros. */
  ghost predicate Short(s: Schema, v: Value, m: nat) {
    Typed(s, v) && m < |Encode(s, v)| && AllZero(Encode(s, v)[m..])
    && forall k: nat :: SizeOf(s, Encode(s, v) + Zeros(k)) == Takes(m)
  }

  lemma ZeroTail(a: Bytes, b: Bytes, k: nat, m: nat)
    requires m <= |a| && AllZero(a[m..]) && AllZero(b)
    ensures (a + b) + Zeros(k) == a + Zeros(|b| + k)
    ensures AllZero((a + b)[m..])
  {
    ZerosAre(b);
  }

  /** A slice of one reference that passes for a number. */
  lemma WitnessPretended(elem: Schema) returns (v: Value, m: nat)
    requires Pretends(elem) && Inhabited(elem)
    ensures Short(SliceOf(elem), v, m)
  {
    var z, a := Zero(elem), FixedSize(elem.kind);
    v, m := List([z]), 4 + a;
    ZeroTyped(elem);
    OneItem(elem, z);
    var e := Encode(SliceOf(elem), v);
    assert e == Prefix(1) + Encode(elem, z);
    forall k: nat
      ensures SizeOf(SliceOf(elem), e + Zeros(k)) == Takes(m)
    {
      var p := e + Zeros(k);
      assert p[..4] == Prefix(1);
      NumberIs(1, p);
    }
  }

  lemma OneItem(elem: Schema, v: Value)
    requires Typed(elem, v)
    ensures EncodeItems(elem, [v]) == Encode(elem, v)
  {
    assert [v][1..] == [];
  }

  /** A slice of one element of which Size sees too little. */
  lemma WitnessSlice(elem: Schema, w: Value, n: nat) returns (v: Value, m: nat)
    requires Short(elem, w, n) && FixedSize(KindOf(elem)) < 0
    ensures Short(SliceOf(elem), v, m)
  {
    v, m := List([w]), 4 + n;
    OneItem(elem, w);
    var e, f := Encode(SliceOf(elem), v), Encode(elem, w);
    assert e == Prefix(1) + f && e[m..] == f[n..];
    forall k: nat
      ensures SizeOf(SliceOf(elem), e + Zeros(k)) == Takes(m)
    {
      var p := e + Zeros(k);
      assert p[..4] == Prefix(1) && p[4..] == f + Zeros(k);
      NumberIs(1, p);
      OneSize(elem, 4, n, p);
    }
  }

  lemma OneSize(elem: Schema, n: nat, m: nat, p: Bytes)
    requires n <= |p| && SizeOf(elem, p[n..]) == Takes(m)
    ensures EachSize(elem, 1, n, p) == Takes(n + m)
  {
    assert EachSize(elem, 0, n + m, p) == Takes(n + m);
  }

  /** An array of references that pass for numbers. */
  lemma WitnessZero(elem: Schema, length: nat)
    requires Pretends(elem) && Inhabited(elem) && length > 0
    ensures Short(ArrayOf(elem, length), Zero(ArrayOf(elem, length)), ZeroSize(ArrayOf(elem, length)))
  {
    var s := ArrayOf(elem, length);
    ZeroTyped(s);
    ZeroTyped(elem);
    CopiesEncode(elem, length);
    var e, a, b := Encode(s, Zero(s)), FixedSize(elem.kind), ReferenceSize(elem.typ);
    assert |e| == length * b && ZeroSize(s) == length * a;
    TimesLess(length, a, b);
    forall k: nat
      ensures SizeOf(s, e + Zeros(k)) == Takes(ZeroSize(s))
    {
      SizeOfZeros(s, e + Zeros(k));
    }
  }

  lemma TimesLess(n: nat, a: nat, b: nat)
    requires n > 0 && a < b
    ensures n * a < n * b
  {
  }

  /** An array that starts with an element of which Size sees too little, the others being zeros. */
  lemma WitnessArray(elem: Schema, length: nat, w: Value, n: nat) returns (v: Value, m: nat)
    requires Short(elem, w, n) && FixedSize(KindOf(elem)) < 0 && length > 0 && Inhabited(elem)
    ensures Short(ArrayOf(elem, length), v, m)
  {
    hide SizeOf, EachSize, Zero, ZeroSize, Encode;
    var z, l := Zero(elem), length - 1;
    var us := Copies(l, z);
    var vs := [w] + us;
    v, m := List(vs), n + l * ZeroSize(elem);
    ZeroTyped(elem);
    CopiesEncode(elem, l);
    TimesMore(l, ZeroSize(elem), |Encode(elem, z)|);
    TimesMore(l, 0, ZeroSize(elem));
    assert vs[1..] == us && EncodeItems(elem, vs) == Encode(elem, w) + EncodeItems(elem, us);
    FirstShorter(Encode(elem, w), EncodeItems(elem, us), n, m);
    forall k: nat
      ensures EachSize(elem, length, 0, EncodeItems(elem, vs) + Zeros(k)) == Takes(m)
    {
      FirstItemShort(elem, l, w, n, EncodeItems(elem, us), k);
    }
    ShortArray(elem, vs, m);
  }

  lemma FirstShorter(f: Bytes, g: Bytes, n: nat, m: nat)
    requires n < |f| && AllZero(f[n..]) && AllZero(g) && n <= m <= n + |g|
    ensures m < |f + g| && AllZero((f + g)[m..])
  {
    ZeroTail(f, g, 0, n);
    AllZeroFrom(f + g, n, m);
  }

  lemma ShortArray(elem: Schema, vs: seq<Value>, m: nat)
    requires FixedSize(KindOf(elem)) < 0 && forall i | 0 <= i < |vs| :: Typed(elem, vs[i])
    requires m < |EncodeItems(elem, vs)| && AllZero(EncodeItems(elem, vs)[m..])
    requires forall k: nat :: EachSize(elem, |vs|, 0, EncodeItems(elem, vs) + Zeros(k)) == Takes(m)
    ensures Short(ArrayOf(elem, |vs|), List(vs), m)
  {
    hide EachSize, EncodeItems;
    var s := ArrayOf(elem, |vs|);
    forall k: nat
      ensures SizeOf(s, Encode(s, List(vs)) + Zeros(k)) == Takes(m)
    {
      assert EachSize(elem, |vs|, 0, EncodeItems(elem, vs) + Zeros(k)) == Takes(m);
    }
  }

  lemma FirstItemShort(elem: Schema, l: nat, w: Value, n: nat, g: Bytes, k: nat)
    requires Short(elem, w, n) && AllZero(g) && Inhabited(elem) && l * ZeroSize(elem) <= |g|
    ensures EachSize(elem, l + 1, 0, Encode(elem, w) + g + Zeros(k)) == Takes(n + l * ZeroSize(elem))
  {
    hide SizeOf, Encode, Typed, Zero;
    var f := Encode(elem, w);
    var p := f + g + Zeros(k);
    ZeroTail(f, g, k, n);
    assert p[0..] == f + Zeros(|g| + k);
    assert p[n..] == f[n..] + (g + Zeros(k));
    EachOfZeros(elem, l, n, p);
  }

  lemma AllZeroFrom(p: Bytes, n: nat, m: nat)
    requires n <= m <= |p| && AllZero(p[n..])
    ensures AllZero(p[m..])
  {
    assert p[m..] == p[n..][m - n..];
  }

  /** Fields of which Size sees too little: the first ones are seen as they are, one is not, the others are zeros. */
  lemma {:induction false} WitnessFields(fields: seq<Schema>) returns (vs: seq<Value>, m: nat)
    requires (forall i | 0 <= i < |fields| :: Inhabited(fields[i]))
      && exists i :: 0 <= i < |fields| && !Honest(fields[i])
    ensures |vs| == |fields| && forall i | 0 <= i < |fields| :: Typed(fields[i], vs[i])
    ensures m < |EncodeFields(fields, vs)| && AllZero(EncodeFields(fields, vs)[m..])
    ensures forall head: Bytes, k: nat ::
            FieldsSize(fields, |head|, head + EncodeFields(fields, vs) + Zeros(k)) == Takes(|head| + m)
    decreases fields, 1
  {
    hide SizeOf, Honest, FieldsSize;
    var rest := fields[1..];
    if Honest(fields[0]) {
      ZeroTyped(fields[0]);
      var us, n := WitnessFields(rest);
      var z := Zero(fields[0]);
      vs, m := [z] + us, |Encode(fields[0], z)| + n;
      assert vs[1..] == us;
      var f, g := Encode(fields[0], z), EncodeFields(rest, us);
      assert EncodeFields(fields, vs) == f + g && (f + g)[m..] == g[n..];
      forall head: Bytes, k: nat
        ensures FieldsSize(fields, |head|, head + (f + g) + Zeros(k)) == Takes(|head| + m)
      {
        assert FieldsSize(rest, |head + f|, (head + f) + g + Zeros(k)) == Takes(|head + f| + n);
        FirstExact(fields, z, g, head, Zeros(k));
      }
    } else {
      var w, n := Witness(fields[0]);
      ZeroFieldsTyped(rest);
      var us := ZeroFields(rest);
      vs, m := [w] + us, n + ZeroFieldsSize(rest);
      assert vs[1..] == us;
      var f, g := Encode(fields[0], w), EncodeFields(rest, us);
      assert EncodeFields(fields, vs) == f + g;
      forall head: Bytes, k: nat
        ensures FieldsSize(fields, |head|, head + (f + g) + Zeros(k)) == Takes(|head| + m)
      {
        FirstShort(fields, w, n, g, head, k);
      }
      FirstShorter(f, g, n, m);
    }
  }

  lemma FirstExact(fields: seq<Schema>, v: Value, g: Bytes, head: Bytes, tail: Bytes)
    requires fields != [] && Honest(fields[0]) && Typed(fields[0], v)
    ensures var f := Encode(fields[0], v);
            FieldsSize(fields, |head|, head + (f + g) + tail) ==
                FieldsSize(fields[1..], |head + f|, (head + f) + g + tail)
  {
    hide SizeOf, Honest;
    var f := Encode(fields[0], v);
    AfterHead(head, f, g, tail);
    Exact(fields[0], v, g + tail);
  }

  lemma FirstShort(fields: seq<Schema>, w: Value, n: nat, g: Bytes, head: Bytes, k: nat)
    requires fields != [] && Short(fields[0], w, n) && AllZero(g)
    requires forall i | 0 <= i < |fields[1..]| :: Inhabited(fields[1..][i])
    requires ZeroFieldsSize(fields[1..]) <= |g|
    ensures FieldsSize(fields, |head|, head + (Encode(fields[0], w) + g) + Zeros(k)) ==
            Takes(|head| + n + ZeroFieldsSize(fields[1..]))
  {
    hide SizeOf, Encode, Typed, Zero;
    var f := Encode(fields[0], w);
    var p := head + (f + g) + Zeros(k);
    ZeroTail(f, g, k, n);
    assert p[|head|..] == f + Zeros(|g| + k);
    assert SizeOf(fields[0], p[|head|..]) == Takes(n);
    assert p[|head| + n..] == f[n..] + (g + Zeros(k));
    FieldsOfZeros(fields[1..], |head| + n, p);
  }

  lemma ShortStruct(fields: seq<Schema>, vs: seq<Value>, m: nat)
    requires |vs| == |fields| && (forall i | 0 <= i < |fields| :: Typed(fields[i], vs[i]))
    requires m < |EncodeFields(fields, vs)| && AllZero(EncodeFields(fields, vs)[m..])
    requires forall head: Bytes, k: nat ::
               FieldsSize(fields, |head|, head + EncodeFields(fields, vs) + Zeros(k)) == Takes(|head| + m)
    ensures Short(StructOf(fields), List(vs), m)
  {
    hide Bits, Hashes, Inhabited, Honest;
    var s, v := StructOf(fields), List(vs);
    StructIs(fields, vs);
    hide Encode, EncodeFields, FieldsSize, SizeOf, Zeros;
    forall k: nat
      ensures SizeOf(s, Encode(s, v) + Zeros(k)) == Takes(m)
    {
      var none: Bytes := [];
      assert none + EncodeFields(fields, vs) == EncodeFields(fields, vs);
      assert FieldsSize(fields, |none|, none + EncodeFields(fields, vs) + Zeros(k)) == Takes(m);
      SizeOfStruct(fields, EncodeFields(fields, vs) + Zeros(k));
    }
  }

  lemma StructIs(fields: seq<Schema>, vs: seq<Value>)
    requires |vs| == |fields| && forall i | 0 <= i < |fields| :: Typed(fields[i], vs[i])
    ensures Typed(StructOf(fields), List(vs)) && Encode(StructOf(fields), List(vs)) == EncodeFields(fields, vs)
  {
    hide EncodeFields, EncodeItems, Bits, Hashes;
  }

  lemma SizeOfStruct(fields: seq<Schema>, p: Bytes)
    ensures SizeOf(StructOf(fields), p) == Within(FieldsSize(fields, 0, p), p)
  {
    hide FieldsSize, ItemsSize, EachSize, Number, FixedSize, ReferenceSize;
  }

  lemma {:induction false} Witness(s: Schema) returns (v: Value, m: nat)
    requires !Honest(s)
    ensures Short(s, v, m)
    decreases s, 0
  {
    match s
    case SliceOf(elem) =>
      if Pretends(elem) {
        v, m := WitnessPretended(elem);
      } else {
        var w, n := Witness(elem);
        v, m := WitnessSlice(elem, w, n);
      }
    case ArrayOf(elem, length) =>
      if Pretends(elem) {
        v, m := Zero(s), ZeroSize(s);
        ZeroTyped(s);
        WitnessZero(elem, length);
      } else {
        var w, n := Witness(elem);
        v, m := WitnessArray(elem, length, w, n);
      }
    case StructOf(fields) =>
      var vs;
      vs, m := WitnessFields(fields);
      v := List(vs);
      ShortStruct(fields, vs, m);
  }

  ghost predicate AlwaysExact(s: Schema) {
    forall v, tail | Typed(s, v) :: SizeOf(s, Encode(s, v) + tail) == Takes(|Encode(s, v)|)
  }

  /** Size finds the end of every encoded value exactly if no element passes for what it is not. */
  lemma ExactIffHonest(s: Schema)
    ensures AlwaysExact(s) <==> Honest(s)
  {
    if Honest(s) {
      forall v, tail | Typed(s, v)
        ensures SizeOf(s, Encode(s, v) + tail) == Takes(|Encode(s, v)|)
      {
        Exact(s, v, tail);
      }
    } else {
      var v, m := Witness(s);
      assert SizeOf(s, Encode(s, v) + Zeros(0)) == Takes(m);
    }
  }

  /** A schema that is not exact: an array of two references that pass for booleans. */
  lemma PretendedNumbers()
    ensures !AlwaysExact(ArrayOf(Reference(Bool, Single), 2)) && !AlwaysExact(SliceOf(Reference(Uint8, Dynamic)))
    ensures AlwaysExact(ArrayOf(Reference(Bool, Single), 0))
  {
    ExactIffHonest(ArrayOf(Reference(Bool, Single), 2));
    ExactIffHonest(SliceOf(Reference(Uint8, Dynamic)));
    ExactIffHonest(ArrayOf(Reference(Bool, Single), 0));
  }

  // --------------------------------------------------------------- and only so

  /** Every reference has a type: what decoding a schema gives. */
  predicate Proper(s: Schema)
    decreases s
  {
    match s
    case Plain(_) => true
    case Reference(_, typ) => typ != NoReference
    case SliceOf(elem) => Proper(elem)
    case ArrayOf(elem, _) => Proper(elem)
    case StructOf(fields) => forall i | 0 <= i < |fields| :: Proper(fields[i])
  }

  /** Size accepts nothing of a schema that no value has. */
  lemma {:induction false} AcceptedInhabited(s: Schema, p: Bytes)
    requires Proper(s) && SizeOf(s, p).Takes?
    ensures Inhabited(s)
    decreases s, 0
  {
    match s
    case Plain(_) =>
    case Reference(_, _) =>
    case SliceOf(_) =>
    case ArrayOf(elem, length) =>
      if length > 0 {
        ItemsInhabited(elem, length, 0, p);
      }
    case StructOf(fields) => FieldsInhabited(fields, 0, p);
  }

  lemma {:induction false} ItemsInhabited(elem: Schema, l: nat, n: nat, p: Bytes)
    requires Proper(elem) && l > 0 && ItemsSize(elem, l, n, p).Takes?
    ensures Inhabited(elem)
    decreases elem, 1
  {
    if FixedSize(KindOf(elem)) < 0 {
      AcceptedInhabited(elem, p[n..]);
    }
  }

  lemma {:induction false} FieldsInhabited(fields: seq<Schema>, n: nat, p: Bytes)
    requires (forall i | 0 <= i < |fields| :: Proper(fields[i])) && FieldsSize(fields, n, p).Takes?
    ensures forall i | 0 <= i < |fields| :: Inhabited(fields[i])
    decreases fields, 1
  {
    if fields != [] {
      AcceptedInhabited(fields[0], p[n..]);
      FieldsInhabited(fields[1..], n + SizeOf(fields[0], p[n..]).n, p);
      assert forall i | 0 < i < |fields| :: fields[i] == fields[1..][i - 1];
    }
  }

  /** What Size accepts is an encoded value. */
  lemma {:induction false} Decoded(s: Schema, p: Bytes) returns (v: Value)
    requires Proper(s) && Honest(s) && SizeOf(s, p).Takes?
    ensures SizeOf(s, p).n <= |p| && Typed(s, v) && Encode(s, v) == p[..SizeOf(s, p).n]
    decreases s, 0
  {
    var n := SizeOf(s, p).n;
    AcceptedInhabited(s, p);
    match s
    case Plain(_) =>
      if s.kind == String {
        PrefixIs(p);
        v := Text(p[4..n]);
      } else {
        v := Raw(p[..n]);
      }
    case Reference(_, _) => v := Raw(p[..n]);
    case SliceOf(elem) =>
      PrefixIs(p);
      var vs := DecodedItems(elem, Number(p), 4, p);
      v := List(vs);
    case ArrayOf(elem, length) =>
      var vs := DecodedItems(elem, length, 0, p);
      v := List(vs);
    case StructOf(fields) =>
      var vs := DecodedFields(fields, 0, p);
      v := List(vs);
  }

  lemma {:induction false} DecodedItems(elem: Schema, l: nat, n: nat, p: Bytes) returns (vs: seq<Value>)
    requires Proper(elem) && (l > 0 && Inhabited(elem) ==> !Pretends(elem) && Honest(elem))
    requires n <= |p| && ItemsSize(elem, l, n, p).Takes? && ItemsSize(elem, l, n, p).n <= |p|
    ensures |vs| == l && (forall i | 0 <= i < l :: Typed(elem, vs[i]))
    ensures n <= ItemsSize(elem, l, n, p).n && EncodeItems(elem, vs) == p[n..ItemsSize(elem, l, n, p).n]
    decreases elem, 2, l
  {
    if l == 0 {
      vs := [];
      assert ItemsSize(elem, l, n, p) == Takes(n);
      return;
    }
    ItemsInhabited(elem, l, n, p);
    if FixedSize(KindOf(elem)) > 0 {
      vs := DecodedFixed(elem, l, n, p);
    } else {
      vs := DecodedEach(elem, l, n, p);
    }
  }

  lemma {:induction false} DecodedFixed(elem: Schema, l: nat, n: nat, p: Bytes) returns (vs: seq<Value>)
    requires elem.Plain? && FixedSize(elem.kind) > 0 && n + l * FixedSize(elem.kind) <= |p|
    ensures |vs| == l && (forall i | 0 <= i < l :: Typed(elem, vs[i]))
    ensures EncodeItems(elem, vs) == p[n..n + l * FixedSize(elem.kind)]
    decreases l
  {
    vs := [];
    if l > 0 {
      var k := FixedSize(elem.kind);
      assert l * k == k + (l - 1) * k;
      var v := Raw(p[n..n + k]);
      var rest := DecodedFixed(elem, l - 1, n + k, p);
      vs := [v] + rest;
      assert vs[1..] == rest && Encode(elem, v) == p[n..n + k];
      Joined(p, n, n + k, n + l * k);
    }
  }

  lemma Joined(p: Bytes, a: nat, b: nat, c: nat)
    requires a <= b <= c <= |p|
    ensures p[a..c] == p[a..b] + p[b..c] && p[a..][..b - a] == p[a..b]
  {
  }

  lemma {:induction false} DecodedEach(elem: Schema, l: nat, n: nat, p: Bytes) returns (vs: seq<Value>)
    requires Proper(elem) && Honest(elem) && n <= |p| && EachSize(elem, l, n, p).Takes?
      && EachSize(elem, l, n, p).n <= |p|
    ensures |vs| == l && (forall i | 0 <= i < l :: Typed(elem, vs[i]))
    ensures n <= EachSize(elem, l, n, p).n && EncodeItems(elem, vs) == p[n..EachSize(elem, l, n, p).n]
    decreases elem, 1, l
  {
    hide SizeOf, Encode, Typed, Honest, Proper;
    vs := [];
    if l > 0 {
      var m := SizeOf(elem, p[n..]).n;
      var v := Decoded(elem, p[n..]);
      var rest := DecodedEach(elem, l - 1, n + m, p);
      vs := [v] + rest;
      assert vs[1..] == rest;
      Joined(p, n, n + m, EachSize(elem, l, n, p).n);
    }
  }

  lemma {:induction false} DecodedFields(fields: seq<Schema>, n: nat, p: Bytes) returns (vs: seq<Value>)
    requires n <= |p| && FieldsSize(fields, n, p).Takes? && FieldsSize(fields, n, p).n <= |p|
    requires forall i | 0 <= i < |fields| :: Proper(fields[i]) && Honest(fields[i])
    ensures |vs| == |fields| && (forall i | 0 <= i < |fields| :: Typed(fields[i], vs[i]))
    ensures n <= FieldsSize(fields, n, p).n && EncodeFields(fields, vs) == p[n..FieldsSize(fields, n, p).n]
    decreases fields, 1
  {
    hide SizeOf, Encode, Typed, Honest, Proper;
    vs := [];
    if fields != [] {
      var m := SizeOf(fields[0], p[n..]).n;
      var v := Decoded(fields[0], p[n..]);
      var rest := DecodedFields(fields[1..], n + m, p);
      vs := [v] + rest;
      assert vs[1..] == rest;
      Joined(p, n, n + m, FieldsSize(fields, n, p).n);
    }
  }

  /** The buffer starts with an encoded value of `n` bytes. */
  ghost predicate Starts(s: Schema, p: Bytes, n: nat) {
    n <= |p| && exists v :: Typed(s, v) && Encode(s, v) == p[..n]
  }

  /** Size accepts a buffer if and only if it starts with an encoded value, and tells how long that is. */
  ghost predicate Delimits(s: Schema) {
    forall p, n: nat :: SizeOf(s, p) == Takes(n) <==> Starts(s, p, n)
  }

  /** It does so exactly for the schemas without elements that pass for what they are not. */
  lemma DelimitsIffHonest(s: Schema)
    requires Proper(s)
    ensures Delimits(s) <==> Honest(s)
  {
    if Honest(s) {
      forall p, n: nat
        ensures SizeOf(s, p) == Takes(n) <==> Starts(s, p, n)
      {
        SizeIsExact(s, p, n);
      }
    } else {
      var v, m := Witness(s);
      var p := Encode(s, v) + Zeros(0);
      assert p == Encode(s, v) && SizeOf(s, p) == Takes(m);
      assert p[..|p|] == p;
      assert Starts(s, p, |p|);
    }
  }

  lemma SizeIsExact(s: Schema, p: Bytes, n: nat)
    requires Proper(s) && Honest(s)
    ensures SizeOf(s, p) == Takes(n) <==> Starts(s, p, n)
  {
    if SizeOf(s, p) == Takes(n) {
      var v := Decoded(s, p);
    }
    if Starts(s, p, n) {
      var v :| Typed(s, v) && Encode(s, v) == p[..n];
      assert p == p[..n] + p[n..];
      Exact(s, v, p[n..]);
    }
  }

  // -------------------------------------------------------------- no further

  /** The answer is within the buffer, and depends on the bytes it counts only. */
  lemma {:induction false} LooksNoFurther(s: Schema, p: Bytes, q: Bytes)
    requires SizeOf(s, p).Takes?
    ensures SizeOf(s, p).n <= |p|
    ensures SizeOf(s, p).n <= |q| && p[..SizeOf(s, p).n] == q[..SizeOf(s, p).n] ==> SizeOf(s, q) == SizeOf(s, p)
    decreases s, 0
  {
    var n := SizeOf(s, p).n;
    if n <= |q| && p[..n] == q[..n] {
      match s
      case Plain(_) =>
        if s.kind == String {
          SameNumber(p, q, n);
        }
      case Reference(_, _) =>
      case SliceOf(elem) =>
        ItemsGrow(elem, Number(p), 4, p);
        SameNumber(p, q, n);
        ItemsNoFurther(elem, Number(p), 4, p, q);
      case ArrayOf(elem, length) => ItemsNoFurther(elem, length, 0, p, q);
      case StructOf(fields) => FieldsNoFurther(fields, 0, p, q);
    }
  }

  lemma SameNumber(p: Bytes, q: Bytes, n: nat)
    requires 4 <= n <= |p| && n <= |q| && p[..n] == q[..n]
    ensures Number(p) == Number(q)
  {
    assert forall i | 0 <= i < 4 :: p[i] == p[..n][i] == q[..n][i] == q[i];
  }

  lemma {:induction false} ItemsGrow(elem: Schema, l: nat, n: nat, p: Bytes)
    requires ItemsSize(elem, l, n, p).Takes?
    ensures n <= ItemsSize(elem, l, n, p).n
  {
    if FixedSize(KindOf(elem)) > 0 {
      TimesMore(l, 0, FixedSize(KindOf(elem)));
    } else {
      EachGrows(elem, l, n, p);
    }
  }

  lemma {:induction false} EachGrows(elem: Schema, l: nat, n: nat, p: Bytes)
    requires EachSize(elem, l, n, p).Takes?
    ensures n <= EachSize(elem, l, n, p).n
    decreases l
  {
    if l > 0 {
      EachGrows(elem, l - 1, n + SizeOf(elem, p[n..]).n, p);
    }
  }

  lemma {:induction false} FieldsGrow(fields: seq<Schema>, n: nat, p: Bytes)
    requires FieldsSize(fields, n, p).Takes?
    ensures n <= FieldsSize(fields, n, p).n
    decreases |fields|
  {
    if fields != [] {
      FieldsGrow(fields[1..], n + SizeOf(fields[0], p[n..]).n, p);
    }
  }

  lemma {:induction false} ItemsNoFurther(elem: Schema, l: nat, n: nat, p: Bytes, q: Bytes)
    requires ItemsSize(elem, l, n, p).Takes?
    requires var e := ItemsSize(elem, l, n, p).n; e <= |p| && e <= |q| && p[..e] == q[..e]
    ensures ItemsSize(elem, l, n, q) == ItemsSize(elem, l, n, p)
    decreases elem, 2
  {
    if FixedSize(KindOf(elem)) < 0 {
      EachNoFurther(elem, l, n, p, q);
    }
  }

  lemma PartSame(p: Bytes, q: Bytes, n: nat, m: nat, e: nat)
    requires n + m <= e <= |p| && e <= |q| && p[..e] == q[..e]
    ensures p[n..][..m] == q[n..][..m]
  {
    assert p[n..][..m] == p[..e][n..n + m] && q[n..][..m] == q[..e][n..n + m];
  }

  lemma {:induction false} EachNoFurther(elem: Schema, l: nat, n: nat, p: Bytes, q: Bytes)
    requires EachSize(elem, l, n, p).Takes?
    requires var e := EachSize(elem, l, n, p).n; e <= |p| && e <= |q| && p[..e] == q[..e]
    ensures EachSize(elem, l, n, q) == EachSize(elem, l, n, p)
    decreases elem, 1, l
  {
    hide SizeOf;
    if l > 0 {
      var m := SizeOf(elem, p[n..]).n;
      EachGrows(elem, l - 1, n + m, p);
      PartSame(p, q, n, m, EachSize(elem, l, n, p).n);
      LooksNoFurther(elem, p[n..], q[n..]);
      EachNoFurther(elem, l - 1, n + m, p, q);
    }
  }

  lemma {:induction false} FieldsNoFurther(fields: seq<Schema>, n: nat, p: Bytes, q: Bytes)
    requires FieldsSize(fields, n, p).Takes?
    requires var e := FieldsSize(fields, n, p).n; e <= |p| && e <= |q| && p[..e] == q[..e]
    ensures FieldsSize(fields, n, q) == FieldsSize(fields, n, p)
    decreases fields, 1
  {
    hide SizeOf;
    if fields != [] {
      var m := SizeOf(fields[0], p[n..]).n;
      FieldsGrow(fields[1..], n + m, p);
      PartSame(p, q, n, m, FieldsSize(fields, n, p).n);
      LooksNoFurther(fields[0], p[n..], q[n..]);
      FieldsNoFurther(fields[1..], n + m, p, q);
    }
  }
}
