/**
 The behaviour `enum_builder!` generates for every wire enumeration, modelled once for every
 constant table and backing width. A value is either the i-th named constant of the table or
 `Unknown(x)` carrying a raw integer of the backing width.
 */
module EnumBuilder {
  import opened Wrappers
  import opened Bytes
  import Codec

  /** The backing integer: `@U8` or `@U16`. */
  datatype Width = U8 | U16 {
    /** `size_of::<$uint>()`: the number of bytes on the wire. */
    function Size(): nat {
      if U8? then 1 else 2
    }

    /** One past the largest value of the backing integer. */
    function Bound(): (b: nat)
      ensures b == Pow256(Size())
    {
      if U8? then 0x100 else 0x1_0000
    }
  }

  /** One arm `$enum_var => $enum_val` of the table. */
  datatype Variant = Variant(ident: string, value: nat)

  /** An instantiation of the macro: the enum's name, its width and its table in source order. */
  datatype EnumSpec = EnumSpec(name: string, width: Width, variants: seq<Variant>) {
    /** Every constant has the type of the backing integer (the macro does not compile otherwise). */
    predicate Valid() {
      forall i :: 0 <= i < |variants| ==> variants[i].value < width.Bound()
    }

    /** x is the constant of some named variant. */
    predicate IsNamed(x: int) {
      exists i :: 0 <= i < |variants| && variants[i].value == x
    }

    /** No two named variants share a constant. */
    predicate Distinct() {
      forall i, j :: 0 <= i < j < |variants| ==> variants[i].value != variants[j].value
    }
  }

  /** A value of a generated enum: the named variant at a table index, or `Unknown(raw)`. */
  datatype WireEnum = Named(index: nat) | Unknown(raw: nat)

  /** The values the generated Rust type can hold: a declared variant, or `Unknown` of a backing integer. */
  predicate Wf(spec: EnumSpec, v: WireEnum) {
    match v
    case Named(i) => i < |spec.variants|
    case Unknown(x) => x < spec.width.Bound()
  }

  /** The decode error `read` reports: `MissingData` naming the enum. */
  datatype InvalidMessage = MissingData(typeName: string)

  /**
   The first table index at or after `from` whose constant is x: the arms of Rust's `match` are
   tried in source order and the first that matches wins.
   */
  function Lookup(variants: seq<Variant>, x: nat, from: nat): (o: Option<nat>)
    requires from <= |variants|
    ensures o.Some? ==> from <= o.value < |variants| && variants[o.value].value == x
    ensures o.Some? ==> forall j :: from <= j < o.value ==> variants[j].value != x
    ensures o.None? ==> forall j :: from <= j < |variants| ==> variants[j].value != x
    decreases |variants| - from
  {
    if from == |variants| then None
    else if variants[from].value == x then Some(from)
    else Lookup(variants, x, from + 1)
  }

  /** `get_u8` / `get_u16`: the named variant's constant, or the raw value of `Unknown`. */
  function GetUint(spec: EnumSpec, v: WireEnum): (x: nat)
    requires spec.Valid() && Wf(spec, v)
    ensures x < spec.width.Bound()
  {
    match v
    case Named(i) => spec.variants[i].value
    case Unknown(x) => x
  }

  /**
   `From<$uint>`: total. The result carries x back through `GetUint`, is `Unknown(x)` exactly
   when no constant equals x, and otherwise is the first variant in table order with that constant.
   */
  function FromUint(spec: EnumSpec, x: nat): (v: WireEnum)
    requires spec.Valid() && x < spec.width.Bound()
    ensures Wf(spec, v)
    ensures GetUint(spec, v) == x
    ensures v.Unknown? <==> !spec.IsNamed(x)
    ensures v.Unknown? ==> v == Unknown(x)
    ensures v.Named? ==> forall j :: 0 <= j < v.index ==> spec.variants[j].value != x
  {
    match Lookup(spec.variants, x, 0)
    case Some(i) => Named(i)
    case None => Unknown(x)
  }

  /** `from(get_uint(v))`: the value a round trip through the wire integer gives back. */
  function Normalize(spec: EnumSpec, v: WireEnum): WireEnum
    requires spec.Valid() && Wf(spec, v)
  {
    FromUint(spec, GetUint(spec, v))
  }

  /** `get_array`: the backing integer's big-endian bytes, one for `@U8` and two for `@U16`. */
  function GetArray(spec: EnumSpec, v: WireEnum): (a: seq<uint8>)
    requires spec.Valid() && Wf(spec, v)
    ensures |a| == spec.width.Size()
    ensures FromBigEndian(a) == GetUint(spec, v)
  {
    ToBigEndian(GetUint(spec, v), spec.width.Size())
  }

  /** `as_str`: the identifier of a named variant; nothing for `Unknown`. */
  function AsStr(spec: EnumSpec, v: WireEnum): (s: Option<string>)
    requires Wf(spec, v)
    ensures s.None? <==> v.Unknown?
    ensures v.Named? ==> s == Some(spec.variants[v.index].ident)
  {
    match v
    case Named(i) => Some(spec.variants[i].ident)
    case Unknown(_) => None
  }

  /** `Codec::encode`: appends the width's big-endian bytes of the wire integer, leaving `bytes` in front. */
  function Encode(spec: EnumSpec, v: WireEnum, bytes: seq<uint8>): (out: seq<uint8>)
    requires spec.Valid() && Wf(spec, v)
    ensures |out| == |bytes| + spec.width.Size()
    ensures out[..|bytes|] == bytes
    ensures out[|bytes|..] == GetArray(spec, v)
  {
    Codec.EncodeUint(GetUint(spec, v), spec.width.Size(), bytes)
  }

  /**
   `Codec::read`: fails, with `MissingData` naming the enum, exactly when fewer than the width's
   bytes remain; otherwise consumes exactly those bytes and yields `from` of their value, so an
   unrecognised value is never an error.
   */
  function Read(spec: EnumSpec, r: Codec.Reader): (res: Result<(WireEnum, Codec.Reader), InvalidMessage>)
    requires spec.Valid() && r.Valid()
    ensures res.Failure? <==> r.Remaining() < spec.width.Size()
    ensures res.Failure? ==> res.error == MissingData(spec.name)
    ensures res.Success? ==>
              && Wf(spec, res.value.0)
              && res.value.0 == FromUint(spec, FromBigEndian(r.data[r.cursor..r.cursor + spec.width.Size()]))
              && res.value.1 == Codec.Reader(r.data, r.cursor + spec.width.Size())
  {
    match Codec.ReadUint(r, spec.width.Size())
    case Some((x, r')) => Success((FromUint(spec, x), r'))
    case None => Failure(MissingData(spec.name))
  }

  /** A value survives `from(get_uint(.))` unchanged exactly when it is what `from` produces for its integer. */
  predicate Canonical(spec: EnumSpec, v: WireEnum)
    requires Wf(spec, v)
  {
    match v
    case Named(i) => forall j :: 0 <= j < i ==> spec.variants[j].value != spec.variants[i].value
    case Unknown(x) => !spec.IsNamed(x)
  }

  /** `from(get_uint(v)) == v` holds exactly for the canonical values. */
  lemma NormalizeFixesCanonical(spec: EnumSpec, v: WireEnum)
    requires spec.Valid() && Wf(spec, v)
    ensures Normalize(spec, v) == v <==> Canonical(spec, v)
  {
    if v.Named? {
      assert spec.IsNamed(GetUint(spec, v));
    }
  }

  /** A hand-built `Unknown(x)` survives the round trip only if x is no named constant. */
  lemma NormalizeUnknown(spec: EnumSpec, x: nat)
    requires spec.Valid() && x < spec.width.Bound()
    ensures Normalize(spec, Unknown(x)) == Unknown(x) <==> !spec.IsNamed(x)
    ensures spec.IsNamed(x) ==> Normalize(spec, Unknown(x)).Named?
  {
  }

  /** With distinct constants, every named variant survives the round trip. */
  lemma NormalizeNamed(spec: EnumSpec, i: nat)
    requires spec.Valid() && spec.Distinct() && i < |spec.variants|
    ensures Normalize(spec, Named(i)) == Named(i)
  {
    NormalizeFixesCanonical(spec, Named(i));
  }

  /** Normalizing twice is normalizing once. */
  lemma NormalizeIdempotent(spec: EnumSpec, v: WireEnum)
    requires spec.Valid() && Wf(spec, v)
    ensures Normalize(spec, Normalize(spec, v)) == Normalize(spec, v)
  {
  }

  /** `read` of what `encode` appended gives back `from(get_uint(v))` and consumes exactly the width. */
  lemma ReadEncoded(spec: EnumSpec, v: WireEnum, bytes: seq<uint8>, tail: seq<uint8>)
    requires spec.Valid() && Wf(spec, v)
    ensures Read(spec, Codec.Reader(Encode(spec, v, bytes) + tail, |bytes|))
            == Success((Normalize(spec, v),
                        Codec.Reader(Encode(spec, v, bytes) + tail, |bytes| + spec.width.Size())))
  {
    var out := Encode(spec, v, bytes) + tail;
    var n := spec.width.Size();
    assert out[|bytes|..|bytes| + n] == GetArray(spec, v);
  }
}
