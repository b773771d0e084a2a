/**
 * Endpoints and flows: the hashable, fixed-capacity addresses gopacket uses
 * to classify traffic, their ordering and fast hashes, and the process-wide
 * registry of endpoint types (flows.go).
 */
module Flows {
  import opened Wrappers
  import opened Bytes
  import opened Uint64
  import Decimal

  /** The capacity, in bytes, of the fixed array an endpoint address lives in. */
  const MaxEndpointSize: nat := 16

  /** The kind of an endpoint address; Go's EndpointType is an int64. */
  newtype EndpointType = x: int | -0x8000_0000_0000_0000 <= x < 0x8000_0000_0000_0000

  datatype ConstructionError =
    | AddressTooLong(length: nat)
    | MismatchedEndpointTypes(src: EndpointType, dst: EndpointType)

  /** A copy of `raw` into a zeroed array of MaxEndpointSize bytes. */
  function CopyIntoZeroed(raw: seq<Byte>): (buf: seq<Byte>)
    requires |raw| <= MaxEndpointSize
    ensures |buf| == MaxEndpointSize && buf[..|raw|] == raw
    ensures forall i | |raw| <= i < MaxEndpointSize :: buf[i] == 0
  {
    raw + seq(MaxEndpointSize - |raw|, _ => 0)
  }

  /** Go's bytes.Compare: -1, 0 or 1 as `a` sorts before, equal to or after `b`. */
  function Compare(a: seq<Byte>, b: seq<Byte>): (c: int)
    ensures -1 <= c <= 1
  {
    if a == [] && b == [] then 0
    else if a == [] then -1
    else if b == [] then 1
    else if a[0] < b[0] then -1
    else if a[0] > b[0] then 1
    else Compare(a[1..], b[1..])
  }

  // ----------------------------------------------------------------------
  // Endpoint
  // ----------------------------------------------------------------------

  /** One side of a communication: a typed address in a 16-byte array of which the first `len` bytes count. */
  datatype Endpoint = Endpoint(typ: EndpointType, len: int, raw: seq<Byte>)
  {
    /** The shape Go's struct type guarantees and every constructor keeps. */
    predicate Valid() {
      0 <= len <= MaxEndpointSize && |raw| == MaxEndpointSize
    }

    /** The bytes past `len` are zero, as copying into a zero value leaves them. */
    predicate ZeroPadded()
      requires Valid()
    {
      forall i | len <= i < MaxEndpointSize :: raw[i] == 0
    }

    /** The meaningful bytes of the address. */
    function Raw(): (r: seq<Byte>)
      requires Valid()
      ensures |r| == len
    {
      raw[..len]
    }

    /** Orders by type first, then by the address bytes lexicographically. */
    predicate LessThan(b: Endpoint)
      requires Valid() && b.Valid()
    {
      typ < b.typ || (typ == b.typ && Compare(Raw(), b.Raw()) < 0)
    }

    /** XOR-folds the address bytes round robin into the 8 byte lanes of a 64-bit word. */
    method FastHash() returns (h: uint64)
      requires Valid()
      ensures h == Fold8(Raw(), len)
    {
      h := Zero;
      for i := 0 to len
        invariant h == Fold8(Raw(), i)
      {
        h := Xor(h, ShiftLeftBytes(Widen(raw[i]), i % 8));
      }
    }
  }

  /** The XOR of buf[i] << 8*(i mod 8) over i < n. */
  function Fold8(buf: seq<Byte>, n: nat): uint64
    requires n <= |buf|
  {
    if n == 0 then Zero else Xor(Fold8(buf, n - 1), ShiftLeftBytes(Widen(buf[n - 1]), (n - 1) % 8))
  }

  /** NewEndpoint: fails (Go panics) when the address does not fit; else keeps the type and exactly the given bytes. */
  function NewEndpoint(t: EndpointType, raw: seq<Byte>): (r: Result<Endpoint, ConstructionError>)
    ensures r.Failure? <==> |raw| > MaxEndpointSize
    ensures r.Failure? ==> r.error == AddressTooLong(|raw|)
    ensures r.Success? ==> r.value.Valid() && r.value.ZeroPadded() && r.value.typ == t && r.value.Raw() == raw
  {
    if |raw| > MaxEndpointSize then Failure(AddressTooLong(|raw|))
    else Success(Endpoint(t, |raw|, CopyIntoZeroed(raw)))
  }

  // ----------------------------------------------------------------------
  // Flow
  // ----------------------------------------------------------------------

  /** A source/destination pair of addresses of one type, each in its own 16-byte array. */
  datatype Flow = Flow(typ: EndpointType, slen: int, dlen: int, src: seq<Byte>, dst: seq<Byte>)
  {
    predicate Valid() {
      0 <= slen <= MaxEndpointSize && 0 <= dlen <= MaxEndpointSize &&
      |src| == MaxEndpointSize && |dst| == MaxEndpointSize
    }

    predicate ZeroPadded()
      requires Valid()
    {
      (forall i | slen <= i < MaxEndpointSize :: src[i] == 0) &&
      (forall i | dlen <= i < MaxEndpointSize :: dst[i] == 0)
    }

    /** The two endpoints of the flow, both of the flow's type. */
    function Endpoints(): (r: (Endpoint, Endpoint))
      requires Valid()
      ensures r.0.Valid() && r.1.Valid() && r.0.typ == typ && r.1.typ == typ
      ensures r.0.Raw() == src[..slen] && r.1.Raw() == dst[..dlen]
      ensures ZeroPadded() ==> r.0.ZeroPadded() && r.1.ZeroPadded()
    {
      (Endpoint(typ, slen, src), Endpoint(typ, dlen, dst))
    }

    function Src(): (e: Endpoint)
      requires Valid()
      ensures e.Valid() && e.typ == typ && e.Raw() == src[..slen]
    {
      Endpoints().0
    }

    function Dst(): (e: Endpoint)
      requires Valid()
      ensures e.Valid() && e.typ == typ && e.Raw() == dst[..dlen]
    {
      Endpoints().1
    }

    /** The same path travelled the other way: source and destination (and their lengths) swapped. */
    function Reverse(): (r: Flow)
      requires Valid()
      ensures r.Valid() && r.typ == typ
      ensures r.Src() == Dst() && r.Dst() == Src()
    {
      Flow(typ, dlen, slen, dst, src)
    }

    /**
     * Folds each address, read backwards over `slen` bytes, into the four
     * 16-bit lanes of a word, then combines the two words independently of
     * their order.
     */
    method FastHash() returns (h: uint64)
      requires Valid()
      ensures h == FlowHash(this)
    {
      var a, b := FoldAddresses();
      if Value(a) > Value(b) {
        h := Add(a, ShiftLeftBytes(b, 1));
      } else {
        h := Add(b, ShiftLeftBytes(a, 1));
      }
    }

    /** The loop of FastHash: both addresses folded over `slen` bytes. */
    method FoldAddresses() returns (a: uint64, b: uint64)
      requires Valid()
      ensures a == Fold16(src, slen, slen) && b == Fold16(dst, slen, slen)
    {
      a, b := Zero, Zero;
      for i := 0 to slen
        invariant a == Fold16(src, slen, i) && b == Fold16(dst, slen, i)
      {
        Fold16Step(src, slen, i);
        Fold16Step(dst, slen, i);
        a := FoldIn16(a, src[slen - 1 - i], i);
        b := FoldIn16(b, dst[slen - 1 - i], i);
      }
    }
  }

  /** The XOR of buf[last-1-i] << 16*(i mod 4) over i < n. */
  function Fold16(buf: seq<Byte>, last: nat, n: nat): uint64
    requires n <= last <= |buf|
  {
    if n == 0 then Zero else FoldIn16(Fold16(buf, last, n - 1), buf[last - n], n - 1)
  }

  /** One step of the fold: byte `b` widened, moved into the low byte of 16-bit lane i mod 4, and XORed into `acc`. */
  function FoldIn16(acc: uint64, b: Byte, i: nat): uint64 {
    Xor(acc, ShiftLeftBytes(Widen(b), 2 * (i % 4)))
  }

  /** One more byte folded in. */
  lemma Fold16Step(buf: seq<Byte>, last: nat, i: nat)
    requires i < last <= |buf|
    ensures Fold16(buf, last, i + 1) == FoldIn16(Fold16(buf, last, i), buf[last - 1 - i], i)
  {
  }

  /** The combining step of Flow.FastHash: the larger word plus the smaller shifted left by 8, modulo 2^64. */
  function Combine(a: uint64, b: uint64): uint64 {
    if Value(a) > Value(b) then Add(a, ShiftLeftBytes(b, 1)) else Add(b, ShiftLeftBytes(a, 1))
  }

  /** Flow.FastHash as written: both folds run over `slen` bytes. */
  function FlowHash(f: Flow): uint64
    requires f.Valid()
  {
    Combine(Fold16(f.src, f.slen, f.slen), Fold16(f.dst, f.slen, f.slen))
  }

  /** Flow.FastHash as its documentation intends: each address folded over its own length. */
  function FlowHashPerSide(f: Flow): uint64
    requires f.Valid()
  {
    Combine(Fold16(f.src, f.slen, f.slen), Fold16(f.dst, f.dlen, f.dlen))
  }

  /** NewFlow: fails (Go panics) when either address does not fit; else holds exactly the given bytes. */
  function NewFlow(t: EndpointType, src: seq<Byte>, dst: seq<Byte>): (r: Result<Flow, ConstructionError>)
    ensures r.Failure? <==> |src| > MaxEndpointSize || |dst| > MaxEndpointSize
    ensures r.Failure? ==> r.error == AddressTooLong(if |src| > MaxEndpointSize then |src| else |dst|)
    ensures r.Success? ==>
      r.value.Valid() && r.value.ZeroPadded() && r.value.typ == t &&
      r.value.Src().Raw() == src && r.value.Dst().Raw() == dst
  {
    if |src| > MaxEndpointSize then Failure(AddressTooLong(|src|))
    else if |dst| > MaxEndpointSize then Failure(AddressTooLong(|dst|))
    else Success(Flow(t, |src|, |dst|, CopyIntoZeroed(src), CopyIntoZeroed(dst)))
  }

  /** FlowFromEndpoints: fails exactly when the types differ; else the flow gives back both endpoints. */
  function FlowFromEndpoints(src: Endpoint, dst: Endpoint): (r: Result<Flow, ConstructionError>)
    requires src.Valid() && dst.Valid()
    ensures r.Failure? <==> src.typ != dst.typ
    ensures r.Failure? ==> r.error == MismatchedEndpointTypes(src.typ, dst.typ)
    ensures r.Success? ==> r.value.Valid() && r.value.Endpoints() == (src, dst)
  {
    if src.typ != dst.typ then Failure(MismatchedEndpointTypes(src.typ, dst.typ))
    else Success(Flow(src.typ, src.len, dst.len, src.raw, dst.raw))
  }

  // ----------------------------------------------------------------------
  // Endpoint-type registry
  // ----------------------------------------------------------------------

  /** What is registered for an endpoint type; the formatter function is not modelled. */
  datatype EndpointTypeMetadata = EndpointTypeMetadata(name: string)

  datatype RegistrationError = TypeNumberInUse(num: EndpointType)

  /** The type of invalid endpoints, registered when the process starts. */
  const EndpointInvalid: EndpointType := 0

  /** The singleton endpoint of type EndpointInvalid with no address bytes. */
  const InvalidEndpoint: Endpoint := Endpoint(EndpointInvalid, 0, CopyIntoZeroed([]))

  /** The singleton flow of type EndpointInvalid with empty addresses. */
  const InvalidFlow: Flow := Flow(EndpointInvalid, 0, 0, CopyIntoZeroed([]), CopyIntoZeroed([]))

  /** The process-wide table of endpoint types. */
  class EndpointTypeRegistry {
    var types: map<EndpointType, EndpointTypeMetadata>

    /** Process start: only EndpointInvalid is registered, under the name "invalid". */
    constructor ()
      ensures types == map[EndpointInvalid := EndpointTypeMetadata("invalid")]
    {
      types := map[];
      new;
      var _ := RegisterEndpointType(EndpointInvalid as int, EndpointTypeMetadata("invalid"));
    }

    /** Registers `num`; a number already in use fails (Go panics) and leaves the table as it was. */
    method RegisterEndpointType(num: int, meta: EndpointTypeMetadata) returns (r: Result<EndpointType, RegistrationError>)
      requires -0x8000_0000_0000_0000 <= num < 0x8000_0000_0000_0000
      modifies this
      ensures num as EndpointType in old(types) ==> r == Failure(TypeNumberInUse(num as EndpointType)) && types == old(types)
      ensures num as EndpointType !in old(types) ==>
        r == Success(num as EndpointType) && types == old(types)[num as EndpointType := meta]
    {
      var t := num as EndpointType;
      if t in types {
        return Failure(TypeNumberInUse(t));
      }
      types := types[t := meta];
      return Success(t);
    }

    /** EndpointType.String: the registered name, else the tag in decimal. */
    function String(e: EndpointType): (s: string)
      reads this
      ensures e in types ==> s == types[e].name
      ensures e !in types ==> s == Decimal.Itoa(e as int)
    {
      if e in types then types[e].name else Decimal.Itoa(e as int)
    }
  }

  // ----------------------------------------------------------------------
  // Properties
  // ----------------------------------------------------------------------

  /** The invalid singletons are what NewEndpoint and NewFlow build from empty addresses. */
  lemma InvalidSingletons()
    ensures NewEndpoint(EndpointInvalid, []) == Success(InvalidEndpoint)
    ensures NewFlow(EndpointInvalid, [], []) == Success(InvalidFlow)
    ensures InvalidEndpoint.Valid() && InvalidEndpoint.Raw() == []
  {
  }

  /** For zero-padded endpoints (all that construction yields), struct equality is equality of type and Raw(). */
  lemma EndpointEquality(a: Endpoint, b: Endpoint)
    requires a.Valid() && b.Valid() && a.ZeroPadded() && b.ZeroPadded()
    ensures a == b <==> (a.typ == b.typ && a.Raw() == b.Raw())
  {
    if a.typ == b.typ && a.Raw() == b.Raw() {
      assert a.len == b.len;
      forall i | 0 <= i < MaxEndpointSize
        ensures a.raw[i] == b.raw[i]
      {
        if i < a.len {
          assert a.raw[i] == a.Raw()[i];
        }
      }
    }
  }

  lemma {:induction false} CompareReflexive(a: seq<Byte>)
    ensures Compare(a, a) == 0
  {
    if a != [] {
      CompareReflexive(a[1..]);
    }
  }

  lemma {:induction false} CompareZeroIsEquality(a: seq<Byte>, b: seq<Byte>)
    ensures Compare(a, b) == 0 <==> a == b
  {
    if a == b {
      CompareReflexive(a);
    } else if a != [] && b != [] && a[0] == b[0] {
      CompareZeroIsEquality(a[1..], b[1..]);
      assert a == [a[0]] + a[1..] && b == [b[0]] + b[1..];
    }
  }

  lemma {:induction false} CompareAntisymmetric(a: seq<Byte>, b: seq<Byte>)
    ensures Compare(a, b) == -Compare(b, a)
  {
    if a != [] && b != [] && a[0] == b[0] {
      CompareAntisymmetric(a[1..], b[1..]);
    }
  }

  lemma {:induction false} CompareTransitive(a: seq<Byte>, b: seq<Byte>, c: seq<Byte>)
    requires Compare(a, b) < 0 && Compare(b, c) < 0
    ensures Compare(a, c) < 0
  {
    if a != [] && b != [] && c != [] && a[0] == b[0] && b[0] == c[0] {
      CompareTransitive(a[1..], b[1..], c[1..]);
    }
  }

  lemma LessThanIrreflexive(a: Endpoint)
    requires a.Valid()
    ensures !a.LessThan(a)
  {
    CompareReflexive(a.Raw());
  }

  lemma LessThanTransitive(a: Endpoint, b: Endpoint, c: Endpoint)
    requires a.Valid() && b.Valid() && c.Valid()
    requires a.LessThan(b) && b.LessThan(c)
    ensures a.LessThan(c)
  {
    if a.typ == b.typ == c.typ {
      CompareTransitive(a.Raw(), b.Raw(), c.Raw());
    }
  }

  /** Exactly one of a < b, b < a holds unless a and b have the same type and address bytes. */
  lemma LessThanTrichotomy(a: Endpoint, b: Endpoint)
    requires a.Valid() && b.Valid()
    ensures (a.typ == b.typ && a.Raw() == b.Raw()) <==> (!a.LessThan(b) && !b.LessThan(a))
    ensures !(a.LessThan(b) && b.LessThan(a))
  {
    CompareZeroIsEquality(a.Raw(), b.Raw());
    CompareAntisymmetric(a.Raw(), b.Raw());
  }

  /** Folding n <= 8 bytes puts byte i alone in byte lane i of the word. */
  lemma {:induction false} Fold8Lanes(buf: seq<Byte>, n: nat)
    requires n <= |buf| && n <= 8
    ensures Fold8(buf, n) == buf[..n] + Zeros(8 - n)
  {
    if n > 0 {
      Fold8Lanes(buf, n - 1);
      var prev := Fold8(buf, n - 1);
      var lane := ShiftLeftBytes(Widen(buf[n - 1]), n - 1);
      assert Fold8(buf, n) == Xor(prev, lane) by {
        assert (n - 1) % 8 == n - 1;
      }
      ShiftedByteLanes(buf[n - 1], n - 1);
      var want := buf[..n] + Zeros(8 - n);
      forall j | 0 <= j < 8
        ensures Xor(prev, lane)[j] == want[j]
      {
        XorZero(prev[j]);
        XorZero(lane[j]);
        if j < n - 1 {
          assert prev[j] == buf[j] && lane[j] == 0;
        } else if j == n - 1 {
          assert prev[j] == 0 && lane[j] == buf[j];
        } else {
          assert prev[j] == 0 && lane[j] == 0;
        }
      }
    }
  }

  /** Endpoint.FastHash is collision free on addresses of one length of at most 8 bytes. */
  lemma EndpointHashCollisionFree(a: Endpoint, b: Endpoint)
    requires a.Valid() && b.Valid() && a.len == b.len <= 8
    requires a.Raw() != b.Raw()
    ensures Fold8(a.Raw(), a.len) != Fold8(b.Raw(), b.len)
  {
    var n := a.len;
    Fold8Lanes(a.Raw(), n);
    Fold8Lanes(b.Raw(), n);
    assert a.Raw()[..n] == a.Raw() && b.Raw()[..n] == b.Raw();
    assert Fold8(a.Raw(), n)[..n] == a.Raw();
    assert Fold8(b.Raw(), n)[..n] == b.Raw();
  }

  /** The combining step does not depend on which word comes first. */
  lemma CombineSymmetric(a: uint64, b: uint64)
    ensures Combine(a, b) == Combine(b, a)
  {
    ValueInjective(a, b);
  }

  lemma ReverseInvolutive(f: Flow)
    requires f.Valid()
    ensures f.Reverse().Reverse() == f
    ensures f.Reverse().ZeroPadded() <==> f.ZeroPadded()
  {
  }

  /** A flow built from two endpoints gives them back, and reversing it swaps them. */
  lemma FlowFromEndpointsRoundTrip(s: Endpoint, d: Endpoint)
    requires s.Valid() && d.Valid() && s.typ == d.typ
    ensures var f := FlowFromEndpoints(s, d).value;
      f.Src() == s && f.Dst() == d && f.Reverse() == FlowFromEndpoints(d, s).value
  {
  }

  /** NewFlow agrees with pasting together the endpoints NewEndpoint builds. */
  lemma NewFlowFromNewEndpoints(t: EndpointType, src: seq<Byte>, dst: seq<Byte>)
    requires |src| <= MaxEndpointSize && |dst| <= MaxEndpointSize
    ensures NewFlow(t, src, dst) == FlowFromEndpoints(NewEndpoint(t, src).value, NewEndpoint(t, dst).value)
  {
  }

  /** Flow.FastHash collides with the reverse flow when both addresses have the same length. */
  lemma FlowHashReverseSymmetric(f: Flow)
    requires f.Valid() && f.slen == f.dlen
    ensures FlowHash(f.Reverse()) == FlowHash(f)
  {
    CombineSymmetric(Fold16(f.src, f.slen, f.slen), Fold16(f.dst, f.slen, f.slen));
  }

  /**
   * With addresses of different lengths a flow and its reverse can hash
   * differently: a 1-byte source 01 and a 2-byte destination 00 00, which
   * NewFlow builds (see NewFlowAsymmetricWitness), hash to the word of
   * value 1 one way and to that word shifted left by 16 bits, of value
   * 0x10000 (ShiftLeftBytesValue), the other way.
   */
  lemma FlowHashAsymmetric(f: Flow)
    requires f.Valid() && f.slen == 1 && f.dlen == 2
    requires f.src[0] == 1 && f.src[1] == 0 && f.dst[0] == 0 && f.dst[1] == 0
    ensures FlowHash(f) == Widen(1)
    ensures FlowHash(f.Reverse()) == ShiftLeftBytes(Widen(1), 2)
  {
    var one := Widen(f.src[0]);
    var high := ShiftLeftBytes(one, 2);
    assert FlowHash(f) == one by {
      WidenZero();
      Fold16First(f.src, 1);
      Fold16First(f.dst, 1);
      CombineZero(one);
    }
    assert FlowHash(f.Reverse()) == high by {
      WidenZero();
      ShiftZero(2);
      Fold16TwoBytes(f.src);
      Fold16TwoBytes(f.dst);
      CombineZero(high);
    }
  }

  /** The two hashes of FlowHashAsymmetric as numbers: 1 and 0x10000. */
  lemma AsymmetricHashValues()
    ensures Value(Widen(1)) == 1 && Value(ShiftLeftBytes(Widen(1), 2)) == 0x1_0000
  {
    WidenValue(1);
    ShiftLeftBytesValue(Widen(1), 2);
  }

  /** The zero word is an identity of the combining step, on either side. */
  lemma CombineZero(a: uint64)
    ensures Combine(a, Zero) == a && Combine(Zero, a) == a
  {
    ZeroValue();
    ShiftZero(1);
    AddZero(a, Zero);
    if Value(a) == 0 {
      ValueInjective(a, Zero);
    }
  }

  /** The first byte folded in (the last of the address) lands unshifted. */
  lemma Fold16First(buf: seq<Byte>, last: nat)
    requires 1 <= last <= |buf|
    ensures Fold16(buf, last, 1) == Widen(buf[last - 1])
  {
    var w := Widen(buf[last - 1]);
    Fold16Step(buf, last, 0);
    ShiftByZero(w);
    XorZeroLeft(w);
  }

  /** A two-byte address ending in a zero byte folds to its first byte shifted into the second lane. */
  lemma Fold16TwoBytes(buf: seq<Byte>)
    requires 2 <= |buf| && buf[1] == 0
    ensures Fold16(buf, 2, 2) == ShiftLeftBytes(Widen(buf[0]), 2)
  {
    Fold16First(buf, 2);
    WidenZero();
    var high := ShiftLeftBytes(Widen(buf[0]), 2);
    Fold16Step(buf, 2, 1);
    XorZeroLeft(high);
  }

  lemma NewFlowAsymmetricWitness()
    ensures NewFlow(1, [1], [0, 0]).Success?
    ensures var f := NewFlow(1, [1], [0, 0]).value;
      FlowHash(f) != FlowHash(f.Reverse())
  {
    var f := NewFlow(1, [1], [0, 0]).value;
    FlowHashAsymmetric(f);
    assert ShiftLeftBytes(Widen(1), 2)[0] == 0;
  }

  /** Folding each address over its own length makes every flow hash like its reverse. */
  lemma FlowHashPerSideSymmetric(f: Flow)
    requires f.Valid()
    ensures FlowHashPerSide(f.Reverse()) == FlowHashPerSide(f)
  {
    CombineSymmetric(Fold16(f.src, f.slen, f.slen), Fold16(f.dst, f.dlen, f.dlen));
  }

  /** The per-side hash is the written one whenever the guarantee of the written one holds. */
  lemma FlowHashPerSideAgrees(f: Flow)
    requires f.Valid() && f.slen == f.dlen
    ensures FlowHashPerSide(f) == FlowHash(f)
  {
  }

  // ----------------------------------------------------------------------
  // Collision freedom of Flow.FastHash for addresses of up to 32 bits
  // ----------------------------------------------------------------------

  /** The word holding buf[last-1-i] in byte lane 2i for i < n, and zero in every other lane. */
  function Spread(buf: seq<Byte>, last: nat, n: nat): uint64
    requires n <= last <= |buf| && n <= 4
  {
    seq(8, j requires 0 <= j < 8 => if j % 2 == 0 && j / 2 < n then buf[last - 1 - j / 2] else 0)
  }

  /** A word whose odd byte lanes are zero. */
  predicate EvenLanes(w: uint64) {
    forall j | 0 <= j < 8 && j % 2 == 1 :: w[j] == 0
  }

  /** The even lanes of `x` with the even lanes of `y` moved up into the odd ones. */
  function Interleave(x: uint64, y: uint64): uint64 {
    seq(8, j requires 0 <= j < 8 => if j % 2 == 0 then x[j] else y[j - 1])
  }

  /** Folding n <= 4 bytes into 16-bit lanes puts each byte alone in the low byte of its lane. */
  lemma {:induction false} Fold16Lanes(buf: seq<Byte>, last: nat, n: nat)
    requires n <= last <= |buf| && n <= 4
    ensures Fold16(buf, last, n) == Spread(buf, last, n)
  {
    if n == 0 {
      assert forall j | 0 <= j < 8 :: Spread(buf, last, 0)[j] == 0;
    } else {
      Fold16Lanes(buf, last, n - 1);
      Fold16Step(buf, last, n - 1);
      var prev := Spread(buf, last, n - 1);
      var b := buf[last - n];
      var lane := ShiftLeftBytes(Widen(b), 2 * (n - 1));
      assert (n - 1) % 4 == n - 1;
      ShiftedByteLanes(b, 2 * (n - 1));
      var want := Spread(buf, last, n);
      forall j | 0 <= j < 8
        ensures Xor(prev, lane)[j] == want[j]
      {
        XorZero(prev[j]);
        XorZero(lane[j]);
      }
    }
  }

  /** Different bytes fold to different spread words. */
  lemma SpreadInjective(a: seq<Byte>, b: seq<Byte>, n: nat)
    requires n <= |a| && n <= |b| && n <= 4
    requires Spread(a, n, n) == Spread(b, n, n)
    ensures a[..n] == b[..n]
  {
    forall k | 0 <= k < n
      ensures a[k] == b[k]
    {
      var j := 2 * (n - 1 - k);
      assert Spread(a, n, n)[j] == a[k];
      assert Spread(b, n, n)[j] == b[k];
    }
  }

  /** With both words in the even lanes the smaller, shifted left by 8, fills the odd lanes and nothing carries. */
  lemma AddShiftedInterleaves(x: uint64, y: uint64)
    requires EvenLanes(x) && EvenLanes(y)
    ensures Add(x, ShiftLeftBytes(y, 1)) == Interleave(x, y)
  {
    var s := ShiftLeftBytes(y, 1);
    ShiftedIntoOddLanes(y);
    AddDisjoint(x, s);
    forall j | 0 <= j < 8
      ensures Xor(x, s)[j] == Interleave(x, y)[j]
    {
      XorZero(x[j]);
      XorZero(s[j]);
    }
  }

  /** An even-lane word shifted left by 8 has its even lanes zero. */
  lemma ShiftedIntoOddLanes(y: uint64)
    requires EvenLanes(y)
    ensures forall j | 0 <= j < 8 && j % 2 == 0 :: ShiftLeftBytes(y, 1)[j] == 0
  {
  }

  /** Interleaving even-lane words loses nothing: both words can be read back. */
  lemma InterleaveInjective(x1: uint64, y1: uint64, x2: uint64, y2: uint64)
    requires EvenLanes(x1) && EvenLanes(y1) && EvenLanes(x2) && EvenLanes(y2)
    requires Interleave(x1, y1) == Interleave(x2, y2)
    ensures x1 == x2 && y1 == y2
  {
    forall j | 0 <= j < 8
      ensures x1[j] == x2[j] && y1[j] == y2[j]
    {
      if j % 2 == 0 {
        assert Interleave(x1, y1)[j] == x1[j] && Interleave(x2, y2)[j] == x2[j];
        assert Interleave(x1, y1)[j + 1] == y1[j] && Interleave(x2, y2)[j + 1] == y2[j];
      }
    }
  }

  /** On even-lane words the combining step interleaves the larger word with the smaller. */
  lemma CombineInterleaves(a: uint64, b: uint64)
    requires EvenLanes(a) && EvenLanes(b)
    ensures Value(a) > Value(b) ==> Combine(a, b) == Interleave(a, b)
    ensures Value(a) <= Value(b) ==> Combine(a, b) == Interleave(b, a)
  {
    if Value(a) > Value(b) {
      AddShiftedInterleaves(a, b);
    } else {
      AddShiftedInterleaves(b, a);
    }
  }

  /** The two folds of a flow whose addresses are n <= 4 bytes long. */
  lemma FlowFolds(f: Flow, n: nat)
    requires f.Valid() && f.slen == f.dlen == n <= 4
    ensures Fold16(f.src, n, n) == Spread(f.src, n, n) && EvenLanes(Spread(f.src, n, n))
    ensures Fold16(f.dst, n, n) == Spread(f.dst, n, n) && EvenLanes(Spread(f.dst, n, n))
  {
    Fold16Lanes(f.src, n, n);
    Fold16Lanes(f.dst, n, n);
  }

  /**
   * Flow.FastHash as written is collision free on addresses of one length of
   * at most 32 bits: flows with equal hashes have the same two addresses, in
   * the same or in the reverse order.
   */
  lemma FlowHashCollisionFree(f: Flow, g: Flow)
    requires f.Valid() && g.Valid()
    requires f.slen == f.dlen == g.slen == g.dlen <= 4
    requires FlowHash(f) == FlowHash(g)
    ensures (f.Src().Raw() == g.Src().Raw() && f.Dst().Raw() == g.Dst().Raw()) ||
            (f.Src().Raw() == g.Dst().Raw() && f.Dst().Raw() == g.Src().Raw())
  {
    var n := f.slen;
    FlowFolds(f, n);
    FlowFolds(g, n);
    var a, b := Spread(f.src, n, n), Spread(f.dst, n, n);
    var c, d := Spread(g.src, n, n), Spread(g.dst, n, n);
    CombineInterleaves(a, b);
    CombineInterleaves(c, d);
    var hi1, lo1 := if Value(a) > Value(b) then a else b, if Value(a) > Value(b) then b else a;
    var hi2, lo2 := if Value(c) > Value(d) then c else d, if Value(c) > Value(d) then d else c;
    InterleaveInjective(hi1, lo1, hi2, lo2);
    if a == c && b == d {
      SpreadInjective(f.src, g.src, n);
      SpreadInjective(f.dst, g.dst, n);
    } else {
      assert a == d && b == c;
      SpreadInjective(f.src, g.dst, n);
      SpreadInjective(f.dst, g.src, n);
    }
  }

  /**
   * Across lengths the guarantee fails: a 1-byte flow 05 -> 07 and a 2-byte
   * flow 00 05 -> 00 07 hash alike, though neither address of one is an
   * address of the other.
   */
  lemma FlowHashLengthCollision()
    ensures NewFlow(1, [5], [7]).Success? && NewFlow(1, [0, 5], [0, 7]).Success?
    ensures var f, g := NewFlow(1, [5], [7]).value, NewFlow(1, [0, 5], [0, 7]).value;
      FlowHash(f) == FlowHash(g) &&
      f.Src().Raw() != g.Src().Raw() && f.Src().Raw() != g.Dst().Raw() &&
      f.Dst().Raw() != g.Src().Raw() && f.Dst().Raw() != g.Dst().Raw()
  {
    var f, g := NewFlow(1, [5], [7]).value, NewFlow(1, [0, 5], [0, 7]).value;
    FlowFolds(f, 1);
    FlowFolds(g, 2);
    assert Spread(f.src, 1, 1) == Spread(g.src, 2, 2);
    assert Spread(f.dst, 1, 1) == Spread(g.dst, 2, 2);
  }

  /** For constructed (zero-padded) flows, struct equality, and so map-key identity, is equality of type and both addresses. */
  lemma FlowEquality(f: Flow, g: Flow)
    requires f.Valid() && g.Valid() && f.ZeroPadded() && g.ZeroPadded()
    ensures f == g <==> (f.typ == g.typ && f.Src().Raw() == g.Src().Raw() && f.Dst().Raw() == g.Dst().Raw())
  {
    EndpointEquality(f.Src(), g.Src());
    EndpointEquality(f.Dst(), g.Dst());
  }
}
