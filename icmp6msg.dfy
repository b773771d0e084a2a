/**
 * ICMPv6 Neighbor Discovery message bodies and their option list, as defined
 * in RFC 4861 (sections 4.1 to 4.6), decoded into objects whose fields the
 * decoders overwrite (layers/icmp6msg.go).
 */
module ICMPv6Msg {
  import opened Wrappers
  import opened Bytes
  import BigEndian

  /** The decode feedback a layer uses to report input that was cut short. */
  class DecodeFeedback {
    var truncated: bool

    constructor ()
      ensures !truncated
    {
      truncated := false;
    }

    method SetTruncated()
      modifies this
      ensures truncated
    {
      truncated := true;
    }
  }

  /** The type octet of a Neighbor Discovery option (RFC 4861 section 4.6). */
  type ICMPv6Opt = Byte

  const OptSourceAddress: ICMPv6Opt := 1
  const OptTargetAddress: ICMPv6Opt := 2
  const OptPrefixInfo: ICMPv6Opt := 3
  const OptRedirectedHeader: ICMPv6Opt := 4
  const OptMTU: ICMPv6Opt := 5

  /** One option: its type, its total length in bytes and the bytes after its two-byte header. */
  datatype ICMPv6Option = ICMPv6Option(optType: ICMPv6Opt, length: int, data: seq<Byte>)

  datatype DecodeError =
    | MessageTooShort(minimum: nat)
    | OptionHeaderTruncated
    | OptionTruncated(available: nat, length: nat)
    | ZeroLengthOption

  /** Every error but a zero option length is reported as truncation. */
  predicate ReportsTruncation(err: Option<DecodeError>) {
    err.Some? && !err.value.ZeroLengthOption?
  }

  /** The fixed part of each message body, before its options. */
  const RouterSolicitationMin: nat := 4
  const RouterAdvertisementMin: nat := 12
  const NeighborSolicitationMin: nat := 20
  const NeighborAdvertisementMin: nat := 20
  const RedirectMin: nat := 36

  // ----------------------------------------------------------------------
  // The option list (RFC 4861 section 4.6)
  // ----------------------------------------------------------------------

  /** An option as the wire can carry it: a non-zero count of 8-octet units, its data filling the rest. */
  predicate WellFormed(o: ICMPv6Option) {
    8 <= o.length <= 255 * 8 && o.length % 8 == 0 && |o.data| == o.length - 2
  }

  /** The option length in bytes that a length octet (a count of 8-octet units) stands for. */
  function OptionLength(units: Byte): (n: nat)
    ensures n % 8 == 0 && n <= 255 * 8 && (n == 0 <==> units == 0)
  {
    units as int * 8
  }

  /** The length octet for a length in bytes. */
  function LengthUnits(length: int): (units: Byte)
    requires 8 <= length <= 255 * 8 && length % 8 == 0
    ensures OptionLength(units) == length
  {
    (length / 8) as Byte
  }

  lemma LengthUnitsRoundTrip(units: Byte)
    requires units != 0
    ensures LengthUnits(OptionLength(units)) == units
  {
    assert OptionLength(units) / 8 == units as int;
  }

  function EncodeOption(o: ICMPv6Option): (b: seq<Byte>)
    requires WellFormed(o)
    ensures |b| == o.length && OptionLength(b[1]) == o.length
  {
    [o.optType, LengthUnits(o.length)] + o.data
  }

  function TotalLength(os: seq<ICMPv6Option>): int {
    if os == [] then 0 else os[0].length + TotalLength(os[1..])
  }

  function EncodeOptions(os: seq<ICMPv6Option>): (b: seq<Byte>)
    requires forall i | 0 <= i < |os| :: WellFormed(os[i])
    ensures |b| == TotalLength(os)
  {
    if os == [] then [] else EncodeOption(os[0]) + EncodeOptions(os[1..])
  }

  /** The options read from `data` and the error that stopped the reading, if any. */
  datatype OptionsParse = OptionsParse(options: seq<ICMPv6Option>, err: Option<DecodeError>)

  /**
   * The option loop with a zero length byte rejected: the options are read
   * front to back and what they encode is always a prefix of the input, the
   * whole input when no error stops the loop.
   */
  function ParseOptions(data: seq<Byte>): (r: OptionsParse)
    ensures forall i | 0 <= i < |r.options| :: WellFormed(r.options[i])
    ensures 0 <= TotalLength(r.options) <= |data|
    decreases |data|
  {
    if |data| == 0 then OptionsParse([], None)
    else if |data| < 2 then OptionsParse([], Some(OptionHeaderTruncated))
    else
      var length := OptionLength(data[1]);
      if |data| < length then OptionsParse([], Some(OptionTruncated(|data|, length)))
      else if length == 0 then OptionsParse([], Some(ZeroLengthOption))
      else
        var o := ICMPv6Option(data[0], length, data[2..length]);
        var rest := ParseOptions(data[length..]);
        OptionsParse([o] + rest.options, rest.err)
  }

  /** The ICMPv6Options slice a message decoder appends to. */
  class ICMPv6Options {
    var items: seq<ICMPv6Option>

    constructor ()
      ensures items == []
    {
      items := [];
    }

    /**
     * Appends the options of `data` one by one; on an error the options read
     * before it stay appended.
     */
    method DecodeFromBytes(data: seq<Byte>, df: DecodeFeedback) returns (err: Option<DecodeError>)
      modifies this, df
      ensures items == old(items) + ParseOptions(data).options
      ensures err == ParseOptions(data).err
      ensures df.truncated == (old(df.truncated) || ReportsTruncation(err))
    {
      var rest := data;
      while |rest| > 0
        invariant items + ParseOptions(rest).options == old(items) + ParseOptions(data).options
        invariant ParseOptions(rest).err == ParseOptions(data).err
        invariant df.truncated == old(df.truncated)
        decreases |rest|
      {
        if |rest| < 2 {
          df.SetTruncated();
          return Some(OptionHeaderTruncated);
        }
        var length := OptionLength(rest[1]);
        if |rest| < length {
          df.SetTruncated();
          return Some(OptionTruncated(|rest|, length));
        }
        if length == 0 {
          // RFC 4861 section 4.6: an option of length zero means the packet is discarded.
          return Some(ZeroLengthOption);
        }
        var o := ICMPv6Option(rest[0], length, rest[2..length]);
        var next := rest[length..];
        assert ParseOptions(rest) == OptionsParse([o] + ParseOptions(next).options, ParseOptions(next).err);
        assert (items + [o]) + ParseOptions(next).options == items + ([o] + ParseOptions(next).options);
        rest := next;
        items := items + [o];
      }
      return None;
    }
  }

  /** One turn of the option loop exactly as the Go code takes it. */
  datatype GoOptionStep =
    | Stop(err: DecodeError)
    | SlicePanic(low: int, high: int)
    | Next(option: ICMPv6Option, rest: seq<Byte>)

  /**
   * The Go loop body on a non-empty remainder: the length check passes for a
   * zero length byte, and the slice data[2:0] that follows is out of range.
   */
  function GoOptionLoopStep(data: seq<Byte>): GoOptionStep
    requires |data| > 0
  {
    if |data| < 2 then Stop(OptionHeaderTruncated)
    else
      var length := OptionLength(data[1]);
      if |data| < length then Stop(OptionTruncated(|data|, length))
      else if !(2 <= length <= |data|) then SlicePanic(2, length)
      else Next(ICMPv6Option(data[0], length, data[2..length]), data[length..])
  }

  // ----------------------------------------------------------------------
  // Message bodies (RFC 4861 sections 4.1 to 4.5)
  // ----------------------------------------------------------------------

  /** Router Solicitation: 4 reserved bytes, then options. */
  class ICMPv6RouterSolicitation {
    const options: ICMPv6Options

    constructor ()
      ensures fresh(options) && options.items == []
    {
      options := new ICMPv6Options();
    }

    method DecodeFromBytes(data: seq<Byte>, df: DecodeFeedback) returns (err: Option<DecodeError>)
      modifies options, df
      ensures |data| < RouterSolicitationMin ==>
        err == Some(MessageTooShort(RouterSolicitationMin)) && df.truncated && options.items == old(options.items)
      ensures |data| >= RouterSolicitationMin ==>
        var p := ParseOptions(data[RouterSolicitationMin..]);
        options.items == p.options && err == p.err &&
        df.truncated == (old(df.truncated) || ReportsTruncation(err))
    {
      if |data| < RouterSolicitationMin {
        df.SetTruncated();
        return Some(MessageTooShort(RouterSolicitationMin));
      }
      options.items := [];
      err := options.DecodeFromBytes(data[RouterSolicitationMin..], df);
    }
  }

  /** Router Advertisement: hop limit, M/O flags, router lifetime, reachable time, retransmission timer, options. */
  class ICMPv6RouterAdvertisement {
    var hopLimit: Byte
    var flags: Byte
    var routerLifetime: BigEndian.uint16
    var reachableTime: BigEndian.uint32
    var retransTimer: BigEndian.uint32
    const options: ICMPv6Options

    constructor ()
      ensures fresh(options) && options.items == []
      ensures hopLimit == 0 && flags == 0 && routerLifetime == 0 && reachableTime == 0 && retransTimer == 0
    {
      hopLimit, flags := 0, 0;
      routerLifetime, reachableTime, retransTimer := 0, 0, 0;
      options := new ICMPv6Options();
    }

    method DecodeFromBytes(data: seq<Byte>, df: DecodeFeedback) returns (err: Option<DecodeError>)
      modifies this, options, df
      ensures |data| < RouterAdvertisementMin ==>
        err == Some(MessageTooShort(RouterAdvertisementMin)) && df.truncated &&
        unchanged(this) && options.items == old(options.items)
      ensures |data| >= RouterAdvertisementMin ==>
        hopLimit == data[0] && flags == data[1] &&
        routerLifetime == BigEndian.Uint16(data[2..4]) &&
        reachableTime == BigEndian.Uint32(data[4..8]) &&
        retransTimer == BigEndian.Uint32(data[8..12]) &&
        var p := ParseOptions(data[RouterAdvertisementMin..]);
        options.items == p.options && err == p.err &&
        df.truncated == (old(df.truncated) || ReportsTruncation(err))
    {
      if |data| < RouterAdvertisementMin {
        df.SetTruncated();
        return Some(MessageTooShort(RouterAdvertisementMin));
      }
      hopLimit := data[0];
      flags := data[1];
      routerLifetime := BigEndian.Uint16(data[2..4]);
      reachableTime := BigEndian.Uint32(data[4..8]);
      retransTimer := BigEndian.Uint32(data[8..12]);
      options.items := [];
      err := options.DecodeFromBytes(data[RouterAdvertisementMin..], df);
    }

    /** As written: the masked M bit is compared with 1, which it never equals. */
    function ManagedAddressConfig(): (r: bool)
      reads this
      ensures r
    {
      AndByte(flags, 0x80) != 1
    }

    /** As written: the masked O bit is compared with 1, which it never equals. */
    function OtherConfig(): (r: bool)
      reads this
      ensures r
    {
      AndByte(flags, 0x40) != 1
    }

    /** The M ("managed address configuration") flag, the top bit of the flags byte. */
    function ManagedFlag(): (r: bool)
      reads this
      ensures r <==> flags as int >= 0x80
    {
      AndByte(flags, 0x80) != 0
    }

    /** The O ("other configuration") flag, the second bit of the flags byte. */
    function OtherConfigFlag(): (r: bool)
      reads this
      ensures r <==> (flags as int / 0x40) % 2 == 1
    {
      AndByte(flags, 0x40) != 0
    }
  }

  /** Neighbor Solicitation: 4 reserved bytes, the 16-byte target address, options. */
  class ICMPv6NeighborSolicitation {
    var targetAddress: seq<Byte>
    const options: ICMPv6Options

    constructor ()
      ensures fresh(options) && options.items == [] && targetAddress == []
    {
      targetAddress := [];
      options := new ICMPv6Options();
    }

    method DecodeFromBytes(data: seq<Byte>, df: DecodeFeedback) returns (err: Option<DecodeError>)
      modifies this, options, df
      ensures |data| < NeighborSolicitationMin ==>
        err == Some(MessageTooShort(NeighborSolicitationMin)) && df.truncated &&
        unchanged(this) && options.items == old(options.items)
      ensures |data| >= NeighborSolicitationMin ==>
        targetAddress == data[4..20] &&
        var p := ParseOptions(data[NeighborSolicitationMin..]);
        options.items == p.options && err == p.err &&
        df.truncated == (old(df.truncated) || ReportsTruncation(err))
    {
      if |data| < NeighborSolicitationMin {
        df.SetTruncated();
        return Some(MessageTooShort(NeighborSolicitationMin));
      }
      targetAddress := data[4..20];
      options.items := [];
      err := options.DecodeFromBytes(data[NeighborSolicitationMin..], df);
    }
  }

  /** Neighbor Advertisement: R/S/O flags, 3 reserved bytes, the 16-byte target address, options. */
  class ICMPv6NeighborAdvertisement {
    var flags: Byte
    var targetAddress: seq<Byte>
    const options: ICMPv6Options

    constructor ()
      ensures fresh(options) && options.items == [] && flags == 0 && targetAddress == []
    {
      flags := 0;
      targetAddress := [];
      options := new ICMPv6Options();
    }

    method DecodeFromBytes(data: seq<Byte>, df: DecodeFeedback) returns (err: Option<DecodeError>)
      modifies this, options, df
      ensures |data| < NeighborAdvertisementMin ==>
        err == Some(MessageTooShort(NeighborAdvertisementMin)) && df.truncated &&
        unchanged(this) && options.items == old(options.items)
      ensures |data| >= NeighborAdvertisementMin ==>
        flags == data[0] && targetAddress == data[4..20] &&
        var p := ParseOptions(data[NeighborAdvertisementMin..]);
        options.items == p.options && err == p.err &&
        df.truncated == (old(df.truncated) || ReportsTruncation(err))
    {
      if |data| < NeighborAdvertisementMin {
        df.SetTruncated();
        return Some(MessageTooShort(NeighborAdvertisementMin));
      }
      flags := data[0];
      targetAddress := data[4..20];
      options.items := [];
      err := options.DecodeFromBytes(data[NeighborAdvertisementMin..], df);
    }

    /** R: the sender is a router (the top bit). */
    function Router(): (r: bool)
      reads this
      ensures r <==> flags as int >= 0x80
    {
      AndByte(flags, 0x80) != 0
    }

    /** S: sent in response to a Neighbor Solicitation (the second bit). */
    function Solicited(): (r: bool)
      reads this
      ensures r <==> (flags as int / 0x40) % 2 == 1
    {
      AndByte(flags, 0x40) != 0
    }

    /** O: the advertisement overrides a cached link-layer address (the third bit). */
    function Override(): (r: bool)
      reads this
      ensures r <==> (flags as int / 0x20) % 2 == 1
    {
      AndByte(flags, 0x20) != 0
    }
  }

  /** Redirect: 4 reserved bytes, the target and destination addresses (16 bytes each), options. */
  class ICMPv6Redirect {
    var targetAddress: seq<Byte>
    var destinationAddress: seq<Byte>
    const options: ICMPv6Options

    constructor ()
      ensures fresh(options) && options.items == [] && targetAddress == [] && destinationAddress == []
    {
      targetAddress, destinationAddress := [], [];
      options := new ICMPv6Options();
    }

    method DecodeFromBytes(data: seq<Byte>, df: DecodeFeedback) returns (err: Option<DecodeError>)
      modifies this, options, df
      ensures |data| < RedirectMin ==>
        err == Some(MessageTooShort(RedirectMin)) && df.truncated &&
        unchanged(this) && options.items == old(options.items)
      ensures |data| >= RedirectMin ==>
        targetAddress == data[4..20] && destinationAddress == data[20..36] &&
        var p := ParseOptions(data[RedirectMin..]);
        options.items == p.options && err == p.err &&
        df.truncated == (old(df.truncated) || ReportsTruncation(err))
    {
      if |data| < RedirectMin {
        df.SetTruncated();
        return Some(MessageTooShort(RedirectMin));
      }
      targetAddress := data[4..20];
      destinationAddress := data[20..36];
      options.items := [];
      err := options.DecodeFromBytes(data[RedirectMin..], df);
    }
  }

  // ----------------------------------------------------------------------
  // Properties
  // ----------------------------------------------------------------------

  /**
   * What the options read encode is always a prefix of the input, and the
   * whole input exactly when no error stopped the loop.
   */
  lemma {:induction false} ParseOptionsPrefix(data: seq<Byte>)
    ensures var r := ParseOptions(data);
      EncodeOptions(r.options) <= data && (r.err.None? <==> EncodeOptions(r.options) == data)
    decreases |data|
  {
    var r := ParseOptions(data);
    if |data| >= 2 && data[1] != 0 && |data| >= OptionLength(data[1]) {
      var length := OptionLength(data[1]);
      var rest := data[length..];
      var tail := ParseOptions(rest);
      ParseOptionsPrefix(rest);
      ParseOptionsStep(data);
      assert data == data[..length] + rest;
      PrefixTransfer(EncodeOptions(r.options), data, data[..length], EncodeOptions(tail.options), rest,
        r.err.None?, tail.err.None?);
    } else {
      assert r.options == [];
    }
  }

  /**
   * A common front keeps the prefix order and cancels from equality: if
   * `e` and `data` share the front `p` and continue with `te` and `rest`,
   * what holds of `te` and `rest` holds of `e` and `data`.
   */
  lemma PrefixTransfer(e: seq<Byte>, data: seq<Byte>, p: seq<Byte>, te: seq<Byte>, rest: seq<Byte>, ok: bool, restOk: bool)
    requires e == p + te && data == p + rest && ok == restOk
    requires te <= rest && (restOk <==> te == rest)
    ensures e <= data && (ok <==> e == data)
  {
    if e == data {
      assert te == e[|p|..] && rest == data[|p|..];
    }
    assert data[..|e|] == e;
  }

  /** One option read: it encodes to the first `length` bytes, and the rest is read from what follows. */
  lemma ParseOptionsStep(data: seq<Byte>)
    requires |data| >= 2 && data[1] != 0 && |data| >= OptionLength(data[1])
    ensures var length := OptionLength(data[1]);
      var r := ParseOptions(data);
      var tail := ParseOptions(data[length..]);
      r.err == tail.err &&
      EncodeOptions(r.options) == data[..length] + EncodeOptions(tail.options)
  {
    var length := OptionLength(data[1]);
    var r := ParseOptions(data);
    var tail := ParseOptions(data[length..]);
    assert r.options[1..] == tail.options;
    assert r.options[0] == ICMPv6Option(data[0], length, data[2..length]);
    EncodeHeadOption(data);
  }

  lemma EncodeHeadOption(data: seq<Byte>)
    requires |data| >= 2 && data[1] != 0 && |data| >= OptionLength(data[1])
    ensures var length := OptionLength(data[1]);
      EncodeOption(ICMPv6Option(data[0], length, data[2..length])) == data[..length]
  {
    var length := OptionLength(data[1]);
    LengthUnitsRoundTrip(data[1]);
    assert LengthUnits(length) == data[1];
    assert [data[0], data[1]] + data[2..length] == data[..length];
  }

  /** Decoding the encoding of well-formed options gives them back with no error. */
  lemma {:induction false} ParseEncodeRoundTrip(os: seq<ICMPv6Option>)
    requires forall i | 0 <= i < |os| :: WellFormed(os[i])
    ensures ParseOptions(EncodeOptions(os)) == OptionsParse(os, None)
  {
    if os != [] {
      var o := os[0];
      var data := EncodeOptions(os);
      var head := EncodeOption(o);
      assert data == head + EncodeOptions(os[1..]);
      assert OptionLength(data[1]) == o.length;
      assert data[o.length..] == EncodeOptions(os[1..]) && data[2..o.length] == o.data;
      ParseEncodeRoundTrip(os[1..]);
      assert [o] + os[1..] == os;
    }
  }

  /**
   * The input decodes without error exactly when it is a concatenation of
   * well-formed options, and then their lengths add up to the input length.
   */
  lemma ParseSucceedsIffConcatenation(data: seq<Byte>)
    ensures ParseOptions(data).err.None? <==>
      exists os: seq<ICMPv6Option> :: (forall i | 0 <= i < |os| :: WellFormed(os[i])) && EncodeOptions(os) == data
    ensures ParseOptions(data).err.None? ==> TotalLength(ParseOptions(data).options) == |data|
  {
    ParseOptionsPrefix(data);
    if exists os: seq<ICMPv6Option> :: (forall i | 0 <= i < |os| :: WellFormed(os[i])) && EncodeOptions(os) == data {
      var os: seq<ICMPv6Option> :| (forall i | 0 <= i < |os| :: WellFormed(os[i])) && EncodeOptions(os) == data;
      ParseEncodeRoundTrip(os);
    }
  }

  /**
   * Where the loop stops on an error: the bytes after the options read are
   * non-empty, and the error names what is wrong with the option they start.
   */
  lemma {:induction false} ParseErrorCause(data: seq<Byte>)
    requires ParseOptions(data).err.Some?
    ensures var r := ParseOptions(data);
      var rest := data[TotalLength(r.options)..];
      |rest| > 0 &&
      (r.err.value == OptionHeaderTruncated <==> |rest| < 2) &&
      (|rest| >= 2 ==>
        (r.err.value == OptionTruncated(|rest|, OptionLength(rest[1])) <==> |rest| < OptionLength(rest[1])) &&
        (r.err.value == ZeroLengthOption <==> rest[1] == 0))
    decreases |data|
  {
    if |data| >= 2 && data[1] != 0 && |data| >= OptionLength(data[1]) {
      var length := OptionLength(data[1]);
      var r := ParseOptions(data);
      var tail := ParseOptions(data[length..]);
      ParseErrorCause(data[length..]);
      assert r.options[1..] == tail.options;
      assert TotalLength(r.options) == length + TotalLength(tail.options);
      assert data[TotalLength(r.options)..] == data[length..][TotalLength(tail.options)..];
    }
  }

  /** Every option read advances the cursor by at least 8 bytes, so the loop ends after at most |data| / 8 options. */
  lemma {:induction false} ParseProgress(data: seq<Byte>)
    ensures 8 * |ParseOptions(data).options| <= |data|
    decreases |data|
  {
    if |data| >= 2 && |data| >= OptionLength(data[1]) && data[1] != 0 {
      ParseProgress(data[OptionLength(data[1])..]);
    }
  }

  /**
   * The Go loop reaches an out-of-range slice exactly when the length byte
   * is zero; and the cursor update that would follow does not move.
   */
  lemma GoLoopPanicsOnZeroLength(data: seq<Byte>)
    requires |data| > 0
    ensures GoOptionLoopStep(data).SlicePanic? <==> |data| >= 2 && data[1] == 0
    ensures |data| >= 2 && data[1] == 0 ==> !(|data| < OptionLength(data[1])) && data[OptionLength(data[1])..] == data
  {
  }

  /** Off the zero-length case the Go loop body is the corrected decoder's step. */
  lemma GoLoopAgreesOtherwise(data: seq<Byte>)
    requires |data| > 0 && !(|data| >= 2 && data[1] == 0)
    ensures var step := GoOptionLoopStep(data);
      var r := ParseOptions(data);
      (step.Stop? ==> r == OptionsParse([], Some(step.err))) &&
      (step.Next? ==>
        |step.rest| < |data| && r.options == [step.option] + ParseOptions(step.rest).options &&
        r.err == ParseOptions(step.rest).err)
  {
  }

  /** ManagedAddressConfig and OtherConfig report true on a flags byte with neither bit set. */
  lemma RouterAdvertisementFlagsIgnored(ra: ICMPv6RouterAdvertisement)
    requires ra.flags == 0
    ensures ra.ManagedAddressConfig() && !ra.ManagedFlag()
    ensures ra.OtherConfig() && !ra.OtherConfigFlag()
  {
  }
}
