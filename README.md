# gopacket flows and ICMPv6 Neighbor Discovery, modelled in Dafny

This project models two parts of gopacket, the Go packet-decoding library.

**Flows.** An `Endpoint` is a typed network address. It is held in a fixed
16-byte array together with the number of bytes that count. A `Flow` is a
source/destination pair of same-typed addresses. The model covers:

- their bounded constructors;
- the total order `LessThan`;
- `Reverse`;
- the two XOR-fold hashes `FastHash`;
- the process-wide registry that gives endpoint types their names.

**ICMPv6 Neighbor Discovery.** These are the decoders for the five message
bodies of RFC 4861:

- Router Solicitation (section 4.1);
- Router Advertisement (section 4.2);
- Neighbor Solicitation (section 4.3);
- Neighbor Advertisement (section 4.4);
- Redirect (section 4.5).

Each decoder hands its tail to the type-length-value option loop of
section 4.6. That loop is modelled too, along with the flag accessors.

Files:

- `flows.dfy` (module `Flows`): `Endpoint` and `Flow` as datatypes. Their
  `FastHash` loops are methods proved against fold functions. The loop of
  `Flow.FastHash` is the method `FoldAddresses`, and the combining step that
  follows it stays in `FastHash`. The registry is a class holding a map.
- `icmp6msg.dfy` (module `ICMPv6Msg`): the message structs and the option
  slice as classes whose `DecodeFromBytes` methods overwrite their fields.
  The decode feedback is an object with a `truncated` flag. The option loop
  is proved against the recursive specification `ParseOptions`, which has an
  encoder as its partner.
- `uint64.dfy` (module `Uint64`): Go `uint64` arithmetic. A word is held as
  its eight bytes, least significant first, and `Value` gives the number it
  stands for:
  - addition wraps around modulo 2^64;
  - a left shift by whole bytes moves the bytes up and drops those shifted out;
  - exclusive-or acts on each byte separately.
- `bytes.dfy` (module `Bytes`): an octet as a number from 0 to 255, with
  exclusive-or on its binary digits and masking on its eight bits.
- `bigendian.dfy` (module `BigEndian`): `binary.BigEndian.Uint16`/`Uint32`
  and their `Put` inverses.
- `decimal.dfy` (module `Decimal`): `strconv.Itoa` and a parser that inverts it.
- `wrappers.dfy` (module `Wrappers`): `Option` and `Result`.

Go panics are modelled as `Failure` results:

- an address longer than 16 bytes;
- an endpoint type number registered twice.

## Model

| member | source | states |
|---|---|---|
| Flows.Endpoint.Raw | flows.go:43 | the meaningful bytes are exactly `len` long |
| Flows.NewEndpoint | flows.go:76-84 | fails exactly when the address is longer than 16 bytes, with that length; otherwise the endpoint keeps the type, `Raw()` is the given bytes and the rest of the array is zero |
| Flows.EndpointEquality | flows.go:31-36 | for constructed (zero-padded) endpoints, struct equality holds exactly when type and `Raw()` agree |
| Flows.Endpoint.LessThan | flows.go:53-55 | the order itself: type first, then the address bytes by `Compare`; its order properties are the three lemmas below |
| Flows.LessThanIrreflexive | flows.go:53-55 | no endpoint is less than itself |
| Flows.LessThanTransitive | flows.go:53-55 | `LessThan` is transitive |
| Flows.LessThanTrichotomy | flows.go:53-55 | neither endpoint is less than the other exactly when type and `Raw()` agree; the two never both hold |
| Flows.CompareZeroIsEquality | flows.go:54 | the byte comparison returns 0 exactly for equal byte strings |
| Flows.CompareAntisymmetric | flows.go:54 | swapping the operands of the byte comparison negates it |
| Flows.CompareTransitive | flows.go:54 | the byte comparison's "before" relation is transitive |
| Flows.Compare | flows.go:54 | `bytes.Compare` on the two addresses, always -1, 0 or 1; its properties are the three lemmas above |
| Flows.Endpoint.FastHash | flows.go:65-70 | the loop returns the XOR over `i < len` of `raw[i] << 8*(i mod 8)`, as `Fold8` |
| Uint64.Add | flows.go:168-171 | the sum of two words stands for the sum of their values modulo 2^64 |
| Uint64.ShiftLeftBytesValue | flows.go:164-171 | shifting left by 8k bits multiplies the value by 256^k and drops what passes 2^64 |
| Uint64.WidenValue | flows.go:67 | `uint64(b)` stands for the value of the byte |
| Uint64.ValueInjective | flows.go:167 | two words have equal values exactly when they are the same word, so `a > b` on values is Go's comparison |
| Uint64.LittleEndianRoundTrip | flows.go:168-171 | the word written for a number below 2^64 stands for that number |
| Uint64.FromLittleEndianRoundTrip | flows.go:168-171 | writing out the number a word stands for gives the word back |
| Flows.Fold8Lanes | flows.go:57-70 | folding at most 8 bytes puts byte i alone in byte lane i of the word |
| Flows.EndpointHashCollisionFree | flows.go:59-60 | two endpoints of the same length of at most 8 bytes with different addresses hash differently |
| Flows.FlowFromEndpoints | flows.go:138-144 | fails exactly when the endpoint types differ, naming both; otherwise `Endpoints()` gives back exactly the two endpoints |
| Flows.Flow.Endpoints | flows.go:188-190 | both endpoints are valid, of the flow's type, with the flow's source and destination bytes, and zero-padded when the flow is |
| Flows.Flow.Src | flows.go:193-196 | the source endpoint has the flow's type and source bytes |
| Flows.Flow.Dst | flows.go:199-202 | the destination endpoint has the flow's type and destination bytes |
| Flows.Flow.Reverse | flows.go:205-207 | keeps the type; the source of the result is the destination of the flow and vice versa |
| Flows.ReverseInvolutive | flows.go:205-207 | reversing twice gives the flow back, and reversing keeps zero padding |
| Flows.FlowFromEndpointsRoundTrip | flows.go:138-144 | a flow built from s and d has source s and destination d, and its reverse is the flow built from d and s |
| Flows.NewFlow | flows.go:213-223 | fails exactly when either address is longer than 16 bytes; otherwise the flow has the type and exactly the given source and destination bytes, zero-padded |
| Flows.NewFlowFromNewEndpoints | flows.go:213-223 | `NewFlow` is the flow built from the two endpoints `NewEndpoint` makes |
| Flows.Flow.FoldAddresses | flows.go:161-166 | the loop leaves in `a` and `b` the XOR over `i < slen` of `src[slen-1-i]` and `dst[slen-1-i]` shifted left by 16*(i mod 4), as `Fold16` |
| Flows.FoldIn16 | flows.go:164-165 | one XOR line of the loop: the byte widened, shifted left by 16*(i mod 4) and XORed into the accumulator; `Fold16` is built from it and `Flow.FoldAddresses` applies it |
| Flows.Flow.FastHash | flows.go:160-173 | after the loop, the larger word plus the smaller shifted left by 8, with wrap-around: the result is `FlowHash` of the flow |
| Flows.CombineSymmetric | flows.go:167-172 | the combining step gives the same word whichever fold comes first |
| Flows.FlowHashReverseSymmetric | flows.go:148-149 | a flow hashes like its reverse when both addresses have the same length |
| Flows.FlowHashAsymmetric | flows.go:163-166 | for a 1-byte source 01 and a 2-byte destination 00 00 the flow hashes to the word holding 1 in its lowest byte, and its reverse to that word shifted left by 16 bits |
| Flows.AsymmetricHashValues | flows.go:163-171 | those two words stand for 1 and 0x10000 |
| Flows.NewFlowAsymmetricWitness | flows.go:163-166 | `NewFlow(1, [1], [0, 0])` is built and hashes differently from its reverse |
| Flows.FlowHashPerSideSymmetric | flows.go:148-149 | with each address folded over its own length, every flow hashes like its reverse |
| Flows.FlowHashPerSideAgrees | flows.go:163-166 | the per-side hash equals the written one whenever the lengths are equal |
| Flows.FlowHash | flows.go:160-173 | `Flow.FastHash` as written, both folds running over `slen` bytes, combined by `Combine`; `Flow.FastHash` is proved equal to it |
| Flows.Fold16Lanes | flows.go:163-166 | folding at most 4 bytes puts byte `buf[last-1-i]` alone in byte lane 2i of the word, every odd lane staying zero |
| Uint64.AddDisjoint | flows.go:168-171 | two words that share no non-zero byte lane add without a carry, to their exclusive-or |
| Flows.CombineInterleaves | flows.go:167-172 | on words whose odd lanes are zero, the combining step puts the larger word in the even lanes and the smaller in the odd lanes |
| Flows.InterleaveInjective | flows.go:167-172 | both words can be read back from their interleaving |
| Flows.FlowHashCollisionFree | flows.go:151-156 | flows whose two addresses all have one length of at most 4 bytes and whose hashes are equal have the same two addresses, in the same or in the reverse order |
| Flows.FlowHashLengthCollision | flows.go:151-156 | across lengths the guarantee fails: `NewFlow(1, [5], [7])` and `NewFlow(1, [0, 5], [0, 7])` hash alike, with no address in common |
| Flows.FlowEquality | flows.go:127-128 | for constructed (zero-padded) flows, struct equality, and so identity as a map key, holds exactly when the type and both addresses agree |
| Flows.EndpointTypeRegistry.constructor | flows.go:227-230 | at start only type 0 is registered, named "invalid" |
| Flows.EndpointTypeRegistry.RegisterEndpointType | flows.go:104-111 | a number in use fails and leaves the table unchanged; otherwise exactly `num ↦ meta` is added |
| Flows.EndpointTypeRegistry.String | flows.go:113-118 | the registered name, else the decimal form of the tag |
| Flows.InvalidSingletons | flows.go:227-235 | the invalid endpoint and flow are what the constructors build from empty addresses of type 0 |
| Decimal.ItoaRoundTrip | flows.go:117 | the decimal form of a tag is well formed, has a minus sign exactly for negative tags, and parses back to the tag |
| BigEndian.Uint16RoundTrip | layers/icmp6msg.go:117 | reading two bytes big-endian and writing the value back are inverse |
| BigEndian.Uint32RoundTrip | layers/icmp6msg.go:118-119 | reading four bytes big-endian and writing the value back are inverse |
| ICMPv6Msg.ParseOptions | layers/icmp6msg.go:231-256 | every option read is well formed (a non-zero multiple of 8 bytes, its data the rest of it), and together they take at most the input |
| ICMPv6Msg.ICMPv6Options.DecodeFromBytes | layers/icmp6msg.go:231-256 | appends exactly the options `ParseOptions` reads to those already held; returns its error; sets truncated exactly on a truncation error |
| ICMPv6Msg.ParseOptionsPrefix | layers/icmp6msg.go:231-256 | the options read encode to a prefix of the input, and to all of it exactly when no error stopped the loop |
| ICMPv6Msg.ParseEncodeRoundTrip | layers/icmp6msg.go:238-253 | decoding the encoding of well-formed options gives them back with no error |
| ICMPv6Msg.ParseSucceedsIffConcatenation | layers/icmp6msg.go:231-256 | the input decodes without error exactly when it is a concatenation of options; then their lengths add up to its length |
| ICMPv6Msg.ParseErrorCause | layers/icmp6msg.go:233-247 | on an error the unread rest is non-empty and the error is header-truncated exactly when under 2 bytes remain, option-truncated exactly when fewer than the length remain, zero-length exactly when the length byte is 0 |
| ICMPv6Msg.ParseProgress | layers/icmp6msg.go:238-251 | each option read advances by at least 8 bytes |
| ICMPv6Msg.GoOptionLoopStep | layers/icmp6msg.go:238-251 | one pass of the Go loop body as written: stops with the header or option truncation error, reaches the slice `data[2:length]` with `length` below 2, or reads one option and the rest; `GoLoopPanicsOnZeroLength` and `GoLoopAgreesOtherwise` state what it does |
| ICMPv6Msg.DecodeFeedback.SetTruncated | layers/icmp6msg.go:86 | afterwards the feedback reports truncated input; every decoder calls it where layers/icmp6msg.go does (lines 86, 110, 149, 175, 214, 234 and 245) |
| ICMPv6Msg.GoLoopPanicsOnZeroLength | layers/icmp6msg.go:238-251 | the loop body as written reaches the out-of-range slice exactly when the length byte is 0, and the cursor update would not advance |
| ICMPv6Msg.GoLoopAgreesOtherwise | layers/icmp6msg.go:231-256 | off a zero length byte, the loop body as written takes the same step as `ParseOptions` |
| ICMPv6Msg.ICMPv6RouterSolicitation.DecodeFromBytes | layers/icmp6msg.go:83-94 | under 4 bytes: truncated, error, options kept; otherwise the options are exactly those of bytes 4.. |
| ICMPv6Msg.ICMPv6RouterAdvertisement.DecodeFromBytes | layers/icmp6msg.go:108-125 | under 12 bytes: truncated, error, nothing changed; otherwise hop limit, flags, big-endian lifetime and timers from bytes 0..12 and the options of bytes 12.. |
| ICMPv6Msg.ICMPv6NeighborSolicitation.DecodeFromBytes | layers/icmp6msg.go:147-159 | under 20 bytes: truncated, error, nothing changed; otherwise target address bytes 4..20 and the options of bytes 20.. |
| ICMPv6Msg.ICMPv6NeighborAdvertisement.DecodeFromBytes | layers/icmp6msg.go:173-186 | under 20 bytes: truncated, error, nothing changed; otherwise flags byte 0, target address bytes 4..20 and the options of bytes 20.. |
| ICMPv6Msg.ICMPv6Redirect.DecodeFromBytes | layers/icmp6msg.go:212-225 | under 36 bytes: truncated, error, nothing changed; otherwise target address bytes 4..20, destination address bytes 20..36 and the options of bytes 36.. |
| ICMPv6Msg.ICMPv6NeighborAdvertisement.Router | layers/icmp6msg.go:192-194 | true exactly when the top bit (R) of the flags byte is set |
| ICMPv6Msg.ICMPv6NeighborAdvertisement.Solicited | layers/icmp6msg.go:196-198 | true exactly when the second bit (S) of the flags byte is set |
| ICMPv6Msg.ICMPv6NeighborAdvertisement.Override | layers/icmp6msg.go:200-202 | true exactly when the third bit (O) of the flags byte is set |
| ICMPv6Msg.ICMPv6RouterAdvertisement.ManagedAddressConfig | layers/icmp6msg.go:131-133 | always true, whatever the flags |
| ICMPv6Msg.ICMPv6RouterAdvertisement.OtherConfig | layers/icmp6msg.go:135-137 | always true, whatever the flags |
| ICMPv6Msg.ICMPv6RouterAdvertisement.ManagedFlag | layers/icmp6msg.go:131-133 | true exactly when the top bit (M) of the flags byte is set |
| ICMPv6Msg.ICMPv6RouterAdvertisement.OtherConfigFlag | layers/icmp6msg.go:135-137 | true exactly when the second bit (O) of the flags byte is set |
| ICMPv6Msg.RouterAdvertisementFlagsIgnored | layers/icmp6msg.go:131-137 | with flags 0 both accessors report true, though neither bit is set |

## Left out

- `Endpoint.String` and `Flow.String`: `fmt.Sprintf` formatting through user-supplied formatter functions. The registry keeps only each type's name.
- `Flows.EndpointTypeRegistry.String`: Go's `String` has the endpoint type as its receiver and reads the package-level map `endpointTypes` (flows.go:99). Here that map is a field of one registry object, and `String` is a function of that object.
- `Flows.FlowHash`: the documented collision freedom for addresses of up to 32 bits is proved only for flows whose addresses all have one length (`FlowHashCollisionFree`); across lengths it does not hold (`FlowHashLengthCollision`).
- `Uint64.ShiftLeftBytes`: only shifts by whole bytes are modelled, because these are the only shifts both hashes use.
- `ICMPv6Msg.ICMPv6Options.DecodeFromBytes`: a length byte of 0 returns `ZeroLengthOption` without setting truncated. The Go code panics there instead; see Findings.
- The `SerializeTo` methods (layers/icmp6msg.go:96-98, 127-129, 161-163, 188-190, 227-229, 259-261) have empty bodies.
- `LayerType` and `NextLayerType` return globally registered layer types that are not part of this model.
- The `decodeICMPv6*` wrappers (layers/icmp6msg.go:263-286) call into the packet builder and the decoding-layer machinery, which are not part of this model.
- The error strings are modelled as `DecodeError` values carrying the same numbers.
- `BaseLayer` contents and payload are not modelled.
- Slice aliasing is not modelled. In Go, `TargetAddress`, `DestinationAddress` and each option's `Data` share storage with the input buffer; here they are values.
- The DNS and ENIP tests drive decoders that are not part of this model.

## Findings

| source | as written | input that shows it | evidently intended | confidence | as-written member | corrected member |
|---|---|---|---|---|---|---|
| flows.go:163-166 | both the source and the destination loops run to `f.slen`, so the destination is folded over the source's length | `NewFlow(1, [1], [0, 0])`: the flow hashes to 1, its reverse to 0x10000 | each address folded over its own length, so every flow collides with its reverse as documented | high; not executed | Flows.NewFlowAsymmetricWitness | Flows.FlowHashPerSideSymmetric |
| layers/icmp6msg.go:238-251 | a length byte of 0 passes the length check, and the slice `data[2:0]` panics; were it not to, the cursor would not advance | option bytes `[1, 0]` | reject the option: RFC 4861 section 4.6 says nodes must silently discard a packet holding an option of length zero | high; not executed | ICMPv6Msg.GoLoopPanicsOnZeroLength | ICMPv6Msg.ParseOptions |
| layers/icmp6msg.go:131-137 | the masked flag (0 or 0x80, 0 or 0x40) is compared with 1, which it never equals | Router Advertisement flags byte 0 | test the M and O bits against 0 | high; not executed | ICMPv6Msg.RouterAdvertisementFlagsIgnored | ICMPv6Msg.ICMPv6RouterAdvertisement.ManagedFlag |
