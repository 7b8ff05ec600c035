# Wespe SNMP agent: a verified model of its portable core

The agent answers SNMPv1 and SNMPv2c datagrams from a registry of scalars and conceptual tables. This project models
everything between the octets that arrive and the octets that leave, and proves what the parts promise each other.

| file | models |
|---|---|
| `Types.dfy` | C integer widths, byte strings, the status type |
| `Ber.dfy` | what BER octets mean: lengths, INTEGER, OBJECT IDENTIFIER, elements, and the decoding functions |
| `BerEncoder.dfy` | the right-to-left encoders over a caller's buffer and cursor |
| `BerDecoder.dfy` | the decoding loops |
| `Codec.dfy` | values, varbinds, lists and PDUs on the wire, and their round trips |
| `PduCodec.dfy` | the request context and the codec that reads and fills it |
| `Oids.dfy` | lexicographic order and least elements above a bound |
| `Mib.dfy` | the view that modules and tables present in a given state, exact and successor lookup as specification |
| `Registry.dfy` | the registry object: binary searches, row loops, unified lookup, getters and setters |
| `Walk.dfy` | walks over a view that changes between steps |
| `Examples.dfy` | small registries for the lemmas that exhibit an input |
| `ReadPdu.dfy` | GetRequest and GetNextRequest, Counter64 under v1 |
| `SetPdu.dfy` | SetRequest |
| `BulkPdu.dfy` | GetBulkRequest |
| `Community.dfy` | the community envelope, in and out |
| `EchoSize.dfy` | how long a reply that echoes its request can be |
| `Agent.dfy` | one datagram in, at most one out |
| `Service.dfy` | what each datagram sent says, by names, owners and numbers |
| `Octets.dfy` | identifier octets, lengths and names in literal octets, one exchange spelled out |
| `Writes.dfy` | what runs of datagrams do to the MIB |
| `Answers.dfy` | which requests are answered in the room there is |
| `Unanswered.dfy` | two requests that are not |
| `Manager.dfy` | a manager that walks the agent by datagrams |

Conventions. A const pointer with a length is a sequence, and advancing it takes a suffix; buffers that are written are
arrays. Getters, setters and row callbacks are function-valued fields, as in the C structs; `S` is whatever state they
read and write, and the registry's `state` field holds it. A C status with its out-parameter is a `Result`. Every method
that changes something is tied to a pure function of the old state, and the theorems are about those functions.

What is asked of those who register modules and tables (`Mib.WellFormed`): module arrays and column numbers strictly
ascend, `next_index` only moves up, no two tables claim the same column under the same entry, and names fit 20 arcs. A
buffer is smaller than 2^32 bytes, the width of `size_t` on the target. Getters give the same answer throughout one
request, and the rows do not change inside one lookup. Between the lookups of a walk and between datagrams the state may
change in any way.

Some results need more of the callbacks, and name it in their `requires` or in the clause it is for:

* `Agent.SoundMib`: what can be read and encoded at all survives the wire. For `Agent.ReplyIsReadable` it is one of two
  sufficient conditions, beside an exact one. The walks of `Manager` ask it of the varbind fetched in each exchange only
  (`SurvivesWire`).
* `ReadPdu.Honest`, of one name: its getter does not deny that it exists, though it may fail. It is asked of the name
  next to the one asked for, where endOfMibView or noSuchName is to mean the end of the view.
* `SetPdu.KeepsShape`, in `CommitIsFold` and `SetIsFold`: setters do not change what names mean.
* `SetPdu.RefusalsWriteNothing` and `WritesStick`, in `SetAtomicExact`: a setter that fails has written nothing, and
  setters that succeed do not cancel out.
* `Writes.BooksLeave`, `LeftToSetters`, `StandsAlone` and `Undisturbed`: which part of the state getters make no entries
  in, which nothing touches between datagrams, and which depends on nothing else.

The grid of GETBULK, the v2c replies, the lookups and the codec need nothing of the getters: they may fail.

Where the code and its comments differ, the model follows the code:

* `firmware/components/ber/ber_decode.c:205-210` says the first arc is always 0 to 2. The code splits the first octet
  by 40, so it reports first arcs up to 6 and never a second arc of 40 or more. `Ber.OidRoundTrip` gives the exact
  condition, `Ber.OidSecondArcLost` two OIDs that come back as others.
* `firmware/components/mib/include/mib_tree.h:92-99` says a scalar can yield noSuchInstance. It cannot
  (`Mib.NoSuchInstanceExact`).
* `firmware/components/snmp_core/snmp_pdu_getbulk.c:40-44` says a failing getter ends the response. The code appends
  endOfMibView for it and goes on. `BulkPdu.FalseEnd` is an input where names follow all the same,
  `BulkPdu.FalseEndExact` says when that happens.
* Section 4.2.1 of RFC 3416 has an error reply carry the request's varbinds. In v2c those before the failing one come
  back answered (`ReadPdu.HalfAnswered`; `ReadPdu.V2cEchoExact` says when the request comes back whole). In v1 they do
  not.
* `firmware/components/ber/ber_decode.c:108-132` accepts an unsigned value without the zero octet that section 8.3 of
  X.690 wants before a set top bit. Sent back, the value is one octet longer, so a reply can outgrow its request and not
  be sent although the SET took effect: `Unanswered.UnpaddedSetUnanswered` is an input, `Answers.SetUnansweredExact` the
  exact condition on the request.
* Section 4.2.3 of RFC 3416 has a GETBULK answered with as many varbinds as fit. The code cuts at 50 varbinds and drops
  an answer that is still too long (`firmware/components/snmp_core/snmp_message.c:66-70`):
  `Unanswered.LongBulkUnanswered` is an input, `Answers.AnsweredExact` the exact condition.

## Model

| member | source | states |
|---|---|---|
| Ber.TlvRoundTrip | firmware/components/ber/ber_decode.c:43-73 | Decoding an element undoes the header encoder for every tag, every content a 32-bit size can describe and any trailing octets, up to the nesting limit. |
| Ber.TlvPartition | firmware/components/ber/ber_decode.c:63-72 | On arbitrary octets a decoded element splits the input into header, content and rest, and the part before the rest is the same element on its own. |
| Ber.SpelledIsRead | firmware/components/ber/ber_decode.c:9-73 | Every element is read whose length is spelled as section 8.1.3 of X.690 allows: one octet below 0x80, or 0x81 to 0x84 and so many octets worth the length, shortest or not. |
| Ber.ReadIsSpelled | firmware/components/ber/ber_decode.c:9-73 | And no other: whatever is read was tag, a length so spelled, content and rest. |
| Ber.PositionalValue | firmware/components/ber/ber_decode.c:87-106 | What unsigned and signed values are: each octet weighs a power of 256, and a set top bit takes the next power off. |
| Ber.IntegerContentMeans | firmware/components/ber/ber_encode.c:79-112 | The content octets of v are worth v in two's complement and obey the minimality rule of section 8.3.2 of X.690. |
| Ber.MinimalIsUnique | firmware/components/ber/ber_encode.c:88-106 | Only one octet string is both minimal and worth v, so stripping redundant octets can end in one way only. |
| Ber.IntegerContentIsShortest | firmware/components/ber/ber_encode.c:88-106 | No octet string worth v is shorter than the encoder's. |
| Ber.PadExact | firmware/components/ber/ber_encode.c:123-132 | A non-negative value is its unsigned digits, with a zero octet in front exactly when there are none or the top bit would read as a sign. |
| Ber.IntegerRoundTrip | firmware/components/ber/ber_decode.c:87-106 | INTEGER round-trips for every int32. |
| Ber.UnsignedRoundTrip | firmware/components/ber/ber_decode.c:108-132 | Counter32, Gauge32 and TimeTicks round-trip for every uint32. |
| Ber.Unsigned64RoundTrip | firmware/components/ber/ber_decode.c:134-154 | Counter64 round-trips for every uint64. |
| Ber.UnsignedExact | firmware/components/ber/ber_decode.c:121-131 | On arbitrary content the 32-bit reading is the value of the last four of five octets, else of all; it is the value itself exactly when a fifth octet, if present, is zero. |
| Ber.Unsigned64Exact | firmware/components/ber/ber_decode.c:142-153 | The same for 64 bits and a ninth octet. |
| Ber.ParseArcExact | firmware/components/ber/ber_decode.c:212-228 | The shift guard fires exactly when the unbounded base-128 value of the group exceeds 2^32 - 1, padding groups included; otherwise an unfinished group is truncated and a finished one yields its value. |
| Ber.ParseOidExact | firmware/components/ber/ber_decode.c:186-237 | On arbitrary content: every octet after the first belongs to one arc; decoding succeeds exactly when every group is finished, fits 32 bits and there is room; the result is the two split arcs and the unbounded group values. It fails as truncated exactly when nothing but the end of the last group is wrong, otherwise as an overflow. |
| Ber.OidOnTheWire | firmware/components/ber/ber_encode.c:187-237 | What the decoder makes of any accepted OID of at most 20 arcs. |
| Ber.OidRoundTrip | firmware/components/ber/ber_encode.c:187-237 | An accepted OID survives encoding and decoding if and only if its second arc is below 40. |
| Ber.OidSecondArcLost | firmware/components/ber/ber_encode.c:229 | 2.47 is accepted and comes back as 3.7, 2.200 as 0.24. |
| BerEncoder.PrependByte | firmware/components/ber/ber_encode.c:9-17 | One octet goes in exactly when the cursor is not at 0; nothing else changes. |
| BerEncoder.PrependBytes | firmware/components/ber/ber_encode.c:19-33 | The data goes in exactly when it fits left of the cursor; nothing else changes. |
| BerEncoder.PrependTlvHeader | firmware/components/ber/ber_encode.c:35-72 | Tag and shortest length octets, in order, although written back to front; four scratch octets always suffice. |
| BerEncoder.EncodeInteger | firmware/components/ber/ber_encode.c:79-112 | Refines the minimal two's-complement element for every int32. |
| BerEncoder.EncodeUnsigned | firmware/components/ber/ber_encode.c:114-140 | Refines the minimal non-negative element for every uint32. |
| BerEncoder.EncodeUnsigned64 | firmware/components/ber/ber_encode.c:142-166 | The same for every uint64. |
| BerEncoder.EncodeOctetString | firmware/components/ber/ber_encode.c:168-175 | Refines the octet string element. |
| BerEncoder.EncodeNullTagged | firmware/components/ber/ber_encode.c:177-185 | Refines the empty element under any tag. |
| BerEncoder.EncodeOid | firmware/components/ber/ber_encode.c:187-237 | Succeeds exactly for encodable OIDs that fit, writes the arcs in order although it works from the last, and reports too few arcs apart from the other failures. |
| BerEncoder.EmitsThen | firmware/components/ber/include/ber_codec.h:45-56 | Prepending a tail and then a head is prepending head followed by tail: the law every nested encoder rests on. |
| BerDecoder.DecodeLength | firmware/components/ber/ber_decode.c:13-41 | The length loop computes the unsigned value of the length octets; the error cases are those of the specification function. |
| BerDecoder.DecodeTlv | firmware/components/ber/ber_decode.c:43-73 | Refines element parsing, errors included. |
| BerDecoder.ExpectTag | firmware/components/ber/ber_decode.c:75-85 | Refines element parsing with a required tag. |
| BerDecoder.DecodeInteger | firmware/components/ber/ber_decode.c:87-106 | The sign-extending loop computes the two's-complement value; the casts lose nothing up to four octets. |
| BerDecoder.DecodeUnsigned | firmware/components/ber/ber_decode.c:108-132 | The loop computes the unsigned value modulo 2^32. |
| BerDecoder.DecodeUnsigned64 | firmware/components/ber/ber_decode.c:134-154 | The loop computes the unsigned value modulo 2^64. |
| BerDecoder.DecodeOid | firmware/components/ber/ber_decode.c:186-237 | The nested loops fill the caller's array with exactly the arcs of the specification, never beyond its length, and fail with its errors. |
| Codec.NameRoundTrip | firmware/components/snmp_core/snmp_codec.c:122-132 | A varbind name followed by anything comes back exactly when the wire can carry it. |
| Codec.ValueRoundTrip | firmware/components/snmp_core/snmp_codec.c:7-88 | An encodable value of any kind comes back as itself exactly when the wire can carry it. |
| Codec.VarbindRoundTrip | firmware/components/snmp_core/snmp_codec.c:90-141 | A varbind comes back exactly when name and value can be carried, whatever octets follow the value inside it. |
| Codec.VarbindsRoundTrip | firmware/components/snmp_core/snmp_codec.c:105-172 | A list comes back in order exactly when every varbind can be carried and there is room for all. |
| Codec.PduRoundTrip | firmware/components/snmp_core/snmp_codec.c:174-255 | An encoded PDU with any trailing octets is read back field by field exactly when all varbinds can be carried and there are at most 50. |
| Codec.RequestRoundTrip | firmware/components/snmp_core/snmp_codec.c:199-255 | For every request tag, all three fields and up to 50 carriable varbinds, the encoding exists and the agent reads back the same PDU. |
| Codec.ListPartition | firmware/components/snmp_core/snmp_codec.c:151-171 | An accepted list content is cut exactly into elements, one per varbind, each of which is that varbind. |
| Codec.ParsedListIsEchoable | firmware/components/snmp_core/snmp_codec.c:122-172 | A received varbind that can be encoded at all comes back as it was. |
| Octets.ValueIdentifiers | firmware/components/ber/include/ber_types.h:22-45 | The first octet of every kind of value that is sent: 02, 04, 05, 06, 40 to 44 and 46; the exceptions are 80 00, 81 00 and 82 00. |
| Octets.ValueByIdentifier | firmware/components/snmp_core/snmp_codec.c:7-54 | What is made of a received value by its first octet, string limit and empty contents included; every other octet is refused. |
| Octets.RequestIdentifiers | firmware/components/snmp_core/snmp_codec.c:199-255 | A request that is read starts with A0, A1, A3 or A5, and that is its kind. |
| Octets.NameLimits | firmware/components/ber/ber_encode.c:187-200 | In numbers: which names can be encoded, and which come back. |
| Octets.EnvelopeLimits | firmware/components/snmp_core/snmp_security_community.c:17-75 | A request has version 0, which is v1, or 1, which is v2c, and a community of at most 31 octets. |
| PduCodec.EncodeValue | firmware/components/snmp_core/snmp_codec.c:56-88 | Refines the value encoding by kind. |
| PduCodec.EncodeVarbind | firmware/components/snmp_core/snmp_codec.c:90-103 | Refines the varbind encoding. |
| PduCodec.EncodeVarbindList | firmware/components/snmp_core/snmp_codec.c:105-120 | Encoding from the last varbind to the first yields the list in order. |
| PduCodec.EncodePdu | firmware/components/snmp_core/snmp_codec.c:174-197 | Refines the PDU encoding. |
| PduCodec.DecodeValue | firmware/components/snmp_core/snmp_codec.c:7-54 | Refines value parsing, errors included. |
| PduCodec.DecodeVarbind | firmware/components/snmp_core/snmp_codec.c:122-141 | Refines varbind parsing. |
| PduCodec.DecodeVarbindList | firmware/components/snmp_core/snmp_codec.c:143-172 | Fills the array with exactly the parsed varbinds, never beyond its 50 slots. |
| PduCodec.DecodeRequestPdu | firmware/components/snmp_core/snmp_codec.c:199-255 | Fills the PDU part of the context with exactly the parsed PDU and leaves the envelope part alone. |
| PduCodec.PduCtx.Clear | firmware/components/snmp_core/snmp_message.c:54 | Nothing of the previous request is left. |
| Oids.Compare | firmware/components/mib/mib_registry.c:26-44 | The loop decides the lexicographic order. |
| Oids.LessExact | firmware/components/mib/mib_registry.c:26-44 | The order apart from its recursion: where two names first differ the smaller arc decides, otherwise the shorter name comes first. |
| Oids.Trichotomy | firmware/components/mib/mib_registry.c:26-44 | The order is total, asymmetric and irreflexive. |
| Oids.Transitive | firmware/components/mib/mib_registry.c:26-44 | The order is transitive. |
| Mib.RowsExact | firmware/components/mib/mib_registry.c:187-202 | The rows of a table in a state, from its callbacks alone: none exactly if `first_index` gives none, otherwise the first is what it gives, each is followed by what `next_index` gives for it, and for the last that is none. |
| Mib.ViewExact | firmware/components/mib/mib_registry.c:211-266 | The view, from the registered entries: the names of all objects, and entry, column number and row for every column and row of every table. |
| Mib.ResolveIsMembership | firmware/components/mib/mib_registry.c:248-266 | Exact lookup succeeds exactly on the view, under the OID asked for. |
| Mib.ResolveDescribes | firmware/components/mib/mib_registry.c:136-158 | What it returns has the tag and access of the object or column it points to, and a cell's row exists. |
| Mib.NoSuchInstanceExact | firmware/components/mib/mib_registry.c:164-206 | noSuchInstance exactly for a known column of a known table whose row is absent; anything else outside the view is noSuchObject. |
| Mib.ResolveNextAgrees | firmware/components/mib/mib_registry.c:268-293 | Successor lookup is the least element of the view above the bound, and exact lookup of its result gives the same object or cell. |
| Mib.RowsFromAscend | firmware/components/mib/include/mib_table.h:25-31 | The rows a table enumerates strictly ascend. |
| Mib.ViewFits | firmware/components/mib/include/mib_tree.h:78 | No name in the view is longer than the arrays it is copied into. |
| Mib.OwnerIsFound | firmware/components/mib/mib_registry.c:248-266 | Every name has at most one owner, the object of the first module that has it or else the cell it spells, and exact lookup leads to the owner and to nothing else. |
| Mib.OffersExact | firmware/components/mib/mib_registry.c:136-158 | Tag and access that lookup reports are those of the object or the column that owns the name. |
| Mib.GetIsByName | firmware/components/mib/mib_registry.c:295-301 | Reading a name calls the getter of its owner in the present state. |
| Mib.SetIsByName | firmware/components/mib/mib_registry.c:303-315 | Writing a name calls the setter of its owner; where there is none the result is notWritable and nothing changes. |
| Registry.Registry.RegisterModule | firmware/components/mib/mib_registry.c:46-55 | Appends until four modules are registered and keeps the registry valid. |
| Registry.Registry.RegisterTable | firmware/components/mib/mib_registry.c:57-64 | The same for tables. |
| Registry.Registry.Find | firmware/components/mib/mib_registry.c:83-103 | Binary search in each module agrees with a linear scan over all modules. |
| Registry.Registry.FindNext | firmware/components/mib/mib_registry.c:105-130 | The least scalar above the bound over all modules; among equals the one exact search finds. |
| Registry.Registry.RowExists | firmware/components/mib/mib_registry.c:187-202 | The row loop with its early exit decides whether the row exists. |
| Registry.Registry.TableFindExact | firmware/components/mib/mib_registry.c:164-206 | Refines exact lookup in one table. |
| Registry.CellOrder | firmware/components/mib/mib_registry.c:211-225 | Cells of one table compare by column first, row second. |
| Registry.FirstCellAbove | firmware/components/mib/mib_registry.c:211-225 | The first candidate met column by column, row by row is the table's least cell above the bound: the early exit is sound. |
| Registry.Registry.TableFindNext | firmware/components/mib/mib_registry.c:226-246 | The least cell of one table above the bound, and what exact lookup finds under its name. |
| Registry.Registry.Resolve | firmware/components/mib/mib_registry.c:248-266 | Refines exact lookup over scalars and tables. |
| Registry.Registry.ResolveNext | firmware/components/mib/mib_registry.c:268-293 | For any bound: the least element above it of the union of all scalars and all cells, or end of view. |
| Walk.WalkAscends | firmware/components/mib/mib_registry.c:268-293 | The names of a walk strictly ascend, however the views it steps through differ. |
| Walk.WalkIsFinite | firmware/components/mib/mib_registry.c:268-293 | A walk takes no more steps than there are names it could ever meet. |
| Walk.WalkReturnsEverything | firmware/components/mib/mib_registry.c:268-293 | A completed walk returns every name that lies ahead of its start and is in every view, exactly once. |
| ReadPdu.LookupAndFetch | firmware/components/snmp_core/snmp_pdu_get.c:38-66 | The bounded loop refines the lookup specification for both versions and modes. |
| ReadPdu.NextSkippingExact | firmware/components/snmp_core/snmp_pdu_get.c:42-65 | With a bound of n lookups the loop gives the successor in the view without Counter64 if and only if fewer than n Counter64 instances lie before it, end of view included. |
| ReadPdu.V1NextIsVisibleSuccessor | firmware/components/snmp_core/snmp_pdu_get.c:50-65 | The same for the loop's bound: exact up to 63 consecutive Counter64 instances, genErr beyond. |
| ReadPdu.GuardExhausted | firmware/components/snmp_core/snmp_pdu_get.c:18-23 | Behind a run of n Counter64 scalars a v1 GETNEXT finds the visible scalar that follows exactly when n is below 64, and is genErr otherwise. |
| ReadPdu.V1NextReply | firmware/components/snmp_core/snmp_pdu_get.c:68-98 | Every name in a successful v1 GETNEXT reply is the least visible one above the name asked for; unless the getter of that next name denies it, noSuchName means that the visible view ends at the name it is for. |
| ReadPdu.V1NextAtEnd | firmware/components/snmp_core/snmp_pdu_get.c:70-86 | Where the visible view ends, that is the answer, provided the varbinds before can be read and at most 63 Counter64 instances are left. |
| ReadPdu.V1GetOfCounter64 | firmware/components/snmp_core/snmp_pdu_get.c:50-53 | A v1 GET with a Counter64 at any place is an error that echoes the request; it is noSuchName for that place if the varbinds before can be read. |
| ReadPdu.ProcessRead | firmware/components/snmp_core/snmp_pdu_get.c:68-128 | The in-place handler produces the specified reply and leaves the envelope alone. |
| ReadPdu.CommitReads | firmware/components/snmp_core/snmp_pdu_get.c:91-93 | In pass 2 each varbind becomes the lookup of its original name, although both share a slot. |
| ReadPdu.V1AllOrNothing | firmware/components/snmp_core/snmp_pdu_get.c:70-98 | Either the reply keeps every original varbind and names the first failing one, or every varbind is the lookup of its original. |
| ReadPdu.V2cPartialAnswer | firmware/components/snmp_core/snmp_pdu_get.c:100-128 | A v2c reply is a success exactly when no getter of a name the request leads to fails outright. Otherwise it is genErr for the first such varbind; those before it are answered with the name in the view and its value, or with the exception that sections 4.2.1 and 4.2.2 of RFC 3416 ask for; it and the later ones are as requested. |
| ReadPdu.V2cEchoExact | firmware/components/snmp_core/snmp_pdu_get.c:102-112 | An error reply to a request whose first varbind is NULL and does not read as NULL echoes the request if and only if the getter that fails is that of the first varbind. |
| ReadPdu.HalfAnswered | firmware/components/snmp_core/snmp_pdu_get.c:102-112 | A GET of two scalars, the second unreadable: genErr with index 2 and the first varbind answered. |
| ReadPdu.V2cNextReply | firmware/components/snmp_core/snmp_pdu_get.c:100-137 | In a v2c GETNEXT reply without error, at every place: an answer under another name is one step of a walk, and the end of the view is endOfMibView under the name asked for; unless the getter of the next name denies it, there is a step or the view ends, and an exception only in the second case. |
| SetPdu.Validate | firmware/components/snmp_core/snmp_pdu_set.c:34-62 | Pass 1 finds the first invalid varbind and writes nothing. |
| SetPdu.CommitAll | firmware/components/snmp_core/snmp_pdu_set.c:72-84 | Pass 2 runs the setters in order until one fails. |
| SetPdu.HandleSet | firmware/components/snmp_core/snmp_pdu_set.c:8-92 | No reply and no change without write access, otherwise exactly the specified state and reply. |
| SetPdu.CheckExact | firmware/components/snmp_core/snmp_pdu_set.c:36-43 | A varbind is valid exactly when it names something in the view, writable and of the type sent; noSuchName exactly outside the view. |
| SetPdu.ValidatesFirst | firmware/components/snmp_core/snmp_pdu_set.c:34-62 | If any varbind cannot be set the MIB is unchanged, and the first such is reported: with 2 if its name is outside the view, 4 if its owner is not read-write whatever the type sent, 3 if it is and has another type. Every reply carries the varbinds of the request. |
| SetPdu.RefusedOnce | firmware/components/snmp_core/snmp_error.c:17-40 | Those three causes exclude each other: no varbind can be told two numbers. |
| SetPdu.CommitTrace | firmware/components/snmp_core/snmp_pdu_set.c:72-84 | The commit goes through states of which each is what the setter of the next name's owner makes of the one before, until a setter does not succeed. |
| SetPdu.SetReplyExact | firmware/components/snmp_core/snmp_pdu_set.c:34-91 | The whole answer and state, by owners and numbers: a refused varbind as above; otherwise 0 with index 0 and the last state if all setters succeed, or 5 with the place of the first that does not and the state it left. |
| SetPdu.CommitIsFold | firmware/components/snmp_core/snmp_pdu_set.c:27-33 | If the setters keep the shape of the view, looking names up again in pass 2 equals having kept pass 1's results. |
| SetPdu.SetIsFold | firmware/components/snmp_core/snmp_pdu_set.c:64-91 | Then the final state is the left-to-right fold of all setters, and success is reported exactly when all succeed. |
| SetPdu.CommitStops | firmware/components/snmp_core/snmp_pdu_set.c:64-84 | When varbind k fails, the state is what the first k setters made of it, then whatever the failing step did. |
| SetPdu.SetAtomicExact | firmware/components/snmp_core/snmp_pdu_set.c:64-84 | Where refusing setters write nothing, an error reply to a valid request leaves the state alone if the first setter refuses, and, where writes stick, only then. |
| SetPdu.SingleSetIsAtomic | firmware/components/snmp_core/snmp_pdu_set.c:45-91 | Under the same condition on setters a request with one varbind is atomic, whatever is wrong with it. |
| SetPdu.NoRollback | firmware/components/snmp_core/snmp_pdu_set.c:64-71 | A valid request whose second setter refuses without writing is answered genErr and has changed the state. |
| BulkPdu.GetNextInto | firmware/components/snmp_core/snmp_pdu_getbulk.c:28-38 | One successor step with its value. |
| BulkPdu.AppendResult | firmware/components/snmp_core/snmp_pdu_getbulk.c:53-80 | Writes one slot unless the response is full, and touches no other. |
| BulkPdu.FillNonRepeaters | firmware/components/snmp_core/snmp_pdu_getbulk.c:112-119 | Each non-repeater is read before it is overwritten where it stands. |
| BulkPdu.RunRound | firmware/components/snmp_core/snmp_pdu_getbulk.c:137-156 | One round writes one slot per repeater in order, or fills the response to exactly 50 and stops. |
| BulkPdu.RunRounds | firmware/components/snmp_core/snmp_pdu_getbulk.c:136-160 | All rounds end for every max-repetitions and leave the first 50 entries of the unlimited reply. |
| BulkPdu.HandleGetBulk | firmware/components/snmp_core/snmp_pdu_getbulk.c:82-169 | The in-place handler refines a reply built apart from the request and then cut to 50; v1 gets no answer. |
| BulkPdu.GridSlot | firmware/components/snmp_core/snmp_pdu_getbulk.c:136-156 | Row k, column r of the rounds holds what repeater r yields after k steps, whatever the getters do. |
| BulkPdu.RoundsRunExact | firmware/components/snmp_core/snmp_pdu_getbulk.c:136-160 | Every round before the last moved some repeater; if repetitions were left over, the last moved none. |
| BulkPdu.SlotIsIterate | firmware/components/snmp_core/snmp_pdu_getbulk.c:138-156 | Round k of a repeater yields its (k+1)-th successor with its value while everything up to there can be read; the round in which it stops yields the reason under the last name reached, later rounds endOfMibView under that name; it moves exactly in the first kind of round. |
| BulkPdu.BulkGrid | firmware/components/snmp_core/snmp_pdu_getbulk.c:91-161 | Every reply is the grid of section 4.2.3 of RFC 3416, from the fields of the request: N = min(max(non-repeaters, 0), varbinds) names looked up once; R = min(the rest, 16) columns; in slot N + k*R + r what the r-th of them yields in round k; as many slots as that makes, up to 50; no round for max-repetitions of 0 or less, otherwise 1 to max-repetitions, every one but the last moving some column, and the last none if repetitions are left over. |
| BulkPdu.BulkFront | firmware/components/snmp_core/snmp_pdu_getbulk.c:110-119 | Slot i is one GETNEXT of name i for every i below the non-repeaters field. |
| BulkPdu.RepeaterWalks | firmware/components/snmp_core/snmp_pdu_getbulk.c:129-156 | The names a repeater reads are a walk of the view, the one that GETNEXT takes step by step. |
| BulkPdu.FalseEndExact | firmware/components/snmp_core/snmp_pdu_getbulk.c:60-69 | A slot that is not a value says endOfMibView although names follow if and only if the repeater was stopped by a getter, in an earlier round in any way, in this one not by being told that the name is missing. |
| BulkPdu.FalseEnd | firmware/components/snmp_core/snmp_pdu_getbulk.c:60-69 | Five repetitions from 1.3, where 1.3.1 cannot be read: 1.3.0 and endOfMibView, although 1.3.1 and 1.3.2 are in the view. |
| Community.ProcessIncoming | firmware/components/snmp_core/snmp_security_community.c:17-75 | Fills the context with exactly the parsed request, and rejects exactly what the specification rejects. |
| Community.PrepareOutgoing | firmware/components/snmp_core/snmp_security_community.c:77-110 | Succeeds exactly when the message exists and fits, and leaves it at the front of the buffer after the shift. |
| Community.Configure | firmware/components/snmp_core/snmp_security_community.c:117-126 | Whatever is configured, both communities are C strings; one without a NUL is kept if it has at most 31 octets, and otherwise is its first 31. |
| Community.EnvelopeRoundTrip | firmware/components/snmp_core/snmp_security_community.c:17-110 | The envelope around any PDU octets comes apart into version, community and those octets. |
| Community.MessageRoundTrip | firmware/components/snmp_core/snmp_security_community.c:77-110 | A manager reads back the same version, community and PDU exactly when all varbinds can be carried and there are at most 50. |
| Community.RequestMessageRoundTrip | firmware/components/snmp_core/snmp_security_community.c:17-75 | The agent recovers every carriable request under a configured community: version, access, community and PDU, with the read-write community taking precedence. |
| Agent.Agent.DispatchPdu | firmware/components/snmp_core/snmp_dispatch.c:3-19 | Routes on the PDU tag; the context and the MIB state afterwards are the handler's. |
| Agent.Agent.Process | firmware/components/snmp_core/snmp_message.c:21-72 | From any earlier contents of the reused context, answer and new MIB state are a function of the datagram, the configuration, the MIB and the room for the answer alone. |
| EchoSize.UnsignedGrowth | firmware/components/ber/ber_decode.c:108-154 | A received unsigned value is re-encoded in one octet more exactly when it came without its pad and not at full width, otherwise in no more octets. |
| EchoSize.OidDoesNotGrow | firmware/components/ber/ber_decode.c:186-237 | A received OID is re-encoded in no more octets, padding groups included. |
| EchoSize.OidEncodableExact | firmware/components/ber/ber_encode.c:187-200 | The received OIDs that cannot be encoded again are those whose first octet is 120 or more. |
| EchoSize.ValueEncodableExact | firmware/components/snmp_core/snmp_codec.c:7-88 | Every received value can be encoded again, but for such an OID. |
| EchoSize.EchoDoesNotGrow | firmware/components/snmp_core/snmp_codec.c:174-255 | A reply with the request-id and varbinds of a request in which no unsigned value lacks its pad, and a one-octet status and index, is no longer than the request PDU. |
| EchoSize.EchoMessageDoesNotGrow | firmware/components/snmp_core/snmp_security_community.c:77-110 | The same for the whole message. |
| Agent.ReplyIsReadable | firmware/components/snmp_core/snmp_message.c:21-72 | Every datagram sent fits. A manager reads it as exactly the PDU the handler made, a GetResponse with the request's version and request-id, under the NUL-free configured community that was used, with as many varbinds as the request for all but GETBULK, if and only if the wire can carry every varbind; it can in the answer to a SET and wherever what the MIB reports fits the wire. |
| Service.KnownColumnExact | firmware/components/mib/mib_registry.c:164-185 | A name is shaped like a cell exactly if it is the entry of some table, the number of one of its columns and any row. |
| Service.FetchExact | firmware/components/snmp_core/snmp_pdu_get.c:38-66 | Reading a name in v2c: what the getter of its owner reports, or its failure; outside the view noSuchInstance under a known column and noSuchObject elsewhere. |
| Service.HiddenExact | firmware/components/snmp_core/snmp_pdu_get.c:50-53 | What v1 does not see are the names whose owner has the tag 0x46. |
| Service.GetReplyExact | firmware/components/snmp_core/snmp_pdu_get.c:68-133 | The answer to a GET of any list: in v1 every name with what its owner reports, or the request itself with the first name that cannot be read and 2 to 5 by its cause; in v2c varbind by varbind, noSuchObject or noSuchInstance where there is none, up to the first getter that fails outright, which is 5. |
| Service.NextReplyExact | firmware/components/snmp_core/snmp_pdu_get.c:68-138 | The same for GETNEXT, with the least name above each: in v1 of those it sees, 2 where none follows and 5 behind 64 hidden ones or more; in v2c of all, endOfMibView under the name asked for where none follows. |
| Service.DispatchExact | firmware/components/snmp_core/snmp_dispatch.c:3-19 | Whatever is answered was a request with A0, A1, A3 under write access, or A5 in v2c, and the reply is the one above for that kind; only A3 changes the state. |
| Service.ServedExact | firmware/components/snmp_core/snmp_message.c:21-72 | From datagram to datagram: every datagram sent encodes, in the version and under the community of the request, the reply above, and the state afterwards is the one that goes with it. |
| Octets.Exchange | firmware/components/snmp_core/snmp_message.c:21-72 | One exchange octet by octet: a GET of 1.3.300 and 1.3.0 where only the second exists, a TimeTicks of 32768, in v1 and in v2c, and the datagram sent back. |
| Writes.OnlyValidSetWrites | firmware/components/snmp_core/snmp_message.c:50-63 | Serving a datagram, the entries of getters in their books included, changes what getters make no entries in only for a SetRequest under the read-write community that is not empty and all of whose varbinds are valid in the state it meets. |
| Writes.RunIntegrity | firmware/components/snmp_core/snmp_message.c:50-72 | Over any run of datagrams, with any change of state in between: a part of the state that nothing but setters touches between datagrams changes only across such SetRequests. |
| Writes.RunIsItsWrites | firmware/components/snmp_core/snmp_message.c:50-72 | Over any run, a part of the state that is left to setters and does not depend on the rest is in the end what the authorised SetRequests make of it. |
| Writes.UndisturbedRun | firmware/components/snmp_core/snmp_message.c:50-72 | If nothing happens between datagrams and getters write nothing, the whole state after a run is what its authorised SetRequests make of the first state. |
| Writes.ReadsLeaveTraces | firmware/components/mib/mib_sensor_table.c:98-110 | With a temperature whose GET is counted and a scalar that reads as the count: a GET of the count is answered differently after a GET of the temperature, no write was made, and the state is not what the writes make of it. |
| Answers.AnsweredExact | firmware/components/snmp_core/snmp_message.c:38-71 | A datagram is answered exactly when it holds a request that a handler answers, and the varbinds of the answer can be encoded and leave it no longer than the room there is. |
| Answers.DispatchIsShort | firmware/components/snmp_core/snmp_dispatch.c:3-19 | The requests a handler answers are GET, GETNEXT, a SET with write access and a v2c GETBULK; status and index of every answer take one octet each. |
| Answers.SetUnansweredExact | firmware/components/snmp_core/snmp_message.c:60-70 | An authorised SetRequest has its effect in any case and goes unanswered exactly when its own varbinds cannot be encoded or leave the answer too long, a condition on the request alone. |
| Answers.SetIsAnswered | firmware/components/transport/snmp_udp.c:62-77 | With as much room as the request took, an authorised SetRequest is answered if its varbinds can be encoded and no unsigned value lacks its pad. |
| Answers.ManagersSetIsAnswered | firmware/components/transport/snmp_udp.c:62-77 | Every SetRequest that a manager encodes by the rules, at most 50 carriable varbinds under the read-write community, is answered in the room it took. |
| Unanswered.UnpaddedSetUnanswered | firmware/components/transport/snmp_udp.c:62-77 | An authorised, valid SetRequest of 1427 octets, fifty times a Gauge32 without its pad, takes effect and is not answered in 1472 octets. |
| Unanswered.LongBulkUnanswered | firmware/components/snmp_core/snmp_message.c:66-70 | A GETBULK for m strings of 30 octets, m up to 50, is answered in 1472 octets exactly when m is at most 38. |
| Manager.AskIsStep | firmware/components/snmp_core/snmp_message.c:21-72 | A name that a manager reads in the answer to a GETNEXT datagram is the next one there was to see, for v1 without Counter64, provided the varbind fetched survives the wire; an end it reads is the end, unless the getter of the next name denies it. |
| Manager.AskFinds | firmware/components/snmp_core/snmp_message.c:21-72 | Where the next name can be read and carried the manager reads it, and at the end it reads the end, given 400 octets of room and for v1 at most 63 Counter64 instances in between. |
| Manager.ManagerWalks | firmware/components/mib/include/mib_table.h:25-31 | What a manager reads that walks by datagrams, while anything happens to the MIB in between, strictly ascends and is no longer than the names the registry could ever show. |
| Manager.ManagerSeesEverything | firmware/components/mib/include/mib_table.h:25-31 | When it has read the end, it has met every name that lies ahead of its start and was there to see at each exchange, and has met it once. |
| Manager.WalkOfOne | firmware/components/snmp_core/snmp_message.c:21-72 | An instance: from 1.3 a manager of either version reads the one scalar 1.3.0 and then the end. |

## Left out

- Writes.OnlyValidSetWrites: a getter is a function of the state, and what it writes, such as the read counter of `mib_sensor_table.c:103`, counts as an entry made once the datagram has been served (`Settled`); that it may show within the same request is not modelled.
- Rows that change inside one lookup: each lookup sees one state. Between lookups of a walk the state is arbitrary.
- Mib.RowsAscend: asked of `next_index` for every argument and state, not only for rows that exist.
- Varbinds as a tagged C union: a value is a datatype, so stale union members and getters that set no tag are not modelled; a tag the codec does not know is `Unsupported`.
- BulkPdu.RepeatOnce: the parallel arrays `cursor[16]` and `exhausted[16]` are one array of pairs, sized to the repeaters in use.
- NULL-pointer arguments and their BAD_ARGS results: Dafny references are never null here.
- Object and table pointers in a resolved name are positions in the registry, so aliasing between modules is not modelled.
- `mib_registry_count` and `mib_registry_reset`: support for the repository's own tests.
- The security-model table and the SNMPv3 stub: a fixed choice, v1 and v2c to the community model, everything else declined.
- The trap encoder and the trap monitor: they reuse the modelled codec.
- The concrete modules `mib_ii.c`, `mib_wespe.c`, `mib_iftable.c` and `mib_sensor_table.c`: tables of constants and getters; any well-formed registry is covered.
- Sockets, tasks, WiFi, GPIO, sensors and the development agent: I/O without a visible specification.
- C struct layout and the memory budget assertion.
