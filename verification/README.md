# Verified model of pyrad2

pyrad2 is a RADIUS toolkit. This project models the parts of it that carry state, arithmetic and
round-trip behaviour, and proves what they promise. `dafny verify dfyconfig.toml` checks everything.

Most components come in two layers: functions on values, about which the theorems are proved, and a
class or method with the loops and field updates of the Python code, proved to compute those
functions. A receiver's exceptions are values (`Err`, `None`, `false`), so the error branches are part
of every contract.

## The components

**The attribute codec** (`pyrad2/packet.py`). `Dictionaries` says what the codec asks of a loaded
dictionary; `Wire` is the type-length-value framing; `Trees` are stored values and TLV chains;
`TlvSplit` is the round-robin emission with its greedy cut; `Decoding` is the decoder as a fold over a
store and two reassembly buffers; `Encoding` is the encoder and the exact condition under which it
raises nothing. `RoundTrip`, `Finishing` and `CodecTheorems` prove that decoding undoes encoding,
`Fragments` that interleaved fragment chains do not disturb each other, `Projection` that decoding is
per attribute code, `Totality` what the decoder refuses. `PacketObject` is the packet with its fields
and the decoder's loops; `PacketEncoder` has the encoder's loops. `Overlay` and `OverlayTheorems`
treat values set aside with `set_obfuscated`.

**Signatures and ciphers** (`pyrad2/packet.py`). `Signing`, `SigningWire`, `SigningTheorems` and
`SigningObject` cover Message-Authenticator (section 5.14 of RFC 2869) and the Response Authenticator,
with MD5 and HMAC as arbitrary functions of sixteen octets and with values set aside by
`set_obfuscated` obfuscated anew at each of the two serializations. Signer and receiver may have
dictionaries of their own and any attributes beside the digest: `Reception` is what a receiver makes
of the octets, and `Reencoding` tells from the octets and the client's dictionary whether a reply can
be encoded again, which `verify_reply` does before it checks the digest. `Ciphers` covers the chained
password cipher (section 5.2 of RFC 2865) and the salt cipher (section 3.5 of RFC 2868).

**The clients.** `RetryPolicies` is the backoff schedule; `AsyncClients`, `AsyncTiming`,
`AsyncLiveness` and `Identifiers` are the asynchronous client as a state machine over send, tick and
reply events on a real-valued clock, and `PolicyChanges` says what a change of its policy does to a
run; `AsyncReplies` decides which datagrams answer a request; `AsyncClientObject` is the same machine
as an object. `SyncClient` is the synchronous attempt loop with its Acct-Delay-Time bookkeeping.

**The duplicate cache.** `DedupCache` is the LRU and TTL cache with a record of everything stored and
touched, `DedupServer` the dispatch protocol around it (section 2.2.2 of RFC 5080), `DedupObject` the
two objects.

**The dictionary.** `DictFiles` is the include stack, `Loading` and `LoadingObject` the attribute
objects with their parent links and container table, `ValueLines` the VALUE lines that wait for their
attribute.

**MD4** (`pyrad2/_md4.py`). `Md4` proves the padding, block and round loops, for arbitrary word
operations, against the step function of section 3.4 of RFC 1320.

`Bytes`, `Sequences`, `OrderedMaps` and `Wrappers` are shared.

## What the code does where it differs from its documentation

- The synchronous client sends at most `retries` datagrams; the documentation of `retries` promises
  one more. The asynchronous client sends 1 + `retries`. The model follows the code.
- Extended-Vendor-Specific attributes are section 2.4 of RFC 6929; the code's comments say 2.3.
- `salt_decrypt` chains on its own output, where the standard chains on the ciphertext. It recovers a
  value for every digest function exactly up to 15 octets (`Ciphers.SaltOwnExactly`).
- A Message-Authenticator digest that begins with the ASCII octets `0x` is taken for a hex literal
  when it is stored: such a request or reply is never accepted (`SigningTheorems.RequestVerifies`,
  `SigningTheorems.ReplyVerifies`).
- A value set aside for the salt cipher draws a fresh salt at every serialization, so the packet that
  is sent is not the one that was signed: it is accepted for every hash function only when both
  serializations happen to agree (`SigningTheorems.RedrawnExactly`, `SigningTheorems.AgreedExactly`).
- `verify_reply` encodes the reply again, and drops it when that raises. A TLV attribute without an
  element is stored as an empty map, which cannot be encoded, so a correctly signed reply that carries
  one is dropped (`Reencoding.EmptyTlvDropped`, with `Reencoding.EmptyTlvWitness`). Only containers and
  array and concat attributes can fail so (`Reencoding.ReencodesExactly`).
- A map nested beside a set-aside value is copied as the list of its sub-codes, and serialization
  fails unless the map is empty or holds the sub-code 0 alone in a long-extended container
  (`Overlay.NestedSiblingFails`, `Overlay.EffectiveShaped`).
- Replies with the CoA and Disconnect answer codes are signed with one authenticator and verified with
  another (`SigningTheorems.AgreedExactly`).
- The expiry sweep of the duplicate cache looks at the front only: it leaves no expired entry exactly
  when none within the cap stands behind a live one (`DedupCache.EvictExact`;
  `DedupCache.ExpiredEntryStays` is a run that ends otherwise). A lookup still never returns it.
- The timer loop can sleep past a deadline unless backoff is at least 1 and the base timeout at most
  the ceiling (`AsyncTiming.PunctualExactly`).
- An attribute named like the open EVS parent becomes its own parent
  (`Loading.SelfParentExactly`); a container inside an EVS block is filed under another chain than its
  parent links give (`Loading.EvsContainerExactly`). Two files are their concatenation exactly when the
  first leaves no vendor block open and its table in step with the links (`Loading.AsOneExactly`) and
  puts no VALUE line off (`ValueLines.ValueFilesAreOne`).

## Model

| member | source | states |
|---|---|---|
| `CodecTheorems.DecodeUndoesEncode` | pyrad2/packet.py:1485-1541 | Whole-codec round trip: decoding a header and the encoded attributes of any restorable store gives the same ordered store without its virtual attributes, both buffers empty, and the header fields of the chosen protocol version |
| `CodecTheorems.StoreRestored` | pyrad2/packet.py:1798-1875 | Decoding the attributes of a store behind any other store appends exactly its entries, in order, with empty buffers before and after |
| `CodecTheorems.GroupRestored` | pyrad2/packet.py:1485-1521 | The attributes of one entry add exactly that entry and leave every reassembly buffer empty again |
| `CodecTheorems.FinishRestores` | pyrad2/packet.py:1877-1945 | The concat and array passes undo what encoding did to every list |
| `CodecTheorems.HeaderReadsBack` | pyrad2/packet.py:1062-1080 | The 20-octet header reads back its code, identifier, authenticator and length |
| `Finishing.ListKeptExactly` | pyrad2/packet.py:1505-1521 | A list of a concat or array attribute survives packing, chunking, merging and splitting if and only if it meets a condition on its lengths alone |
| `Finishing.PackedSplit` | pyrad2/packet.py:1910-1945 | Packing several values into one and cutting it again gives the values back if and only if all have the type's fixed width |
| `Finishing.SplitFixpoint` | pyrad2/packet.py:1910-1945 | The array splitter leaves a list alone exactly when it leaves every value alone |
| `RoundTrip.ListGroup` | pyrad2/packet.py:1505-1521 | A list of plain, vendor or EVS values, fragmented or not, arrives as one new list of the same values |
| `RoundTrip.FragmentedValue` | pyrad2/packet.py:1414-1483 | A value cut into fragments arrives whole under its key and leaves no buffer behind |
| `RoundTrip.FragmentStep` | pyrad2/packet.py:1751-1796 | Decoding one encoded fragment is one step of the reassembly buffer, for long-extended, EVS and continuation vendor attributes of every legal format |
| `RoundTrip.TlvGroup` | pyrad2/packet.py:1275-1324 | A TLV map, with or without vendor wrapper, split over any number of attributes, arrives as the same map |
| `RoundTrip.ExtendedGroup` | pyrad2/packet.py:1377-1443 | A map of extended or long-extended values, nested containers included, arrives as the same map |
| `TlvSplit.SplitThenMerge` | pyrad2/packet.py:1275-1324 | However the rounds were cut, an empty first attribute included, parsing the pieces one after another gives the map: same codes, same order, same value lists |
| `TlvSplit.CutExact` | pyrad2/packet.py:1305-1311 | The greedy cut at 245 octets produces an over-long attribute exactly when a single round is over-long |
| `TlvSplit.MergeCut` | pyrad2/packet.py:1638-1673 | A receiver that has absorbed the first i rounds, wherever they were cut, holds every list up to round n after the pieces that follow |
| `Trees.ChainRoundTrip` | pyrad2/packet.py:1357-1375 | Encoding a nested map of any depth as a TLV chain and parsing it is the identity |
| `Trees.DecodeChainShaped` | pyrad2/packet.py:1638-1673 | Whatever the octets, parsing keeps the map well formed: no code twice, nested maps exactly at the sub-codes declared `tlv` |
| `Bytes.ChunksPartition` | pyrad2/packet.py:1347-1355 | Chunking loses nothing, fills every chunk but the last, and leaves none empty except for empty input |
| `Wire.FramesOfFlatten` | pyrad2/packet.py:1837-1871 | Framing concatenated attributes gives exactly these attributes |
| `Wire.FramesConsume` | pyrad2/packet.py:1837-1871 | Accepted framing accounts for every octet, headers and values |
| `Totality.FramingExact` | pyrad2/packet.py:1837-1871 | The attribute loop accepts a string exactly when it is a list of attributes whose last value may be cut short |
| `Totality.DecodesExactly` | pyrad2/packet.py:1798-1875 | PacketError is raised for everything but a header with the datagram's own length followed by such attributes, whatever the dictionary and vendor formats |
| `Totality.MalformedKeptWhole` | pyrad2/packet.py:1561-1631 | A malformed vendor payload is stored whole under code 26 and changes no other list of the packet |
| `Totality.WalksExactly` | pyrad2/packet.py:1575-1631 | A vendor payload is readable exactly when the sub-attribute headers of its format lead to its very end |
| `Decoding.FoldShaped` | pyrad2/packet.py:1837-1871 | Every attribute sequence leaves the store well formed, so no append ever meets a map and no map lookup a list |
| `Fragments.InterleavingIrrelevant` | pyrad2/packet.py:1751-1796 | Any interleaving of fragment chains of pairwise different slots leaves every slot's buffer and value as decoding the chains one after another does |
| `Fragments.Projection` | pyrad2/packet.py:1597-1613 | Decoding any fragment sequence shows each slot the run of its own fragments only |
| `Fragments.ListSlotGains` | pyrad2/packet.py:1777-1784 | A slot's list gains exactly the completed values, in order |
| `Fragments.UnfinishedChain` | pyrad2/packet.py:1597-1613 | A chain whose More flag never clears contributes nothing |
| `Fragments.MixedListSlot` | pyrad2/packet.py:1751-1796 | Fragments of other slots mixed in anywhere neither add to nor take from a list slot |
| `PacketObject.ParseChain` | pyrad2/packet.py:1638-1673 | The TLV chain loop with its recursion computes the specified map for every input, silent stops and overshooting lengths included |
| `PacketObject.Packet.AppendValue` | pyrad2/packet.py:1847-1869 | Appending to a key never meets a map and changes the store in that one place |
| `PacketObject.Packet.DecodeTlvAttribute` | pyrad2/packet.py:1633-1636 | A TLV payload is merged into the map of its key, which is never a list |
| `PacketObject.Packet.DecodeExtendedValue` | pyrad2/packet.py:1715-1749 | An extended attribute goes to its EVS key, its nested map or its list |
| `PacketObject.Packet.DecodeLongExtendedFragment` | pyrad2/packet.py:1751-1796 | A fragment extends the buffer of its slot only, and the value is stored and the buffer removed when the More flag is clear |
| `PacketObject.Packet.DecodeVendorAttribute` | pyrad2/packet.py:1561-1631 | The sub-attribute loop returns the collected values or the whole payload under code 26, with the fragments and maps absorbed on the way |
| `PacketObject.Packet.DecodeAttributes` | pyrad2/packet.py:1837-1871 | The attribute loop ends, fails exactly on bad framing, and otherwise leaves the fold over the framed attributes |
| `PacketObject.Packet.MergeConcatAttributes` | pyrad2/packet.py:1877-1893 | The pass rewrites each concat list in place and nothing else |
| `PacketObject.Packet.SplitArrayAttributes` | pyrad2/packet.py:1910-1945 | The pass rewrites each array list in place and nothing else |
| `PacketObject.Packet.DecodePacket` | pyrad2/packet.py:1798-1875 | The object after `decode_packet` is the specified message; it fails exactly where the specification does, and a refused header leaves attributes and buffers alone |
| `Decoding.FoldFlag` | pyrad2/packet.py:1849-1860 | Decoding only ever raises the Message-Authenticator flag: an earlier flag survives and influences nothing else |
| `PacketEncoder.EncodeFragments` | pyrad2/packet.py:1242-1273 | The fragment loops emit one attribute a chunk with the More flag on all but the last |
| `PacketEncoder.EncodeValue` | pyrad2/packet.py:1228-1240 | One value is emitted under its key's framing, and an exception is raised exactly when a field does not fit |
| `PacketEncoder.EncodeValues` | pyrad2/packet.py:1505-1521 | The array and concat branches emit the values that travel, or fail exactly when one of them does |
| `PacketEncoder.EncodeTlvChain` | pyrad2/packet.py:1357-1375 | The recursive chain loop emits the chain of any depth, or fails exactly when an element overflows its length octet |
| `PacketEncoder.EncodeExtended` | pyrad2/packet.py:1377-1412 | One attribute a value, refused exactly above 252 octets, nested chains included |
| `PacketEncoder.EncodeLongExtended` | pyrad2/packet.py:1414-1443 | Every value and nested chain is fragmented on its own, in map order |
| `PacketEncoder.RoundsCover` | pyrad2/packet.py:1281-1304 | The emission rounds reach every instance: they all succeed exactly when every element fits |
| `PacketEncoder.SplitRounds` | pyrad2/packet.py:1275-1312 | The round and cut loops produce the specified pieces |
| `PacketEncoder.EncodeTlv` | pyrad2/packet.py:1275-1324 | The whole TLV encoder, vendor wrapper included, fails exactly on an empty map, an over-long element or round, or a field that does not fit |
| `PacketEncoder.EncodeGroup` | pyrad2/packet.py:1485-1521 | The dispatch emits the specified attributes of an entry, or fails exactly when the entry is not encodable |
| `PacketEncoder.EncodeAttributes` | pyrad2/packet.py:1523-1541 | Serialization emits the visible, unclaimed entries in order and then the set-aside part, or fails exactly when one of them cannot be encoded or a stored sibling cannot be copied, without changing the packet |
| `PacketEncoder.EncodeDeferred` | pyrad2/packet.py:893-946 | The seeding, copying and overlay loops emit the pending entries built from the sidecar, or fail exactly when a sibling copies to something without a length or an entry is not encodable |
| `PacketEncoder.SeedParent` | pyrad2/packet.py:871-891 | The stored siblings of the set-aside sub-codes are copied in order, nested maps as the lists the code makes of them |
| `Overlay.EffectiveAt` | pyrad2/packet.py:893-946 | Path by path, what travels is the set-aside values where a path has some, the copy of the stored value where its container has some, and the stored value everywhere else |
| `Overlay.EffectiveElsewhere` | pyrad2/packet.py:1523-1541 | A key the sidecar does not claim keeps its whole value |
| `Overlay.EffectiveShaped` | pyrad2/packet.py:871-891 | What travels is a well-formed store if and only if no map is nested beside a set-aside value |
| `Overlay.EffectiveKinded` | pyrad2/packet.py:893-946 | Whatever is nested, what travels has no key and no sub-code twice and maps only where containers are declared |
| `Overlay.NestedSiblingFails` | pyrad2/packet.py:887-891 | A non-empty map nested beside a set-aside value makes serialization fail, but for the sub-code 0 alone in a long-extended container |
| `Overlay.EncodeWithEffective` | pyrad2/packet.py:1523-1541 | Serializing with a sidecar is serializing the effective store, or fails when a sibling cannot be copied, unless something virtual was set aside |
| `Overlay.EmptySidecar` | pyrad2/packet.py:917-918 | Without set-aside values the store travels as it is |
| `OverlayTheorems.OverlayArrives` | pyrad2/packet.py:893-946 | The receiver of a serialized packet holds, at every path and key, what the sidecar and the store together promise, no key twice |
| `SigningWire.ZeroingRestores` | pyrad2/packet.py:437-467 | Zeroing the one code-80 attribute restores exactly the octets that were signed |
| `SigningWire.WireAround` | pyrad2/packet.py:401-434 | With any digest of up to sixteen octets a packet, set-aside values included, encodes if it does with a zero digest, and its attributes lie around the digest as they lie around the zeros |
| `SigningWire.OneDigestByCode` | pyrad2/packet.py:1485-1521 | The digest is the only code-80 attribute of a packet none of whose other entries is sent under code 80 |
| `SigningTheorems.RequestExactly` | pyrad2/packet.py:1062-1080 | A signed request verifies after decoding under any dictionary exactly when its digest does not begin with the octets `0x`, is the only code-80 attribute, is not cut by the receiver's array pass, and is also the digest of the second serialization |
| `SigningTheorems.RequestVerifies` | pyrad2/packet.py:1062-1080 | With set-aside values that come out the same at both serializations, whatever the other attributes and the receiver's dictionary: exactly when the digest does not begin with `0x`, is alone and is not cut |
| `SigningTheorems.RedrawnExactly` | pyrad2/packet.py:401-434 | A request is accepted for every choice of hash functions exactly when its two serializations agree and its digest is alone and not cut |
| `SigningTheorems.SelfVerifies` | pyrad2/packet.py:469-553 | A packet just signed and not sent verifies itself, re-encoded with its set-aside values, exactly when its digest does not begin with `0x`, whatever its code |
| `SigningTheorems.ReplyVerifies` | pyrad2/packet.py:1100-1186 | A signed reply of an agreed code, set-aside values unchanged, passes both the Response Authenticator and the Message-Authenticator check of the request it answers exactly when its digest does not begin with `0x`, is alone and not cut, and the client can encode the reply again |
| `SigningTheorems.ReplyExactly` | pyrad2/packet.py:469-553 | A signed reply of any code is accepted by any client exactly when its digest does not begin with `0x`, is alone and not cut, equals the one recomputed under the verifier's authenticator from the second serialization, and the client can encode the reply again |
| `SigningTheorems.AgreedExactly` | pyrad2/packet.py:401-434 | Acceptance for every choice of hash functions holds exactly for the codes on which signer and verifier use the same authenticator, serializations that agree, a digest alone and not cut, and a client that can encode the reply again |
| `SigningTheorems.PlainReplyExactly` | pyrad2/packet.py:1132-1186 | A reply without a digest is accepted exactly when the client can encode it again and does not insist on a digest for an Access-Request |
| `SigningTheorems.AcceptedIsGenuine` | pyrad2/packet.py:1132-1186 | Whatever octets arrive, a reply is accepted if and only if it carries the request's identifier, the hash of its own octets under the request's authenticator and secret, and, if it has a digest or the client insists, the HMAC over its zeroed octets, and what was decoded can be stored and encoded again |
| `Projection.FoldProjects` | pyrad2/packet.py:1837-1871 | What any attributes leave under the keys and in the buffers of one code is what the attributes of that code alone leave |
| `Reception.ReencodesByCode` | pyrad2/packet.py:1153 | A received packet can be encoded again if and only if the attributes of each code on their own can |
| `Reception.SameReencoding` | pyrad2/packet.py:1153 | Whether it can does not depend on its digest |
| `Reencoding.ReencodesExactly` | pyrad2/packet.py:1485-1541 | Whatever octets arrive, only containers and array and concat attributes decide: every other list can be encoded again |
| `Reencoding.ListReencodes` | pyrad2/packet.py:1505-1521 | The attributes of a list code can be encoded again exactly unless several elements of an array are longer together than one attribute |
| `Reencoding.TlvReencodes` | pyrad2/packet.py:1275-1324 | Those of a TLV container exactly when the map they are parsed into has an entry and no round too long |
| `Reencoding.EmptyTlvDropped` | pyrad2/packet.py:1278-1285 | A client drops every reply in which a TLV attribute arrives without an element, however well it is signed |
| `Reencoding.EmptyTlvWitness` | pyrad2/packet.py:1278-1285 | Such a reply, with the right Response Authenticator and digest |
| `Reencoding.RestorableReadable` | pyrad2/packet.py:1132-1186 | Under one dictionary, a packet whose attributes all survive decoding has one digest, not cut, and can be encoded again |
| `SigningObject.ZeroDigest` | pyrad2/packet.py:437-467 | The zeroing walk returns the attributes with the digest cleared, and fails exactly on bad framing, another digest length, or not exactly one digest |
| `SigningObject.SetDigest` | pyrad2/tools.py:29-65 | Assigning the attribute stores the octets, decoding those that look like a hex literal, and touches no other entry |
| `SigningObject.RefreshDigest` | pyrad2/packet.py:401-434 | The store afterwards is the old one with the digest over its zeroed serialization, set-aside values included |
| `SigningObject.VerifyDigest` | pyrad2/packet.py:469-553 | For received octets and for a packet re-encoded alike, the verdict is the specified one, and the store is as before but for the digest assigned back, or left zeroed by an exception while re-encoding |
| `SigningObject.VerifyingKeeps` | pyrad2/packet.py:552-553 | Verifying leaves the packet unchanged exactly for digests that are no hex literal |
| `Ciphers.PasswordRoundTrip` | pyrad2/packet.py:2152-2248 | Decryption gives the password without its trailing zero octets, hence the password itself if and only if it has none |
| `Ciphers.ChainInverse` | pyrad2/packet.py:2183-2204 | Chaining on the ciphertext in both directions recovers any whole number of blocks |
| `Ciphers.SaltCryptStandard` | pyrad2/packet.py:1962-1993 | `salt_crypt` accepts exactly values up to 255 octets, and the decryption of the standard recovers them |
| `Ciphers.SaltOwnExactly` | pyrad2/packet.py:1995-2014 | The code's own decryption undoes its encryption for every digest function exactly for values up to 15 octets |
| `Ciphers.Obfuscator.PwCrypt` | pyrad2/packet.py:2206-2248 | The block loop computes the hidden password and draws an authenticator exactly when there is none |
| `Ciphers.Obfuscator.PwDecrypt` | pyrad2/packet.py:2152-2204 | The block loop computes the shown password, and passes it through in RADIUS/1.1 |
| `Ciphers.Obfuscator.SaltCrypt` | pyrad2/packet.py:1962-1993 | The salt carries the high bit and the value is encrypted under the request's authenticator if there is one |
| `Ciphers.Obfuscator.SaltDecrypt` | pyrad2/packet.py:1995-2014 | The decryption loop with its length octet |
| `RetryPolicies.NeverHastyExactly` | pyrad2/retry.py:42-54 | Every wait reaches the base timeout exactly when backoff is at least 1 and the timeout at most the ceiling |
| `RetryPolicies.SumWaitsBound` | pyrad2/retry.py:42-54 | n waits are never longer than n times the ceiling |
| `RetryPolicies.GeometricSchedule` | pyrad2/retry.py:42-54 | While uncapped, the schedule has the closed form of a geometric series, and is n times the base timeout at the default backoff of 1 |
| `AsyncClients.ExactlyOnce` | pyrad2/client_async.py:53-205 | After any run each submitted request is exactly one of pending, answered or timed out; its datagrams are 1 plus its retry counter; a timed-out one sent exactly 1 + `retries` and timed out no earlier than its submission plus the sum of all waits |
| `AsyncClients.RunSound` | pyrad2/client_async.py:53-205 | The invariants of the pending table, the futures and the datagram counts hold along every run |
| `AsyncClients.ResolvedForever` | pyrad2/client_async.py:83-96 | A resolved future is never touched again |
| `AsyncClients.TickOwed` | pyrad2/client_async.py:64-118 | A turn of the loop lowers the sum of (`retries` - counter + 1) by exactly the number of requests it finds expired |
| `AsyncClients.ExpiriesBounded` | pyrad2/client_async.py:64-118 | Without new submissions never more expiries are serviced than were owed, whenever the turns come |
| `AsyncTiming.NeverLate` | pyrad2/client_async.py:64-118 | With a policy that never waits less than its base timeout the chosen sleep passes no deadline, of requests just retried included |
| `AsyncTiming.PunctualExactly` | pyrad2/client_async.py:64-118 | The loop never sleeps past a deadline, whatever is pending, exactly for such policies |
| `AsyncTiming.TimeOutsExact` | pyrad2/client_async.py:64-118 | On an ideal clock every time-out fires at the submission plus the sum of the waits, sends during the sleep included |
| `AsyncTiming.TimeOutAt` | pyrad2/client_async.py:64-118 | The same from the start of the client, for every request and run |
| `AsyncTiming.TickFind` | pyrad2/client_async.py:72-104 | What a turn leaves of each pending request, independent of the others |
| `AsyncLiveness.ResolvedByThen` | pyrad2/client_async.py:64-118 | On an ideal clock a future is resolved once the next turn lies beyond the schedule of its request, new submissions or not |
| `AsyncLiveness.ClockAdvances` | pyrad2/client_async.py:64-118 | Whatever the policy and however late the turns: without new submissions all turns but as many as expiries are owed, and one, come a full base timeout after the one before |
| `AsyncLiveness.TableEmpties` | pyrad2/client_async.py:64-118 | Whatever the policy and however late the turns: without new submissions the table is empty and every future resolved once the turns outnumber the work pending, counted in base timeouts |
| `AsyncLiveness.PatienceBound` | pyrad2/client_async.py:64-118 | That work is at most a longest wait and a base timeout for every datagram of every pending request |
| `AsyncLiveness.TableEmptiesInTime` | pyrad2/client_async.py:64-118 | On an ideal clock a bound that does not grow with the number of requests: the schedule of the last one and the expiries owed |
| `AsyncReplies.ResolvedGenuinely` | pyrad2/client_async.py:174-205 | A datagram resolves a future if and only if it decodes with a code, answers the pending request of that future by its identifier, is hashed and signed with that request's secret and authenticator, and can be stored and encoded again |
| `AsyncReplies.SignedReplyResolves` | pyrad2/client_async.py:174-205 | A signed reply of an agreed code to a pending request resolves its future, and changes nothing else, exactly when its digest does not begin with `0x`, is alone and not cut, and the client can encode the reply again; server and client may have dictionaries of their own |
| `PolicyChanges.RetriesChangeExactly` | pyrad2/retry.py:73-75 | A change of `retries` during a run keeps the guarantees exactly when no counter or answered request is beyond the new number and every time-out came after exactly that many |
| `PolicyChanges.TimeoutChangeOnRun` | pyrad2/retry.py:81-83 | A change of `timeout` during a run keeps the guarantees exactly when the run so far has waited for the new schedule |
| `PolicyChanges.TimeoutChangeExactly` | pyrad2/retry.py:81-83 | It keeps them on every run exactly when the first wait does not grow |
| `AsyncClientObject.DatagramClient.SendPacket` | pyrad2/client_async.py:123-137 | A submission is entered under its identifier, or refused when that is pending |
| `AsyncClientObject.DatagramClient.DatagramReceived` | pyrad2/client_async.py:174-205 | Decoding, the code, the table and `verify_reply` in turn: a datagram that answers a pending request resolves and removes it, anything else changes nothing |
| `AsyncClientObject.DatagramClient.WalkPending` | pyrad2/client_async.py:68-112 | The walk that updates entries in place and collects deletions for later equals servicing every request in turn, and finds the next wake-up |
| `AsyncClientObject.DatagramClient.TimeoutTurn` | pyrad2/client_async.py:64-118 | One turn of the loop is one tick of the machine, and the sleep is the specified one |
| `AsyncClientObject.DatagramClient.CreateId` | pyrad2/client_async.py:217-237 | The scan returns the first free identifier after the last, and fails when there is none |
| `AsyncClientObject.DatagramClient.SetRetries` | pyrad2/retry.py:73-75 | In the middle of a run the guarantees hold for the new number exactly when the run so far tolerates it |
| `AsyncClientObject.DatagramClient.SetTimeout` | pyrad2/retry.py:81-83 | In the middle of a run the guarantees hold for the new timeout exactly when the run so far has waited for it |
| `Identifiers.RoundRobin` | pyrad2/client_async.py:217-237 | With f identifiers free and the table unchanged, f calls return each free identifier exactly once, from any start |
| `Identifiers.RoundRobinPrefix` | pyrad2/client_async.py:217-237 | Fewer calls return pairwise different free identifiers |
| `Identifiers.ExhaustedExactly` | pyrad2/client_async.py:217-237 | Allocation fails exactly when all 256 identifiers are pending |
| `SyncClient.Request.Send` | pyrad2/client.py:148-246 | Attempt n carries the caller's first delay (or 0) plus the truncated earlier waits, at most `retries` datagrams go out, and on reply, Timeout and exception alike the packet is exactly as it was |
| `SyncClient.DelayBelowElapsed` | pyrad2/client.py:189-202 | The delay added to attempt n never exceeds the real time since the first attempt |
| `SyncClient.DelayNearSchedule` | pyrad2/client.py:189-202 | It falls behind the nominal schedule by less than a second a retry |
| `DedupCache.LookupAgrees` | pyrad2/dedup.py:120-132 | A hit returns the bytes last recorded, only before they expire, and a live reply since whose last touch fewer than `max_entries` other keys were touched is always found |
| `DedupCache.RunFaithful` | pyrad2/dedup.py:120-174 | On every run the cache stays within its bound, ordered by last touch, and agrees with the record |
| `DedupCache.RunFromEmpty` | pyrad2/dedup.py:104-174 | The same from a new cache, whatever the clock says at the start |
| `DedupCache.EvictExact` | pyrad2/dedup.py:164-174 | A sweep leaves only live entries if and only if no expired entry within the cap stands behind a live one |
| `DedupCache.ExpiredEntryStays` | pyrad2/dedup.py:164-174 | A witness for the other case: a hit has moved an older reply behind a younger one |
| `DedupServer.AtMostOnce` | pyrad2/server.py:261-293 | After any run a request whose handler runs is dropped, one whose live reply is cached is answered with exactly the bytes last sent, and only others start a handler |
| `DedupServer.RunOk` | pyrad2/dedup.py:177-209 | In-flight and cached keys stay disjoint, and the keys in flight are those whose handler runs |
| `DedupObject.ResponseCache.LookupReply` | pyrad2/dedup.py:120-132 | The lookup with its reordering and expiry |
| `DedupObject.ResponseCache.EvictLocked` | pyrad2/dedup.py:164-174 | The two sweep loops |
| `DedupObject.ResponseCache.RecordReply` | pyrad2/dedup.py:142-153 | Recording ends the in-flight mark, stores at the end and evicts |
| `DedupObject.Dispatcher.ConsultCache` | pyrad2/dedup.py:177-202 | The verdict of the cache, with the replay sent in the resent case |
| `DedupObject.Dispatcher.SendReply` | pyrad2/server.py:433-441 | The bytes sent are the bytes recorded |
| `DedupObject.Dispatcher.DedupDispatch` | pyrad2/server_async.py:297-335 | A dispatch with a handler that replies or not leaves the specified cache and datagrams |
| `DedupObject.DispatchIsSteps` | pyrad2/server_async.py:297-335 | Cache and datagrams of one dispatch are those of its arrival and end events in the protocol |
| `DedupObject.DispatchAll` | pyrad2/server_async.py:297-335 | Any sequence of dispatches leaves the specified cache and datagrams |
| `DedupObject.DispatchesAreRuns` | pyrad2/server_async.py:297-335 | Any sequence of dispatches in order of time is a possible run of the at-most-once protocol, with the same cache and the same datagrams sent |
| `DictFiles.DictFile.Next` | pyrad2/dictfile.py:146-157 | The next outcome is the head of what remains; `file()` and `line()` name its source and 1-based position; StopIteration exactly at the end |
| `DictFiles.DictFile.ReadAll` | pyrad2/dictfile.py:143-157 | Iterating to the end terminates and delivers exactly the in-order recursive expansion |
| `DictFiles.IncludeIsPaste` | pyrad2/dictfile.py:146-157 | With any include line replaced by the lines of the file it opens, every file still gives the same outcomes in the same order |
| `DictFiles.RankIrrelevant` | pyrad2/dictfile.py:146-157 | The expansion does not depend on the measure that witnesses acyclicity |
| `DictFiles.PositionsTrue` | pyrad2/dictfile.py:129-141 | Every outcome stands in its file at its position, and no include that opens is delivered |
| `Loading.TwoFilesAreOne` | pyrad2/dictionary.py:621-668 | Loading two files in turn gives the same objects, links, index and attributes as loading their concatenation, or the same refusal, VALUE lines apart |
| `Loading.ParseInStepExactly` | pyrad2/dictionary.py:276-452 | A line keeps the container table equal to the one rebuilt from the parent links if and only if its chain is the walk of its parents, no later container shares it, and a redefinition does not take a table entry away; redefined names included |
| `Loading.ChainsSound` | pyrad2/dictionary.py:254-274 | Every entry of the table is a container whose parent walk gives its key |
| `Loading.ChainsComplete` | pyrad2/dictionary.py:254-274 | With distinct chains every container is in the table under the chain of its walk |
| `Loading.KeepsChildrenExactly` | pyrad2/dictionary.py:441-452 | A line keeps every listed sub-code naming an attribute of that code and parent if and only if every listing that names the attribute it defines is that of its own parent and code |
| `Loading.LoadingLinksChildren` | pyrad2/dictionary.py:441-452 | After a file of such lines, under every sub-code an object lists there is an attribute of that code whose parent it is |
| `Loading.SelfParentExactly` | pyrad2/dictionary.py:439-440 | Inside an EVS block walks stay finite exactly when the attribute is not named like the open parent |
| `Loading.EvsContainerExactly` | pyrad2/dictionary.py:433-440 | A container inside an EVS block keeps the table in step exactly when its written chain is that of its walk |
| `Loading.AsOneExactly` | pyrad2/dictionary.py:621-668 | A file can be loaded before or joined with every other file alike if and only if at its end all walks end, no vendor block is open, and the container table is the one rebuilt from the parent links |
| `Loading.TameAsOneExactly` | pyrad2/dictionary.py:621-668 | For files that keep the table in step, if and only if no vendor block is open |
| `LoadingObject.DictionaryObject.WalkUp` | pyrad2/dictionary.py:266-273 | The upward walk terminates and collects the chain |
| `LoadingObject.DictionaryObject.ContainerChains` | pyrad2/dictionary.py:254-274 | The table rebuilt from the loaded attributes |
| `LoadingObject.DictionaryObject.DefineAttribute` | pyrad2/dictionary.py:276-452 | One ATTRIBUTE line: key, object, container entry and parent link, or its refusal |
| `LoadingObject.DictionaryObject.BeginBlock` | pyrad2/dictionary.py:550-599 | A vendor block opens exactly for a known vendor and, if given, a known EVS parent |
| `LoadingObject.DictionaryObject.ReadDictionary` | pyrad2/dictionary.py:621-668 | The object after a file is the specified one; it fails exactly where the specification does |
| `ValueLines.LoadsExactly` | pyrad2/dictionary.py:454-480 | A file loads exactly when every VALUE line names an attribute known by its end whose type, at the line or else at the end, takes the value; redefinitions included |
| `ValueLines.OrderIrrelevant` | pyrad2/dictionary.py:454-480 | Without redefinitions it does not matter where the VALUE lines stand |
| `ValueLines.NameStands` | pyrad2/dictionary.py:454-480 | What a name given by one VALUE line means after loading, exactly, before or after its attribute and through redefinitions |
| `ValueLines.ValueFilesAreOne` | pyrad2/dictionary.py:642-668 | A file that loads can be loaded before or joined with every other file alike if and only if it puts no VALUE line off |
| `ValueLines.ValueTables.ParseValue` | pyrad2/dictionary.py:454-480 | An unknown attribute is put off or refused, a known one gets the value in both directions |
| `ValueLines.ValueTables.Read` | pyrad2/dictionary.py:642-668 | The two passes of the file loop |
| `Md4.PaddingInjective` | pyrad2/_md4.py:47-52 | Two messages with the same padded form are the same |
| `Md4.AbsorbAppend` | pyrad2/_md4.py:54-99 | The registers are the only memory between blocks |
| `Md4.Tables` | pyrad2/_md4.py:35-40 | The shift and word tables are the schedules of section 3.4 of RFC 1320 |
| `Md4.PadZeros` | pyrad2/_md4.py:49-51 | The padding loop stops, with the least number of zeros that leaves 448 modulo 512 bits |
| `Md4.RunRound` | pyrad2/_md4.py:58-93 | Sixteen updates branching on j % 4 are sixteen steps of the operation whose registers rotate |
| `Md4.AbsorbAll` | pyrad2/_md4.py:54-99 | The block loop is the fold of the compression function |
| `Md4.Hash` | pyrad2/_md4.py:43-101 | The digest of every message under 2^61 octets, and the exception for longer ones |

## Left out

- Sockets, polling, transports, TLS and logging: the network is a list of input events and of datagrams sent.
- MD5, HMAC and random draws: parameters of the functions that use them.
- The kind of an exception raised while encoding: `Err` stands for all of them.
- Packets without a dictionary: every packet has one here.
- Conversion between octets and text, addresses, dates: attribute values are octets.
- Values of another type than bytes or lists of bytes put into the store by hand.
- Tokenising of dictionary lines and the option columns; vendor formats are given with the dictionary of the codec.
- `Loading.TwoFilesAreOne`: VALUE lines are separate (`ValueLines.ValueFilesAreOne`), since they touch no key and no link.
- `Reencoding.ReencodesExactly`: dictionaries that declare long-extended attributes at other codes than the two reserved for them.
- Resolution of file names against directories and the include sandbox: an include that does not open is an outcome with its file and position.
- Include graphs with a cycle: the source does not end on them.
- `Overlay.EffectiveAt`: values are set aside for lists only, never for a sub-code declared `tlv` (`Overlay.AllLeaves`), and arrive already obfuscated.
- `SigningTheorems.RequestExactly`: Message-Authenticator declared virtual or itself set aside, so that the packet is sent without the digest (`SigningWire.SendsDigest`).
- `verify_reply` without the received octets, which serializes the reply again, and its RADIUS/1.1 branch, which compares tokens.
- `AsyncClientObject.DatagramClient.DatagramReceived`: a pending packet keeps the authenticator it was submitted with; a retransmission that draws new salts would compute another.
- `SyncClient.Request.Send`: the polling inside one attempt is one event, and the packet's other attributes stay as they are (`Signing` covers the digest).
- Jitter: `wait_for` is resampled on every turn, so only jitter 0 gives an exact schedule.
- `AsyncClients.ExactlyOnce`: encoding failures inside `send_packet` and cancellation of futures; for changes of the policy during a run see `PolicyChanges`.
- Interleavings of threads between the two locked steps of `consult_cache`: each call is one step.
- Router, host, proxy, CHAP, MS-CHAP, EAP and RadSec glue: branch tables and fixed layouts.
