# ESP-NOW peer addressing, modelled in Dafny

This project models the peer-addressing layer of a MicroPython project that
sits on ESP-NOW, and proves properties of that model. A device holds one
`Connection`, which wraps the ESP-NOW transport. Peers are identified by
their hardware address, written as text `AA:BB:CC:DD:EE:FF` and sent as six
bytes. Peers are collected in named `PeerGroup`s, and `BROADCAST` holds the
all-ones address. Sending to a group sends one datagram to every member.

The repository has two implementations of this layer, and they differ:

- `glib/gspnow.py` keeps dictionaries. A group maps address text to its
  Peer. The Connection maps group names to groups, and it also keeps a flat
  authorization map of every peer except the broadcast one. Incoming data is
  passed on only from senders in that map. Module `GSpNow` models it.
- `libraries/gespnow.py` keeps lists. Lookups return the first match, and
  `peerGroupAdd` never deduplicates. Its `peerRemove` cannot remove anything:
  it reads `self.connection`, but the attribute is `_connection`. Module
  `GEspNow` models it.

Both rest on two shared modules:

- `Codec` models the address conversions `_encode` and `_decode`, which both
  files define identically.
- `EspNow` models only the parts of the ESP-NOW transport the layers rely
  on: a set of registered addresses and a log of sent datagrams.

`Shared` models the integer helpers of `libraries/shared.py`:

- `clamp`;
- `convertRGBTo565`, with `|` written out as a bitwise or over naturals;
- the PID controller.

The contracts of methods that change state use `old`. The invariant of the
dict-based layer is `GSpNow.Connection.Valid`:

- every group member is stored under its canonical address and is
  registered with the transport;
- an address belongs to at most one group;
- the authorization map lists exactly the group members except the broadcast
  peer.

The twostate lemmas `PeerAddKeepsValid`, `PeerRemoveKeepsValid` and
`GroupAdded` carry that invariant across each operation.

## Model

| member | source | states |
|---|---|---|
| Codec.Upper | glib/gspnow.py:23-24 | `str.upper()` on text: same length, and every character is the upper-case form of the original |
| Codec.UpperIsUpper | glib/gspnow.py:23-24 | the result of upper-casing is upper case, and upper-casing it again changes nothing |
| Codec.Split | glib/gspnow.py:30 | `str.split(':')` always yields at least one piece, even for empty text |
| Codec.Join | glib/gspnow.py:34 | `':'.join(...)`: no parts give the empty text; otherwise the result begins with the first part and ends with the last |
| Codec.SplitJoin | glib/gspnow.py:30-34 | splitting on the separator gives back the joined parts whenever no part contains the separator |
| Codec.ParseHex | glib/gspnow.py:30 | `int(part, 16)` of n hexadecimal digits is a value in 0 .. 16^n - 1 |
| Codec.Format02x | glib/gspnow.py:34 | the `02x` format of a byte is exactly two hexadecimal digits, neither of them an upper-case letter |
| Codec.Format02xReadsBack | glib/gspnow.py:30-34 | `int(s, 16)` of the two digits the `02x` format prints for a byte is that byte |
| Codec.Encode | glib/gspnow.py:28-30 | the reference reading of an address: six bytes, byte i being group i read as two base-16 digits; `SplitParse` is proved equal to it |
| Codec.Decode | glib/gspnow.py:32-34 | `_decode` of any number of bytes is upper case, and empty for no bytes |
| Codec.DecodeAt | glib/gspnow.py:32-34 | `_decode` of n >= 1 bytes is 3n - 1 characters long, and character i is ':' at every third position and otherwise the upper-cased high or low digit of byte i / 3 |
| Codec.SplitParse | glib/gspnow.py:28-30 | `_encode` (split on ':' and read each part in base 16) yields the six bytes of `Encode` for every well-formed address |
| Codec.SplitWellFormed | glib/gspnow.py:30 | splitting a well-formed address on ':' gives exactly its six two-digit groups, all hex digits |
| Codec.EncodeDecode | glib/gspnow.py:28-34 | for every 6-byte value, `_decode` gives a well-formed address whose encoding is the original bytes |
| Codec.DecodeEncode | libraries/gespnow.py:151-157 | decoding the encoding of a well-formed address gives that address upper-cased |
| Codec.DecodeShape | glib/gspnow.py:32-34 | `_decode` of n bytes is n upper-case two-digit groups joined by ':'; of 6 bytes it is a canonical address; of no bytes it is empty |
| Codec.UpperWellFormed | glib/gspnow.py:24-25 | upper-casing a well-formed address keeps it well formed and does not change its encoding |
| Codec.EncodeInjective | glib/gspnow.py:25 | distinct canonical addresses have distinct encodings |
| Codec.BroadcastMacFacts | glib/gspnow.py:177 | FF:FF:FF:FF:FF:FF is canonical and encodes to six 255 bytes |
| Codec.DecodeAllOnes | glib/gspnow.py:191 | a sender of six 255 bytes is named FF:FF:FF:FF:FF:FF, the key deleted from the authorization map at construction |
| Codec.DecodedInKeys | glib/gspnow.py:191-196 | over canonical keys, the decoded sender is a key exactly when the sender bytes are a key's encoding |
| EspNow.Transport.AddPeer | glib/gspnow.py:89 | `add_peer` succeeds exactly when the address was not registered, and leaves it registered |
| EspNow.Transport.DelPeer | glib/gspnow.py:103 | `del_peer` succeeds exactly when the address was registered, and leaves it unregistered |
| EspNow.Transport.Send | glib/gspnow.py:57 | `send` appends one datagram for that address to the log |
| GSpNow.EnumerationSize | glib/gspnow.py:140 | a loop over a dict's keys that visits each key once makes exactly as many steps as there are keys |
| GSpNow.SendsToEveryMember | glib/gspnow.py:134-144 | a group's send emits one datagram per member, to each member's encoded address, and none for an empty group |
| GSpNow.ConsistentNewGroup | glib/gspnow.py:221-222 | registering a new, empty group keeps the groups, the authorization map and the transport table consistent |
| GSpNow.ConsistentAdd | glib/gspnow.py:89-91 | an address the transport accepted is in no group and not authorized; adding it to one group and to the map keeps consistency |
| GSpNow.ConsistentRemove | glib/gspnow.py:103-105 | a group member is canonical and registered; it is missing from the map only if it is the broadcast peer; removing it everywhere keeps consistency |
| GSpNow.ConsistentUnlistBroadcast | glib/gspnow.py:178 | deleting the broadcast address from the authorization map keeps consistency |
| GSpNow.ConsistentAuthorized | glib/gspnow.py:191-202 | the receive filter admits exactly the senders whose bytes are the address of an authorized peer, and each of them is a group member |
| GSpNow.Peer.constructor | glib/gspnow.py:21-26 | name and address are upper-cased; the address is canonical and its bytes are its encoding |
| GSpNow.Peer.SetName | glib/gspnow.py:36-38 | the new name is the argument upper-cased |
| GSpNow.Peer.Send | glib/gspnow.py:52-57 | exactly one datagram to the peer's encoded address |
| GSpNow.PeerGroup.constructor | glib/gspnow.py:70-77 | the name is upper-cased and the group starts empty |
| GSpNow.PeerGroup.PeerAdd | glib/gspnow.py:79-92 | a malformed address raises with nothing changed; an already registered one makes `add_peer` raise with nothing changed; otherwise the peer is registered and added to the group and to the authorization map under its upper-cased address |
| GSpNow.PeerGroup.PeerAddKeepsValid | glib/gspnow.py:79-92 | every outcome of `peerAdd` keeps the Connection's invariant, and an added address was new to the group and to the map |
| GSpNow.PeerGroup.PeerRemove | glib/gspnow.py:94-105 | a case-sensitive lookup: an absent key changes nothing; a present one whose address is not registered makes `del_peer` raise with nothing changed; otherwise it is removed from the transport and the group, and then from the map, where a missing key (the broadcast peer) raises KeyError |
| GSpNow.PeerGroup.PeerRemoveKeepsValid | glib/gspnow.py:94-105 | every outcome of `peerRemove` keeps the Connection's invariant; under it `del_peer` never raises, and only the broadcast peer of BROADCAST can reach the KeyError |
| GSpNow.PeerGroup.PeerFindByName | glib/gspnow.py:107-118 | a peer is returned only if it is a member with the upper-cased name; none is returned only if no member has that name |
| GSpNow.PeerGroup.PeerFindByMAC | glib/gspnow.py:120-132 | the member stored under the upper-cased address, or none exactly when there is no such key |
| GSpNow.PeerGroup.Send | glib/gspnow.py:134-144 | every member visited once in some order, and the log grows by one datagram per member in that order |
| GSpNow.Connection.GroupUpdated | glib/gspnow.py:89-91 | changing one group's members changes the member snapshot in that group's entry only |
| GSpNow.Connection.constructor | glib/gspnow.py:154-178 | the invariant holds; BROADCAST is the only group and holds only the all-ones peer named BROADCAST; the authorization map is empty; only the all-ones address is registered |
| GSpNow.Connection.BroadcastOnly | glib/gspnow.py:176-178 | the state the constructor builds satisfies the invariant |
| GSpNow.Connection.Receive | glib/gspnow.py:185-202 | a sender-less event is dropped; otherwise the callback runs once, with the upper-cased sender text, exactly when that text is in the authorization map |
| GSpNow.Connection.GetPeerGroupDefault | glib/gspnow.py:207-212 | returns the BROADCAST group, or none exactly when there is no such group |
| GSpNow.Connection.PeerGroupFind | glib/gspnow.py:226-238 | returns the group under the upper-cased name, or none exactly when there is none |
| GSpNow.Connection.PeerGroupAdd | glib/gspnow.py:214-224 | an existing group under the upper-cased name is returned unchanged; otherwise a fresh empty group is registered under it |
| GSpNow.Connection.GroupAdded | glib/gspnow.py:221-222 | registering a new empty group adds one empty entry to the member snapshot and keeps the invariant |
| GSpNow.Connection.Broadcast | glib/gspnow.py:240-243 | the BROADCAST group's fan-out, one datagram per member |
| GSpNow.Connection.Send | glib/gspnow.py:245-254 | with more than one group, each group except BROADCAST fans out once, in some order; with one group or none, nothing is sent |
| GSpNow.Connection.MemberTransport | glib/gspnow.py:83 | every group member sends on its Connection's transport |
| GEspNow.FirstIndex | libraries/gespnow.py:46-52 | the position of the first entry equal to the key, or -1 exactly when the key is absent |
| GEspNow.FirstIndexAt | libraries/gespnow.py:107-112 | a position holding the key with no earlier occurrence is where a first-match loop stops |
| GEspNow.FirstWith | libraries/gespnow.py:41-52 | the first item whose key matches, or none exactly when no key matches |
| GEspNow.FirstWithAppend | libraries/gespnow.py:81-90 | appending never changes an earlier lookup result: a later duplicate is shadowed, and is found only if no earlier entry matches |
| GEspNow.ListSends | libraries/gespnow.py:126-136 | one datagram per peer, in list order, to that peer's encoded address |
| GEspNow.ListSendsAppend | libraries/gespnow.py:132-133 | sending to a list sends to its prefix first, then to the rest |
| GEspNow.GroupSendsEmpty | libraries/gespnow.py:63-64 | groups without members contribute no datagrams |
| GEspNow.GroupSendsFromMembers | libraries/gespnow.py:59-66 | every datagram of a Connection-wide send carries the data and goes to a member of one of the groups sent to |
| GEspNow.Peer.constructor | libraries/gespnow.py:144-153 | name and address are upper-cased; the address is canonical and its bytes are its encoding |
| GEspNow.Peer.Send | libraries/gespnow.py:171-175 | exactly one datagram to the peer's encoded address |
| GEspNow.PeerGroup.constructor | libraries/gespnow.py:72-79 | the name is upper-cased and the list starts empty |
| GEspNow.PeerGroup.PeerAdd | libraries/gespnow.py:81-90 | a malformed address raises with nothing changed; otherwise the list grows by exactly the new peer and its address is registered, whether or not it already was |
| GEspNow.PeerGroup.PeerRemove | libraries/gespnow.py:92-100 | the AttributeError is raised exactly when some member's stored address equals the argument (case-sensitive); the list and the transport never change |
| GEspNow.PeerGroup.LowerCaseNeverMatches | libraries/gespnow.py:97 | an argument that is not upper case never matches, because stored addresses are upper-cased |
| GEspNow.PeerGroup.PeerFindByName | libraries/gespnow.py:102-112 | the first member in list order whose name is the upper-cased argument, or none |
| GEspNow.PeerGroup.PeerFindByMAC | libraries/gespnow.py:114-124 | the first member in list order whose address is the upper-cased argument, or none |
| GEspNow.PeerGroup.Send | libraries/gespnow.py:126-136 | the log grows by one datagram per member, in list order, and by nothing for an empty group |
| GEspNow.Connection.constructor | libraries/gespnow.py:12-26 | exactly one group, BROADCAST, holding one peer named BROADCAST with address FF:FF:FF:FF:FF:FF; only the all-ones address is registered |
| GEspNow.Connection.GetPeerGroupDefault | libraries/gespnow.py:28-33 | the first group, or none exactly when the list is empty |
| GEspNow.Connection.DefaultIsBroadcast | libraries/gespnow.py:28-33 | as groups are only appended, the default group is always BROADCAST |
| GEspNow.Connection.PeerGroupAdd | libraries/gespnow.py:35-39 | exactly one fresh, empty group with the upper-cased name is appended, even if the name is taken, and earlier groups are unchanged |
| GEspNow.Connection.GroupChanged | libraries/gespnow.py:81-90 | changing the members of one listed group keeps the Connection's invariant |
| GEspNow.Connection.PeerGroupFind | libraries/gespnow.py:41-52 | the first group in list order with the upper-cased name, or none |
| GEspNow.Connection.Broadcast | libraries/gespnow.py:54-57 | only the first group's members are sent to |
| GEspNow.Connection.Send | libraries/gespnow.py:59-66 | with more than one group, the groups after the first fan out in list order; otherwise nothing is sent |
| Shared.Clamp | libraries/shared.py:61-62 | when the bounds are ordered the result lies within them, and it is n whenever n already does; below the range it is the lower bound, above it the upper; crossed bounds give the lower one |
| Shared.ClampIdempotent | libraries/shared.py:61-62 | clamping twice is clamping once |
| Shared.BitOrDisjoint | libraries/shared.py:16 | or-ing a multiple of 2^k with a value below 2^k is their sum |
| Shared.Pack565 | libraries/shared.py:16 | the three shifted fields occupy disjoint bits, so the two ors are sums |
| Shared.ConvertRGBTo565 | libraries/shared.py:3-17 | the result lies in 0..65535 and is the three clamped, truncated fields laid side by side |
| Shared.FieldsRecoverable | libraries/shared.py:11-16 | for components in 0..255, the top 5, 6 and 5 bits of each component can be read back from their fields |
| Shared.ConvertSaturates | libraries/shared.py:6-8 | out-of-range components give the same result as the nearest bound |
| Shared.ConvertExtremes | libraries/shared.py:3-17 | black packs to 0 and white to 65535 |
| Shared.IntegralError | libraries/shared.py:84 | with a non-negative clamp bound the integral term lies within it, and is unclamped when already within it |
| Shared.Output | libraries/shared.py:87-93 | with an unchanged error the derivative term vanishes |
| Shared.Pid.constructor | libraries/shared.py:67-76 | the three gains are stored and both remembered errors start at 0 |
| Shared.Pid.Calculate | libraries/shared.py:78-94 | the new proportional error is remembered; the stored integral error and the gains are never written; the result is the sum of the three terms |

## Left out

- Radio, WLAN and hardware: the transport is reduced to its table and its send log. Delivery, `irecv`, `irq`, `active`, `turnOff` and `turnOn` are not modelled. The device's own address is a constructor parameter of `GSpNow.Connection`.
- `pickle.dumps` and `pickle.loads`: the payload is an opaque type. Unpickling errors are not modelled.
- Interrupt-driven reception: `_callbackOnReceive` is an ordinary sequential method. The application callback is recorded in a `received` log.
- Logging and `print`: console output only.
- `__repr__` and the getters: fields are read directly.
- Codec: accepts only six groups of two hex digits. Python's `int(part, 16)` also accepts other group counts, lengths, signs, `0x` prefixes, underscores and spaces. Any other text is a `MalformedAddress` or `Malformed` error, where Python would raise or build a different byte array.
- Codec.Upper: upper-cases ASCII `a`-`z` only. MicroPython's `str.upper()` also maps other letters, but an address is hex digits and ':'.
- Transport `send` failures: not modelled, so a send always appends to the log.
- The dict-based `peerAdd`, when `add_peer` raises OSError: the error propagates, and the model returns `AlreadyRegistered` with nothing changed.
- `GSpNow.Connection` is also a Peer in the source (it inherits `Peer`): the inherited Peer methods on the Connection itself are not modelled. Its own name, address and bytes are fields.
- Dictionary iteration order: MicroPython promises none. The fan-out methods of `GSpNow` return their visiting order as a ghost result rather than fixing one.
- GSpNow.PeerGroup.PeerFindByName: states that any member with the name may be returned, not which one. The source returns the first in dictionary order, and that order is not modelled.
- Sender-based filtering: the claim that a FF:FF:FF:FF:FF:FF sender is always ignored holds from construction on only while that address stays out of the authorization map. Removing the broadcast peer from BROADCAST and adding it again puts it in the map. The model proves the general filter (`ConsistentAuthorized`) and `DecodeAllOnes`.
- Python numbers in the PID: gains and errors are unbounded integers. Floating-point gains and rounding are not modelled.
- `interpolateColor` and `translateLinearProportion`: they use float division.
- `glib/components.py`: ADC hardware reads and float division.
- `main.py` and `main-sender.py`: usage scripts only.
