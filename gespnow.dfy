/** The list-based peer layer of libraries/gespnow.py: a Connection keeps a
    list of PeerGroups, the first of which is BROADCAST, and every group keeps
    a list of Peers. Lookups return the first match in list order; nothing
    deduplicates, and nothing is ever removed. */
module GEspNow {
  import opened Codec
  import opened EspNow

  /** `peerAdd` either returns the new peer or raises at `Peer(...)` because
      the address text does not parse. */
  datatype AddResult = Added(peer: Peer) | Malformed

  /** `peerRemove` either finds no peer with that address, or reaches
      `self.connection`, an attribute PeerGroup does not have (it stores
      `_connection`), and raises AttributeError there. */
  datatype RemoveOutcome = NoMatch | MissingAttribute

  datatype Option<T> = None | Some(value: T)

  // ------------------------------------------------------------ list lookups

  /** The position of the first entry equal to `key`, or -1 when there is none. */
  function FirstIndex(keys: seq<string>, key: string): (i: int)
    ensures -1 <= i < |keys|
    ensures i == -1 <==> key !in keys
    ensures 0 <= i ==> keys[i] == key && key !in keys[..i]
    decreases |keys|
  {
    if |keys| == 0 then -1
    else if keys[0] == key then 0
    else
      var j := FirstIndex(keys[1..], key);
      if j == -1 then -1
      else
        assert keys[..j + 1] == [keys[0]] + keys[1..][..j];
        j + 1
  }

  /** A position that holds `key` with no earlier occurrence is the first one. */
  lemma FirstIndexAt(keys: seq<string>, key: string, i: nat)
    requires i < |keys| && keys[i] == key && key !in keys[..i]
    ensures FirstIndex(keys, key) == i
  {
    assert key in keys;
  }

  /** The key of every item, in list order: what a lookup loop compares. */
  function Keys<T>(items: seq<T>, key: T -> string): (keys: seq<string>)
    ensures |keys| == |items|
    ensures forall i | 0 <= i < |items| :: keys[i] == key(items[i])
  {
    seq(|items|, i requires 0 <= i < |items| => key(items[i]))
  }

  function PeerName(p: Peer): string { p.name }
  function PeerMac(p: Peer): string { p.mac }
  function GroupName(g: PeerGroup): string { g.name }

  /** The first of `items` whose key is `key`, or null. */
  function FirstWith<T>(items: seq<T>, keys: seq<string>, key: string): (r: Option<T>)
    requires |keys| == |items|
    ensures r.None? <==> key !in keys
    ensures r.Some? ==> exists i | 0 <= i < |items| :: items[i] == r.value && keys[i] == key && key !in keys[..i]
  {
    var i := FirstIndex(keys, key);
    if i == -1 then None else Some(items[i])
  }

  /** Appending never changes an earlier answer: a later entry with the same
      key is shadowed, and is found only when no earlier entry has that key. */
  lemma FirstWithAppend<T>(items: seq<T>, keys: seq<string>, x: T, k: string, key: string)
    requires |keys| == |items|
    ensures FirstWith(items + [x], keys + [k], key) ==
      if key in keys then FirstWith(items, keys, key) else if k == key then Some(x) else None
  {
    var i := FirstIndex(keys + [k], key);
    if key in keys {
      var j := FirstIndex(keys, key);
      assert (keys + [k])[..j] == keys[..j];
      FirstIndexAt(keys + [k], key, j);
    } else if k == key {
      assert (keys + [k])[..|keys|] == keys;
      FirstIndexAt(keys + [k], key, |keys|);
    }
  }

  // ------------------------------------------------------------- sending

  /** One datagram per peer, in list order, to that peer's encoded address. */
  function ListSends(peers: seq<Peer>, data: Payload): (log: seq<Datagram>)
    ensures |log| == |peers|
    ensures forall i | 0 <= i < |peers| :: log[i].dest == peers[i].macBytes && log[i].payload == data
  {
    seq(|peers|, i requires 0 <= i < |peers| => Datagram(peers[i].macBytes, data))
  }

  /** Sending to a longer list sends to its prefix first, then to the rest. */
  lemma ListSendsAppend(a: seq<Peer>, b: seq<Peer>, data: Payload)
    ensures ListSends(a + b, data) == ListSends(a, data) + ListSends(b, data)
  {
  }

  /** The member lists of `groups`, in list order. */
  ghost function Members(groups: seq<PeerGroup>): (lists: seq<seq<Peer>>)
    reads groups
    ensures |lists| == |groups|
    ensures forall i | 0 <= i < |groups| :: lists[i] == groups[i].peers
  {
    seq(|groups|, i requires 0 <= i < |groups| reads groups => groups[i].peers)
  }

  /** The datagrams of sending to every member list in turn. */
  function GroupSends(lists: seq<seq<Peer>>, data: Payload): seq<Datagram>
  {
    if |lists| == 0 then []
    else GroupSends(lists[..|lists| - 1], data) + ListSends(lists[|lists| - 1], data)
  }

  /** Sending to lists 1..i+1 is sending to lists 1..i, then to list i. */
  lemma GroupSendsStep(lists: seq<seq<Peer>>, i: nat, data: Payload)
    requires 1 <= i < |lists|
    ensures GroupSends(lists[1..i + 1], data) == GroupSends(lists[1..i], data) + ListSends(lists[i], data)
  {
    assert lists[1..i + 1][..i - 1] == lists[1..i];
  }

  /** Groups that have no members contribute no datagrams, wherever they are. */
  lemma {:induction false} GroupSendsEmpty(lists: seq<seq<Peer>>, data: Payload)
    requires forall i | 0 <= i < |lists| :: lists[i] == []
    ensures GroupSends(lists, data) == []
    decreases |lists|
  {
    if |lists| > 0 {
      GroupSendsEmpty(lists[..|lists| - 1], data);
    }
  }

  /** Every datagram `Connection.send` emits belongs to a member of one of the groups. */
  lemma {:induction false} GroupSendsFromMembers(lists: seq<seq<Peer>>, data: Payload, d: Datagram)
    requires d in GroupSends(lists, data)
    ensures d.payload == data
    ensures exists i, j | 0 <= i < |lists| && 0 <= j < |lists[i]| :: d.dest == lists[i][j].macBytes
    decreases |lists|
  {
    var last := |lists| - 1;
    var sends := ListSends(lists[last], data);
    if d in sends {
      var j :| 0 <= j < |sends| && sends[j] == d;
      assert d.dest == lists[last][j].macBytes;
    } else {
      GroupSendsFromMembers(lists[..last], data, d);
      var i, j :| 0 <= i < last && 0 <= j < |lists[..last][i]| && d.dest == lists[..last][i][j].macBytes;
      assert lists[..last][i] == lists[i];
    }
  }

  // ------------------------------------------------------------------ classes

  class Peer {
    const name: string
    const mac: string
    const macBytes: seq<byte>
    const transport: Transport

    /** `Peer(name, mac_address, connection)`: both texts upper-cased, the address encoded. */
    constructor (name: string, mac: string, transport: Transport)
      requires WellFormedMac(mac)
      ensures this.name == Upper(name) && this.mac == Upper(mac)
      ensures CanonicalMac(this.mac) && macBytes == Encode(mac) && macBytes == Encode(this.mac)
      ensures this.transport == transport
    {
      UpperWellFormed(mac);
      this.name := Upper(name);
      this.mac := Upper(mac);
      this.macBytes := SplitParse(Upper(mac));
      this.transport := transport;
    }

    /** `Peer.send`: one datagram to this peer's encoded address. */
    method Send(data: Payload)
      modifies transport`log
      ensures transport.log == old(transport.log) + [Datagram(macBytes, data)]
    {
      transport.Send(macBytes, data);
    }
  }

  class PeerGroup {
    const name: string
    const transport: Transport
    var peers: seq<Peer>

    /** `PeerGroup(name, connection)`: the name upper-cased, no members. */
    constructor (name: string, transport: Transport)
      ensures this.name == Upper(name) && this.transport == transport && peers == []
    {
      this.name := Upper(name);
      this.transport := transport;
      this.peers := [];
    }

    /** Every member sends on this group's transport and keeps its address in
        canonical form, next to the encoding of that form. */
    ghost predicate Valid()
      reads this
    {
      forall i | 0 <= i < |peers| ::
        peers[i].transport == transport && CanonicalMac(peers[i].mac) && peers[i].macBytes == Encode(peers[i].mac)
    }

    /** `peerAdd`: a malformed address raises before anything changes. Otherwise
        the new peer is appended and its address registered; an OSError from a
        registration that is already there is swallowed, so the list grows by
        one peer per call whatever the transport table held. */
    method PeerAdd(name: string, mac: string) returns (r: AddResult)
      requires Valid()
      modifies this`peers, transport`registered
      ensures Valid()
      ensures r.Malformed? <==> !WellFormedMac(mac)
      ensures r.Malformed? ==> peers == old(peers) && transport.registered == old(transport.registered)
      ensures r.Added? ==> fresh(r.peer) && peers == old(peers) + [r.peer]
      ensures r.Added? ==> r.peer.name == Upper(name) && r.peer.mac == Upper(mac) && r.peer.transport == transport
      ensures r.Added? ==>
        r.peer.macBytes == Encode(mac) && transport.registered == old(transport.registered) + {Encode(mac)}
    {
      if !WellFormedMac(mac) {
        return Malformed;
      }
      var peer := new Peer(name, mac, transport);
      peers := peers + [peer];
      var ok := transport.AddPeer(peer.macBytes);
      return Added(peer);
    }

    /** `peerRemove`: a case-sensitive scan for the address. The first match
        raises AttributeError before `del_peer` or `pop` run, so the list and
        the transport table never change. */
    method PeerRemove(mac: string) returns (r: RemoveOutcome)
      ensures r == MissingAttribute <==> mac in Keys(peers, PeerMac)
    {
      var index := 0;
      while index < |peers|
        invariant 0 <= index <= |peers|
        invariant mac !in Keys(peers, PeerMac)[..index]
      {
        if peers[index].mac == mac {
          assert Keys(peers, PeerMac)[index] == mac;
          return MissingAttribute;
        }
        assert Keys(peers, PeerMac)[..index + 1] == Keys(peers, PeerMac)[..index] + [peers[index].mac];
        index := index + 1;
      }
      assert Keys(peers, PeerMac)[..index] == Keys(peers, PeerMac);
      return NoMatch;
    }

    /** Stored addresses are upper case, so an address with a lower-case digit
        never matches in `peerRemove`. */
    lemma LowerCaseNeverMatches(mac: string)
      requires Valid() && !IsUpper(mac)
      ensures mac !in Keys(peers, PeerMac)
    {
    }

    /** `peerFindByName`: the first member whose name is the upper-cased argument. */
    method PeerFindByName(name: string) returns (r: Peer?)
      ensures r == (var f := FirstWith(peers, Keys(peers, PeerName), Upper(name)); if f.None? then null else f.value)
    {
      var target := Upper(name);
      var i := 0;
      while i < |peers|
        invariant 0 <= i <= |peers|
        invariant target !in Keys(peers, PeerName)[..i]
      {
        if peers[i].name == target {
          FirstIndexAt(Keys(peers, PeerName), target, i);
          return peers[i];
        }
        assert Keys(peers, PeerName)[..i + 1] == Keys(peers, PeerName)[..i] + [peers[i].name];
        i := i + 1;
      }
      assert Keys(peers, PeerName)[..i] == Keys(peers, PeerName);
      return null;
    }

    /** `peerFindByMAC`: the first member whose address is the upper-cased argument. */
    method PeerFindByMAC(mac: string) returns (r: Peer?)
      ensures r == (var f := FirstWith(peers, Keys(peers, PeerMac), Upper(mac)); if f.None? then null else f.value)
    {
      var target := Upper(mac);
      var i := 0;
      while i < |peers|
        invariant 0 <= i <= |peers|
        invariant target !in Keys(peers, PeerMac)[..i]
      {
        if peers[i].mac == target {
          FirstIndexAt(Keys(peers, PeerMac), target, i);
          return peers[i];
        }
        assert Keys(peers, PeerMac)[..i + 1] == Keys(peers, PeerMac)[..i] + [peers[i].mac];
        i := i + 1;
      }
      assert Keys(peers, PeerMac)[..i] == Keys(peers, PeerMac);
      return null;
    }

    /** `PeerGroup.send`: every member once, in list order; nothing when empty. */
    method Send(data: Payload)
      requires Valid()
      modifies transport`log
      ensures transport.log == old(transport.log) + ListSends(peers, data)
    {
      var i := 0;
      while i < |peers|
        invariant 0 <= i <= |peers|
        invariant transport.log == old(transport.log) + ListSends(peers[..i], data)
      {
        peers[i].Send(data);
        ListSendsAppend(peers[..i], [peers[i]], data);
        assert peers[..i + 1] == peers[..i] + [peers[i]];
        i := i + 1;
      }
      assert peers[..i] == peers;
    }
  }

  /** The Connection: the ESP-NOW transport and the list of groups. */
  class Connection {
    const transport: Transport
    var peerGroups: seq<PeerGroup>

    /** Every group sends on this Connection's transport and is itself valid. */
    ghost predicate Wired()
      reads this, peerGroups
    {
      forall i | 0 <= i < |peerGroups| :: peerGroups[i].transport == transport && peerGroups[i].Valid()
    }

    /** Wired, and the first group is BROADCAST. */
    ghost predicate Valid()
      reads this, peerGroups
    {
      Wired() && |peerGroups| > 0 && peerGroups[0].name == BroadcastGroup
    }

    /** `Connection()`: a fresh transport, a BROADCAST group first in the list,
        holding the peer FF:FF:FF:FF:FF:FF named BROADCAST. */
    constructor ()
      ensures Valid() && fresh(transport)
      ensures |peerGroups| == 1 && peerGroups[0].name == BroadcastGroup && |peerGroups[0].peers| == 1
      ensures peerGroups[0].peers[0].name == BroadcastGroup && peerGroups[0].peers[0].mac == BroadcastMac
      ensures peerGroups[0].peers[0].macBytes == AllOnesBytes
      ensures transport.registered == {AllOnesBytes} && transport.log == []
    {
      transport := new Transport();
      peerGroups := [];
      new;
      BroadcastMacFacts();
      BroadcastGroupUpper();
      var group := PeerGroupAdd(BroadcastGroup);
      var r := group.PeerAdd(BroadcastGroup, BroadcastMac);
      assert r.Added?;
    }

    /** `getPeerGroupDefault`: the first group, or None when the list is empty. */
    function GetPeerGroupDefault(): (g: PeerGroup?)
      reads this
      ensures g == null <==> |peerGroups| == 0
      ensures g != null ==> g == peerGroups[0]
    {
      if |peerGroups| > 0 then peerGroups[0] else null
    }

    /** Since groups are only ever appended, the default group stays BROADCAST. */
    lemma DefaultIsBroadcast()
      requires Valid()
      ensures GetPeerGroupDefault() != null && GetPeerGroupDefault().name == BroadcastGroup
    {
    }

    /** `peerGroupAdd`: always appends one new empty group named by the
        upper-cased argument, even when a group of that name is already listed. */
    method PeerGroupAdd(name: string) returns (g: PeerGroup)
      requires Wired()
      modifies this`peerGroups
      ensures Wired() && (old(Valid()) ==> Valid())
      ensures fresh(g) && peerGroups == old(peerGroups) + [g]
      ensures g.name == Upper(name) && g.transport == transport && g.peers == []
    {
      g := new PeerGroup(name, transport);
      peerGroups := peerGroups + [g];
    }

    /** After a member was added to one listed group, the Connection is still valid. */
    twostate lemma GroupChanged(g: PeerGroup)
      requires old(Valid()) && unchanged(this`peerGroups) && g in peerGroups && g.Valid()
      requires forall i | 0 <= i < |peerGroups| && peerGroups[i] != g :: unchanged(peerGroups[i])
      ensures Valid()
    {
    }

    /** `peerGroupFind`: the first group whose name is the upper-cased argument. */
    method PeerGroupFind(name: string) returns (r: PeerGroup?)
      ensures r == (var f := FirstWith(peerGroups, Keys(peerGroups, GroupName), Upper(name)); if f.None? then null else f.value)
    {
      var target := Upper(name);
      var i := 0;
      while i < |peerGroups|
        invariant 0 <= i <= |peerGroups|
        invariant target !in Keys(peerGroups, GroupName)[..i]
      {
        if peerGroups[i].name == target {
          FirstIndexAt(Keys(peerGroups, GroupName), target, i);
          return peerGroups[i];
        }
        assert Keys(peerGroups, GroupName)[..i + 1] == Keys(peerGroups, GroupName)[..i] + [peerGroups[i].name];
        i := i + 1;
      }
      assert Keys(peerGroups, GroupName)[..i] == Keys(peerGroups, GroupName);
      return null;
    }

    /** `Connection.broadcast`: the first group's fan-out. */
    method Broadcast(data: Payload)
      requires Valid()
      modifies transport`log
      ensures transport.log == old(transport.log) + ListSends(peerGroups[0].peers, data)
    {
      peerGroups[0].Send(data);
    }

    /** `Connection.send`: with more than one group, every group after the
        first fans out, in list order; otherwise nothing is sent. */
    method Send(data: Payload)
      requires Valid()
      modifies transport`log
      ensures |peerGroups| <= 1 ==> transport.log == old(transport.log)
      ensures |peerGroups| > 1 ==> transport.log == old(transport.log) + GroupSends(Members(peerGroups)[1..], data)
    {
      if |peerGroups| > 1 {
        ghost var lists := Members(peerGroups);
        var i := 1;
        while i < |peerGroups|
          invariant 1 <= i <= |peerGroups|
          invariant Members(peerGroups) == lists
          invariant transport.log == old(transport.log) + GroupSends(lists[1..i], data)
        {
          peerGroups[i].Send(data);
          GroupSendsStep(lists, i, data);
          i := i + 1;
        }
        assert lists[1..i] == lists[1..];
      }
    }
  }
}
