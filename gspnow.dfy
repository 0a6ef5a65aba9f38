/** The dict-based peer layer of glib/gspnow.py: a Connection owns a flat
    authorization map from address text to Peer and a map from group name to
    PeerGroup; every group keeps its own map of members.

    MicroPython dictionaries promise no iteration order, so every loop over
    dictionary keys here picks the next key arbitrarily, and the methods that
    fan out return (as ghost results) the order in which they visited them. */
module GSpNow {
  import opened Codec
  import opened EspNow

  datatype PeerError = MalformedAddress | AlreadyRegistered

  /** What `PeerGroup.peerAdd` gives back: the new Peer, or the exception it raised. */
  datatype AddResult = Added(peer: Peer) | Failed(error: PeerError)

  /** How `PeerGroup.peerRemove` ended: the KeyError it catches (no such member),
      the OSError of `del_peer` when the member's address is not registered
      (raised before anything is deleted), a full removal, or the KeyError it
      does not catch, raised when the member is missing from the Connection's
      map after it was already removed from the group and from the transport. */
  datatype RemoveOutcome = NotInGroup | NotRegistered | Removed | NotInRegistry

  /** A list of keys that visits every key of `keys` exactly once. */
  ghost predicate Enumerates(order: seq<string>, keys: set<string>) {
    (forall i, j | 0 <= i < j < |order| :: order[i] != order[j]) &&
    (forall k :: k in order <==> k in keys)
  }

  lemma {:induction false} EnumerationSize(order: seq<string>, keys: set<string>)
    requires Enumerates(order, keys)
    ensures |order| == |keys|
    decreases |order|
  {
    if |order| > 0 {
      var last := order[|order| - 1];
      var front := order[..|order| - 1];
      assert order == front + [last];
      assert Enumerates(front, keys - {last}) by {
        forall k ensures k in front <==> k in keys - {last} {
          if k in front {
            var i :| 0 <= i < |front| && front[i] == k;
            assert order[i] == k;
          }
          if k in keys - {last} {
            assert k in order;
            var i :| 0 <= i < |order| && order[i] == k;
            assert i < |order| - 1;
            assert front[i] == k;
          }
        }
      }
      EnumerationSize(front, keys - {last});
    } else {
      assert forall k :: k !in keys;
      assert keys == {};
    }
  }

  /** One step of a loop that visits the keys `all` in some order, recording
      every key except `skip`: visiting `n` keeps the record an enumeration of
      the visited keys. */
  lemma VisitStep(names: seq<string>, all: set<string>, keys: set<string>, n: string, skip: string)
    requires keys <= all && n in keys
    requires Enumerates(names, all - keys - {skip})
    ensures n != skip ==> Enumerates(names + [n], all - (keys - {n}) - {skip})
    ensures n == skip ==> Enumerates(names, all - (keys - {n}) - {skip})
  {
    assert n !in names;
    assert forall k :: k in names + [n] <==> k in names || k == n;
  }

  /** The datagrams a group sends when it visits its members in `order`. */
  ghost function SendsTo(order: seq<string>, members: map<string, Peer>, data: Payload): seq<Datagram>
    requires forall k | k in order :: k in members
  {
    seq(|order|, i requires 0 <= i < |order| => Datagram(members[order[i]].macBytes, data))
  }

  /** `PeerGroup.send` emits one datagram per member and nothing for an empty group. */
  lemma SendsToEveryMember(order: seq<string>, members: map<string, Peer>, data: Payload)
    requires Enumerates(order, members.Keys)
    ensures |SendsTo(order, members, data)| == |members|
    ensures forall k | k in members :: Datagram(members[k].macBytes, data) in SendsTo(order, members, data)
    ensures forall d | d in SendsTo(order, members, data) ::
      d.payload == data && exists k | k in members :: d.dest == members[k].macBytes
  {
    EnumerationSize(order, members.Keys);
    var s := SendsTo(order, members, data);
    forall k | k in members ensures Datagram(members[k].macBytes, data) in s {
      var i :| 0 <= i < |order| && order[i] == k;
      assert s[i] == Datagram(members[k].macBytes, data);
    }
  }

  /** The members of every group, by group name. */
  type GroupMembers = map<string, map<string, Peer>>

  /** A group member: stored under its canonical address, encoded from it,
      sending on the Connection's transport and registered there. */
  ghost predicate MemberOf(k: string, p: Peer, transport: Transport, registered: set<seq<byte>>) {
    CanonicalMac(k) && p.mac == k && p.macBytes == Encode(k) &&
    p.transport == transport && Encode(k) in registered
  }

  /** Every group member is well formed and registered with the transport. */
  ghost predicate Registered(groups: GroupMembers, transport: Transport, registered: set<seq<byte>>) {
    forall n, k | n in groups && k in groups[n] :: MemberOf(k, groups[n][k], transport, registered)
  }

  /** An address belongs to at most one group. */
  ghost predicate Exclusive(groups: GroupMembers) {
    forall n, m, k | n in groups && m in groups && k in groups[n] && k in groups[m] :: n == m
  }

  /** The authorization map is an index of group members ... */
  ghost predicate Indexed(groups: GroupMembers, peers: map<string, Peer>) {
    forall k | k in peers :: exists n | n in groups :: k in groups[n] && groups[n][k] == peers[k]
  }

  /** ... holding every member except the all-ones address of the broadcast group. */
  ghost predicate Listed(groups: GroupMembers, peers: map<string, Peer>) {
    (forall n, k | n in groups && k in groups[n] && k in peers :: peers[k] == groups[n][k]) &&
    (forall n, k | n in groups && k in groups[n] && k !in peers :: n == BroadcastGroup && k == BroadcastMac)
  }

  /** How the groups, the authorization map and the transport's table agree. */
  ghost predicate Consistent(groups: GroupMembers, peers: map<string, Peer>, transport: Transport, registered: set<seq<byte>>) {
    Registered(groups, transport, registered) && Exclusive(groups) && Indexed(groups, peers) && Listed(groups, peers)
  }

  lemma NewGroupIndexed(groups: GroupMembers, peers: map<string, Peer>, n: string)
    requires Indexed(groups, peers) && n !in groups
    ensures Indexed(groups[n := map[]], peers)
  {
    var groups' := groups[n := map[]];
    forall k | k in peers ensures exists m | m in groups' :: k in groups'[m] && groups'[m][k] == peers[k] {
      var m :| m in groups && k in groups[m] && groups[m][k] == peers[k];
      assert m in groups' && groups'[m] == groups[m];
    }
  }

  lemma NewGroupRest(groups: GroupMembers, peers: map<string, Peer>, transport: Transport,
                     registered: set<seq<byte>>, n: string)
    requires Registered(groups, transport, registered) && Exclusive(groups) && Listed(groups, peers)
    requires n !in groups
    ensures Registered(groups[n := map[]], transport, registered)
    ensures Exclusive(groups[n := map[]]) && Listed(groups[n := map[]], peers)
  {
  }

  /** A new, empty group keeps the maps consistent. */
  lemma ConsistentNewGroup(groups: GroupMembers, peers: map<string, Peer>, transport: Transport,
                           registered: set<seq<byte>>, n: string)
    requires Consistent(groups, peers, transport, registered) && n !in groups
    ensures Consistent(groups[n := map[]], peers, transport, registered)
  {
    NewGroupIndexed(groups, peers, n);
    NewGroupRest(groups, peers, transport, registered, n);
  }

  /** An address the transport does not know is a member of no group and not
      in the authorization map. */
  lemma UnregisteredIsNew(groups: GroupMembers, peers: map<string, Peer>, transport: Transport,
                          registered: set<seq<byte>>, key: string)
    requires Registered(groups, transport, registered) && Indexed(groups, peers)
    requires CanonicalMac(key) && Encode(key) !in registered
    ensures key !in peers && forall m | m in groups :: key !in groups[m]
  {
    forall m | m in groups ensures key !in groups[m] {
      assert key in groups[m] ==> MemberOf(key, groups[m][key], transport, registered);
    }
  }

  lemma AddRegistered(groups: GroupMembers, transport: Transport, registered: set<seq<byte>>, n: string, p: Peer)
    requires Registered(groups, transport, registered) && n in groups && CanonicalMac(p.mac)
    requires MemberOf(p.mac, p, transport, registered + {Encode(p.mac)})
    ensures Registered(groups[n := groups[n][p.mac := p]], transport, registered + {Encode(p.mac)})
  {
    var groups', registered' := groups[n := groups[n][p.mac := p]], registered + {Encode(p.mac)};
    forall m, k | m in groups' && k in groups'[m] ensures MemberOf(k, groups'[m][k], transport, registered') {
      if !(m == n && k == p.mac) {
        assert k in groups[m] && groups'[m][k] == groups[m][k];
        assert MemberOf(k, groups[m][k], transport, registered);
      }
    }
  }

  lemma AddExclusive(groups: GroupMembers, n: string, key: string, p: Peer)
    requires Exclusive(groups) && n in groups && forall m | m in groups :: key !in groups[m]
    ensures Exclusive(groups[n := groups[n][key := p]])
  {
  }

  lemma AddIndexed(groups: GroupMembers, peers: map<string, Peer>, n: string, key: string, p: Peer)
    requires Indexed(groups, peers) && n in groups
    ensures Indexed(groups[n := groups[n][key := p]], peers[key := p])
  {
    var groups', peers' := groups[n := groups[n][key := p]], peers[key := p];
    forall k | k in peers' ensures exists m | m in groups' :: k in groups'[m] && groups'[m][k] == peers'[k] {
      if k == key {
        assert n in groups' && groups'[n][k] == p;
      } else {
        var m :| m in groups && k in groups[m] && groups[m][k] == peers[k];
        assert m in groups' && k in groups'[m] && groups'[m][k] == peers'[k];
      }
    }
  }

  lemma AddListed(groups: GroupMembers, peers: map<string, Peer>, n: string, key: string, p: Peer)
    requires Listed(groups, peers) && n in groups && forall m | m in groups :: key !in groups[m]
    ensures Listed(groups[n := groups[n][key := p]], peers[key := p])
  {
  }

  /** A registration that the transport accepted is new to every group and to the
      authorization map; recording it in one group and in that map keeps them consistent. */
  lemma ConsistentAdd(groups: GroupMembers, peers: map<string, Peer>, transport: Transport,
                      registered: set<seq<byte>>, n: string, p: Peer)
    requires Consistent(groups, peers, transport, registered) && n in groups
    requires CanonicalMac(p.mac) && p.macBytes == Encode(p.mac) && p.transport == transport
    requires Encode(p.mac) !in registered
    ensures p.mac !in peers && forall m | m in groups :: p.mac !in groups[m]
    ensures Consistent(groups[n := groups[n][p.mac := p]], peers[p.mac := p], transport, registered + {Encode(p.mac)})
  {
    UnregisteredIsNew(groups, peers, transport, registered, p.mac);
    AddRegistered(groups, transport, registered, n, p);
    AddExclusive(groups, n, p.mac, p);
    AddIndexed(groups, peers, n, p.mac, p);
    AddListed(groups, peers, n, p.mac, p);
  }

  lemma RemoveRegistered(groups: GroupMembers, transport: Transport, registered: set<seq<byte>>, n: string, key: string)
    requires Registered(groups, transport, registered) && Exclusive(groups) && n in groups && key in groups[n]
    ensures Registered(groups[n := groups[n] - {key}], transport, registered - {Encode(key)})
  {
    assert MemberOf(key, groups[n][key], transport, registered);
    var groups', registered' := groups[n := groups[n] - {key}], registered - {Encode(key)};
    forall m, k | m in groups' && k in groups'[m] ensures MemberOf(k, groups'[m][k], transport, registered') {
      assert k in groups[m] && groups'[m][k] == groups[m][k];
      assert MemberOf(k, groups[m][k], transport, registered);
      assert k != key;
      if Encode(k) == Encode(key) {
        EncodeInjective(k, key);
      }
    }
  }

  lemma RemoveExclusive(groups: GroupMembers, n: string, key: string)
    requires Exclusive(groups) && n in groups
    ensures Exclusive(groups[n := groups[n] - {key}])
  {
  }

  lemma RemoveIndexed(groups: GroupMembers, peers: map<string, Peer>, n: string, key: string)
    requires Indexed(groups, peers) && n in groups
    ensures Indexed(groups[n := groups[n] - {key}], peers - {key})
  {
    var groups', peers' := groups[n := groups[n] - {key}], peers - {key};
    forall k | k in peers' ensures exists m | m in groups' :: k in groups'[m] && groups'[m][k] == peers'[k] {
      var m :| m in groups && k in groups[m] && groups[m][k] == peers[k];
      assert m in groups' && k in groups'[m] && groups'[m][k] == peers'[k];
    }
  }

  lemma RemoveListed(groups: GroupMembers, peers: map<string, Peer>, n: string, key: string)
    requires Listed(groups, peers) && Exclusive(groups) && n in groups && key in groups[n]
    ensures Listed(groups[n := groups[n] - {key}], peers - {key})
  {
    var groups', peers' := groups[n := groups[n] - {key}], peers - {key};
    forall m, k | m in groups' && k in groups'[m]
      ensures (k in peers' && peers'[k] == groups'[m][k]) || (m == BroadcastGroup && k == BroadcastMac)
    {
      assert k in groups[m] && k != key;
    }
  }

  /** Removing a member from its group, from the authorization map and from the
      transport's table keeps them consistent; only the all-ones address of the
      broadcast group can be missing from the authorization map. */
  lemma ConsistentRemove(groups: GroupMembers, peers: map<string, Peer>, transport: Transport,
                         registered: set<seq<byte>>, n: string, key: string)
    requires Consistent(groups, peers, transport, registered) && n in groups && key in groups[n]
    ensures CanonicalMac(key) && groups[n][key].macBytes == Encode(key) && Encode(key) in registered
    ensures key !in peers ==> n == BroadcastGroup && key == BroadcastMac
    ensures Consistent(groups[n := groups[n] - {key}], peers - {key}, transport, registered - {Encode(key)})
  {
    assert MemberOf(key, groups[n][key], transport, registered);
    RemoveRegistered(groups, transport, registered, n, key);
    RemoveExclusive(groups, n, key);
    RemoveIndexed(groups, peers, n, key);
    RemoveListed(groups, peers, n, key);
  }

  lemma UnlistIndexed(groups: GroupMembers, peers: map<string, Peer>, key: string)
    requires Indexed(groups, peers)
    ensures Indexed(groups, peers - {key})
  {
    forall k | k in peers - {key} ensures exists n | n in groups :: k in groups[n] && groups[n][k] == (peers - {key})[k] {
      assert k in peers;
    }
  }

  lemma UnlistListed(groups: GroupMembers, peers: map<string, Peer>)
    requires Listed(groups, peers) && Exclusive(groups)
    requires BroadcastGroup in groups && BroadcastMac in groups[BroadcastGroup]
    ensures Listed(groups, peers - {BroadcastMac})
  {
    forall m, k | m in groups && k in groups[m] && k !in peers - {BroadcastMac}
      ensures m == BroadcastGroup && k == BroadcastMac
    {
      if k in peers {
        assert k == BroadcastMac && k in groups[BroadcastGroup];
      }
    }
  }

  /** Dropping the all-ones address from the authorization map, while it is a
      member of the broadcast group, keeps the maps consistent. */
  lemma ConsistentUnlistBroadcast(groups: GroupMembers, peers: map<string, Peer>, transport: Transport,
                                  registered: set<seq<byte>>)
    requires Consistent(groups, peers, transport, registered)
    requires BroadcastGroup in groups && BroadcastMac in groups[BroadcastGroup]
    ensures Consistent(groups, peers - {BroadcastMac}, transport, registered)
  {
    UnlistIndexed(groups, peers, BroadcastMac);
    UnlistListed(groups, peers);
  }

  /** Set and map identities the Connection constructor needs. */
  lemma Singletons(p: Peer)
    ensures map[p.mac := p] - {p.mac} == map[]
    ensures {} + {AllOnesBytes} == {AllOnesBytes}
  {
  }

  lemma RemoveAbsent(m: map<string, Peer>, key: string)
    requires key !in m
    ensures m - {key} == m
  {
  }

  /** The receive filter admits exactly the senders whose bytes are the address
      of an entry of the authorization map, and each of them is a group member. */
  lemma ConsistentAuthorized(groups: GroupMembers, peers: map<string, Peer>, transport: Transport,
                             registered: set<seq<byte>>, sender: seq<byte>)
    requires Consistent(groups, peers, transport, registered)
    ensures Decode(sender) in peers <==> exists k | k in peers :: peers[k].macBytes == sender
    ensures Decode(sender) in peers ==> exists n | n in groups :: Decode(sender) in groups[n]
  {
    forall k | k in peers ensures CanonicalMac(k) && peers[k].macBytes == Encode(k) {
      var n :| n in groups && k in groups[n] && groups[n][k] == peers[k];
      assert MemberOf(k, groups[n][k], transport, registered);
    }
    DecodedInKeys(peers.Keys, sender);
  }

  class Peer {
    var name: string
    const mac: string
    const macBytes: seq<byte>
    const transport: Transport

    /** `Peer(mac_address, name, connection)`: both texts upper-cased, the address encoded. */
    constructor (mac: string, name: string, transport: Transport)
      requires WellFormedMac(mac)
      ensures this.name == Upper(name) && this.mac == Upper(mac)
      ensures CanonicalMac(this.mac) && macBytes == Encode(mac) && macBytes == Encode(this.mac)
      ensures this.transport == transport
    {
      UpperWellFormed(mac);
      this.name := Upper(name);
      this.mac := Upper(mac);
      this.macBytes := SplitParse(Upper(mac));
      this.transport := transport;
    }

    method SetName(name: string)
      modifies this`name
      ensures this.name == Upper(name) && IsUpper(this.name)
    {
      UpperIsUpper(name);
      this.name := Upper(name);
    }

    /** `Peer.send`: one datagram to this peer's encoded address. */
    method Send(data: Payload)
      modifies transport`log
      ensures transport.log == old(transport.log) + [Datagram(macBytes, data)]
    {
      transport.Send(macBytes, data);
    }
  }

  class PeerGroup {
    const name: string
    const parent: Connection
    var peers: map<string, Peer>

    constructor (parent: Connection, name: string)
      ensures this.name == Upper(name) && this.parent == parent && peers == map[]
    {
      this.name := Upper(name);
      this.parent := parent;
      this.peers := map[];
    }

    /** This group is the one its Connection registers under its name. */
    ghost predicate Attached()
      reads parent`peerGroups
    {
      parent.Wired() && name in parent.peerGroups && parent.peerGroups[name] == this
    }

    /** No other group of the Connection changed. */
    twostate predicate OthersUnchanged()
      reads parent`peerGroups, parent.peerGroups.Values`peers
    {
      forall n | n in parent.peerGroups && n != name && n in old(parent.peerGroups) ::
        parent.peerGroups[n].peers == old(parent.peerGroups[n].peers)
    }

    /** `peerAdd`: the Peer is built (a malformed address raises), registered with
        the transport (an address already registered raises), and only then put
        under its upper-case address into this group and the Connection's map. */
    method PeerAdd(mac: string, name: string) returns (r: AddResult)
      requires Attached()
      modifies this`peers, parent`peers, parent.transport`registered
      ensures Attached() && unchanged(parent`peerGroups) && OthersUnchanged()
      ensures r == Failed(MalformedAddress) <==> !WellFormedMac(mac)
      ensures r == Failed(AlreadyRegistered) <==> WellFormedMac(mac) && Encode(mac) in old(parent.transport.registered)
      ensures r.Added? <==> WellFormedMac(mac) && Encode(mac) !in old(parent.transport.registered)
      ensures r.Failed? ==>
        peers == old(peers) && parent.peers == old(parent.peers) &&
        parent.transport.registered == old(parent.transport.registered)
      ensures r.Added? ==>
        WellFormedMac(mac) && fresh(r.peer) &&
        r.peer.mac == Upper(mac) && r.peer.name == Upper(name) && r.peer.macBytes == Encode(mac) &&
        r.peer.transport == parent.transport &&
        peers == old(peers)[Upper(mac) := r.peer] &&
        parent.peers == old(parent.peers)[Upper(mac) := r.peer] &&
        parent.transport.registered == old(parent.transport.registered) + {Encode(mac)}
    {
      if !WellFormedMac(mac) {
        return Failed(MalformedAddress);
      }
      var peer := new Peer(mac, name, parent.transport);
      var ok := parent.transport.AddPeer(peer.macBytes);
      if !ok {
        return Failed(AlreadyRegistered);
      }
      peers := peers[peer.mac := peer];
      parent.peers := parent.peers[peer.mac := peer];
      return Added(peer);
    }

    /** `peerAdd` keeps the Connection valid. */
    twostate lemma PeerAddKeepsValid(mac: string, new r: AddResult)
      requires old(parent.Registries()) && old(Attached())
      requires unchanged(parent`peerGroups) && OthersUnchanged()
      requires r.Failed? ==>
        peers == old(peers) && parent.peers == old(parent.peers) &&
        parent.transport.registered == old(parent.transport.registered)
      requires r.Added? ==>
        WellFormedMac(mac) && r.peer.mac == Upper(mac) && r.peer.macBytes == Encode(mac) &&
        r.peer.transport == parent.transport &&
        Encode(mac) !in old(parent.transport.registered) &&
        peers == old(peers)[Upper(mac) := r.peer] &&
        parent.peers == old(parent.peers)[Upper(mac) := r.peer] &&
        parent.transport.registered == old(parent.transport.registered) + {Encode(mac)}
      ensures parent.Registries()
      ensures r.Added? ==> Upper(mac) !in old(parent.peers) && Upper(mac) !in old(peers)
    {
      parent.GroupUpdated(this);
      if r.Added? {
        UpperWellFormed(mac);
        ConsistentAdd(old(parent.Members()), old(parent.peers), parent.transport,
                      old(parent.transport.registered), name, r.peer);
      } else {
        assert parent.Members() == old(parent.Members());
      }
    }

    /** `peerRemove`: a case-sensitive lookup in this group; a member is
        deregistered from the transport and deleted from this group, and then
        from the Connection's map. */
    method PeerRemove(mac: string) returns (r: RemoveOutcome)
      requires Attached()
      modifies this`peers, parent`peers, parent.transport`registered
      ensures Attached() && unchanged(parent`peerGroups) && OthersUnchanged()
      ensures mac !in old(peers) ==>
        r == NotInGroup && peers == old(peers) && parent.peers == old(parent.peers) &&
        parent.transport.registered == old(parent.transport.registered)
      ensures mac in old(peers) && old(peers)[mac].macBytes !in old(parent.transport.registered) ==>
        r == NotRegistered && peers == old(peers) && parent.peers == old(parent.peers) &&
        parent.transport.registered == old(parent.transport.registered)
      ensures mac in old(peers) && old(peers)[mac].macBytes in old(parent.transport.registered) ==>
        peers == old(peers) - {mac} &&
        parent.transport.registered == old(parent.transport.registered) - {old(peers)[mac].macBytes} &&
        (mac in old(parent.peers) ==> r == Removed && parent.peers == old(parent.peers) - {mac}) &&
        (mac !in old(parent.peers) ==> r == NotInRegistry && parent.peers == old(parent.peers))
    {
      if mac !in peers {
        return NotInGroup;
      }
      var peer := peers[mac];
      var ok := parent.transport.DelPeer(peer.macBytes);
      if !ok {
        return NotRegistered;
      }
      peers := peers - {mac};
      if mac !in parent.peers {
        return NotInRegistry;
      }
      parent.peers := parent.peers - {mac};
      return Removed;
    }

    /** `peerRemove` keeps the Connection valid: deregistration never fails, since
        every member is registered, and only the broadcast peer is ever missing
        from the Connection's map. */
    twostate lemma PeerRemoveKeepsValid(mac: string, new r: RemoveOutcome)
      requires old(parent.Registries()) && old(Attached())
      requires unchanged(parent`peerGroups) && OthersUnchanged()
      requires mac !in old(peers) ==>
        r == NotInGroup && peers == old(peers) && parent.peers == old(parent.peers) &&
        parent.transport.registered == old(parent.transport.registered)
      requires mac in old(peers) && old(peers)[mac].macBytes !in old(parent.transport.registered) ==>
        r == NotRegistered && peers == old(peers) && parent.peers == old(parent.peers) &&
        parent.transport.registered == old(parent.transport.registered)
      requires mac in old(peers) && old(peers)[mac].macBytes in old(parent.transport.registered) ==>
        peers == old(peers) - {mac} &&
        parent.transport.registered == old(parent.transport.registered) - {old(peers)[mac].macBytes} &&
        (mac in old(parent.peers) ==> r == Removed && parent.peers == old(parent.peers) - {mac}) &&
        (mac !in old(parent.peers) ==> r == NotInRegistry && parent.peers == old(parent.peers))
      ensures parent.Registries()
      ensures mac in old(peers) ==>
        CanonicalMac(mac) && old(peers)[mac].macBytes == Encode(mac) &&
        old(peers)[mac].macBytes in old(parent.transport.registered)
      ensures r != NotRegistered
      ensures r == NotInRegistry ==> name == BroadcastGroup && mac == BroadcastMac
    {
      parent.GroupUpdated(this);
      if mac in old(peers) {
        ghost var before := old(parent.Members());
        ghost var registered := old(parent.transport.registered);
        assert before[name] == old(peers);
        ConsistentRemove(before, old(parent.peers), parent.transport, registered, name, mac);
        if mac !in old(parent.peers) {
          RemoveAbsent(old(parent.peers), mac);
        }
      } else {
        assert parent.Members() == old(parent.Members());
      }
    }

    /** `peerFindByName`: some member whose name is the upper-cased argument, or none. */
    method PeerFindByName(name: string) returns (r: Peer?)
      ensures r != null ==> r in peers.Values && r.name == Upper(name)
      ensures r == null ==> forall k | k in peers :: peers[k].name != Upper(name)
    {
      var target := Upper(name);
      var keys := peers.Keys;
      while keys != {}
        invariant keys <= peers.Keys
        invariant forall k | k in peers.Keys - keys :: peers[k].name != target
        decreases keys
      {
        var k :| k in keys;
        if peers[k].name == target {
          return peers[k];
        }
        keys := keys - {k};
      }
      return null;
    }

    /** `peerFindByMAC`: a case-insensitive lookup of the address. */
    method PeerFindByMAC(mac: string) returns (r: Peer?)
      ensures r != null <==> Upper(mac) in peers
      ensures r != null ==> r == peers[Upper(mac)]
    {
      var key := Upper(mac);
      if key in peers {
        return peers[key];
      }
      return null;
    }

    /** `PeerGroup.send`: every member once, in the dictionary's order. */
    method Send(data: Payload) returns (ghost order: seq<string>)
      requires Attached() && parent.Valid()
      modifies parent.transport`log
      ensures Enumerates(order, peers.Keys)
      ensures parent.transport.log == old(parent.transport.log) + SendsTo(order, peers, data)
    {
      order := [];
      if |peers| > 0 {
        var keys := peers.Keys;
        while keys != {}
          invariant keys <= peers.Keys
          invariant Enumerates(order, peers.Keys - keys)
          invariant parent.transport.log == old(parent.transport.log) + SendsTo(order, peers, data)
          decreases keys
        {
          var k :| k in keys;
          parent.MemberTransport(this, k);
          peers[k].Send(data);
          order := order + [k];
          keys := keys - {k};
        }
      }
    }
  }

  /** The Connection: itself a Peer with the device's own address and the name
      "SELF", the owner of the transport, of both maps and of the callback. */
  class Connection {
    const transport: Transport
    const mac: string
    const macBytes: seq<byte>
    var name: string
    /** The authorization map: address text to Peer. */
    var peers: map<string, Peer>
    var peerGroups: map<string, PeerGroup>
    /** Every call of `onDataReceived(sender, data)`, oldest first. */
    var received: seq<(string, Payload)>

    /** Every group is registered under its own name and belongs to this Connection. */
    ghost predicate Wired()
      reads this`peerGroups
    {
      forall n | n in peerGroups :: peerGroups[n].name == n && peerGroups[n].parent == this
    }

    /** Each group's members, by group name. */
    ghost function Members(): GroupMembers
      reads this`peerGroups, peerGroups.Values`peers
    {
      map n | n in peerGroups :: peerGroups[n].peers
    }

    /** The invariant of the two maps, as every operation keeps it. */
    ghost predicate Registries()
      reads this`peerGroups, this`peers, transport`registered, peerGroups.Values`peers
    {
      Wired() && Consistent(Members(), peers, transport, transport.registered)
    }

    ghost predicate Valid()
      reads this`peerGroups, this`peers, transport`registered, peerGroups.Values`peers
    {
      Registries() && BroadcastGroup in peerGroups
    }

    /** After one group's map changed, the snapshot differs in that group only. */
    twostate lemma GroupUpdated(group: PeerGroup)
      requires old(Wired()) && group.parent == this && group.name in peerGroups && peerGroups[group.name] == group
      requires unchanged(this`peerGroups) && group.OthersUnchanged()
      ensures Wired() && Members() == old(Members())[group.name := group.peers]
    {
    }

    /** `Connection()`: a fresh transport, the BROADCAST group holding the peer
        FF:FF:FF:FF:FF:FF named BROADCAST, and that peer deleted again from the
        authorization map. `selfMac` is what `wlan.config('mac')` reports. */
    constructor (selfMac: seq<byte>)
      ensures Valid() && fresh(transport)
      ensures name == "SELF" && macBytes == selfMac && mac == Decode(selfMac)
      ensures peers == map[] && received == []
      ensures peerGroups == map[BroadcastGroup := peerGroups[BroadcastGroup]]
      ensures BroadcastGroup in peerGroups && BroadcastMac in peerGroups[BroadcastGroup].peers
      ensures peerGroups[BroadcastGroup].peers == map[BroadcastMac := peerGroups[BroadcastGroup].peers[BroadcastMac]]
      ensures peerGroups[BroadcastGroup].peers[BroadcastMac].name == BroadcastGroup
      ensures peerGroups[BroadcastGroup].peers[BroadcastMac].macBytes == AllOnesBytes
      ensures transport.registered == {AllOnesBytes} && transport.log == []
    {
      name := "SELF";
      transport := new Transport();
      macBytes := selfMac;
      mac := Decode(selfMac);
      peers := map[];
      peerGroups := map[];
      received := [];
      new;
      BroadcastMacFacts();
      BroadcastGroupUpper();
      var group := PeerGroupAdd(BroadcastGroup);
      assert name == "SELF" && received == [] && transport.log == [] && transport.registered == {};
      var r := group.PeerAdd(BroadcastMac, BroadcastGroup);
      assert name == "SELF" && received == [] && transport.log == [];
      assert r.Added?;
      var p := r.peer;
      Singletons(p);
      peers := peers - {p.mac};
      BroadcastOnly(group, p);
    }

    /** The state the constructor builds: one group, BROADCAST, holding the
        registered all-ones peer, and an empty authorization map. */
    lemma BroadcastOnly(group: PeerGroup, p: Peer)
      requires peerGroups == map[BroadcastGroup := group] && group.name == BroadcastGroup && group.parent == this
      requires group.peers == map[BroadcastMac := p] && peers == map[]
      requires p.mac == BroadcastMac && p.name == BroadcastGroup && p.macBytes == AllOnesBytes && p.transport == transport
      requires transport.registered == {AllOnesBytes}
      ensures Valid()
      ensures peerGroups == map[BroadcastGroup := peerGroups[BroadcastGroup]]
      ensures BroadcastGroup in peerGroups && BroadcastMac in peerGroups[BroadcastGroup].peers
      ensures peerGroups[BroadcastGroup].peers == map[BroadcastMac := peerGroups[BroadcastGroup].peers[BroadcastMac]]
      ensures peerGroups[BroadcastGroup].peers[BroadcastMac].name == BroadcastGroup
      ensures peerGroups[BroadcastGroup].peers[BroadcastMac].macBytes == AllOnesBytes
    {
      BroadcastMacFacts();
      assert Members() == map[BroadcastGroup := map[BroadcastMac := p]];
    }

    /** `_callbackOnReceive` for a receive event carrying `sender` (empty when the
        event has none) and `data`: the callback runs once, with the upper-case
        sender text, exactly when that text is a key of the authorization map. */
    method Receive(sender: seq<byte>, data: Payload)
      modifies this`received
      ensures received == old(received) +
        (if |sender| > 0 && Decode(sender) in peers then [(Decode(sender), data)] else [])
    {
      if |sender| == 0 {
        return;
      }
      var senderMac := Decode(sender);
      if senderMac !in peers {
        return;
      }
      received := received + [(senderMac, data)];
    }

    /** `getPeerGroupDefault`: the BROADCAST group, or none. */
    method GetPeerGroupDefault() returns (g: PeerGroup?)
      ensures g != null <==> BroadcastGroup in peerGroups
      ensures g != null ==> g == peerGroups[BroadcastGroup]
    {
      if BroadcastGroup in peerGroups {
        return peerGroups[BroadcastGroup];
      }
      return null;
    }

    /** `peerGroupFind`: a lookup under the upper-cased name; it creates nothing. */
    method PeerGroupFind(name: string) returns (g: PeerGroup?)
      ensures g != null <==> Upper(name) in peerGroups
      ensures g != null ==> g == peerGroups[Upper(name)]
    {
      var key := Upper(name);
      if key in peerGroups {
        return peerGroups[key];
      }
      return null;
    }

    /** `peerGroupAdd`: the group already registered under the upper-cased name,
        or a new empty one registered under it. */
    method PeerGroupAdd(name: string) returns (g: PeerGroup)
      requires Wired()
      modifies this`peerGroups
      ensures Wired() && old(peerGroups).Keys <= peerGroups.Keys
      ensures Upper(name) in peerGroups && peerGroups[Upper(name)] == g && g.name == Upper(name)
      ensures Upper(name) in old(peerGroups) ==>
        g == old(peerGroups)[Upper(name)] && peerGroups == old(peerGroups)
      ensures Upper(name) !in old(peerGroups) ==>
        fresh(g) && g.parent == this && g.peers == map[] &&
        peerGroups == old(peerGroups)[Upper(name) := g]
    {
      var key := Upper(name);
      UpperIsUpper(name);
      var found := PeerGroupFind(key);
      if found == null {
        g := new PeerGroup(this, key);
        peerGroups := peerGroups[key := g];
      } else {
        g := found;
      }
    }

    /** Registering a new empty group extends the snapshot by one empty entry. */
    twostate lemma GroupAdded(key: string, new g: PeerGroup)
      requires key !in old(peerGroups) && peerGroups == old(peerGroups)[key := g] && g.peers == map[]
      requires forall n | n in old(peerGroups) :: old(peerGroups[n].peers) == peerGroups[n].peers
      requires unchanged(this`peers) && unchanged(transport`registered)
      ensures Members() == old(Members())[key := map[]]
      ensures old(Registries()) && g.name == key && g.parent == this ==> Registries()
    {
      if old(Registries()) && g.name == key && g.parent == this {
        ConsistentNewGroup(old(Members()), peers, transport, transport.registered, key);
      }
    }

    /** `Connection.broadcast`: the BROADCAST group's fan-out. */
    method Broadcast(data: Payload) returns (ghost order: seq<string>)
      requires Valid()
      modifies transport`log
      ensures Enumerates(order, peerGroups[BroadcastGroup].peers.Keys)
      ensures transport.log == old(transport.log) + SendsTo(order, peerGroups[BroadcastGroup].peers, data)
    {
      order := peerGroups[BroadcastGroup].Send(data);
    }

    /** `names` lists groups other than BROADCAST, and `orders[i]` visits every
        member of group `names[i]` once. */
    ghost predicate Visits(names: seq<string>, orders: seq<seq<string>>)
      reads this`peerGroups, peerGroups.Values`peers
    {
      |names| == |orders| &&
      forall i | 0 <= i < |names| ::
        names[i] in peerGroups && names[i] != BroadcastGroup &&
        Enumerates(orders[i], peerGroups[names[i]].peers.Keys)
    }

    /** The datagrams of the groups `names`, visited in that order, each group
        visiting its members in the matching entry of `orders`. */
    ghost function FanOut(names: seq<string>, orders: seq<seq<string>>, data: Payload): seq<Datagram>
      reads this`peerGroups, peerGroups.Values`peers
      requires Visits(names, orders)
      decreases |names|
    {
      if |names| == 0 then []
      else
        var last := |names| - 1;
        assert Enumerates(orders[last], peerGroups[names[last]].peers.Keys);
        assert Visits(names[..last], orders[..last]);
        FanOut(names[..last], orders[..last], data) +
        SendsTo(orders[last], peerGroups[names[last]].peers, data)
    }

    /** `Connection.send`: with more than one group, every group but BROADCAST
        fans out once, in the dictionary's order; otherwise nothing is sent. */
    method Send(data: Payload) returns (ghost names: seq<string>, ghost orders: seq<seq<string>>)
      requires Valid()
      modifies transport`log
      ensures |peerGroups| <= 1 ==> names == [] && transport.log == old(transport.log)
      ensures |peerGroups| > 1 ==> Enumerates(names, peerGroups.Keys - {BroadcastGroup})
      ensures Visits(names, orders)
      ensures transport.log == old(transport.log) + FanOut(names, orders, data)
    {
      names, orders := [], [];
      if |peerGroups| > 1 {
        var keys := peerGroups.Keys;
        while keys != {}
          invariant keys <= peerGroups.Keys
          invariant Enumerates(names, peerGroups.Keys - keys - {BroadcastGroup})
          invariant Visits(names, orders)
          invariant transport.log == old(transport.log) + FanOut(names, orders, data)
          decreases keys
        {
          var n :| n in keys;
          VisitStep(names, peerGroups.Keys, keys, n, BroadcastGroup);
          if n != BroadcastGroup {
            ghost var order := peerGroups[n].Send(data);
            FanOutStep(names, orders, n, order, data);
            names := names + [n];
            orders := orders + [order];
          }
          keys := keys - {n};
        }
      }
    }

    /** Visiting one more group appends that group's datagrams. */
    lemma FanOutStep(names: seq<string>, orders: seq<seq<string>>, n: string, order: seq<string>, data: Payload)
      requires Visits(names, orders) && n in peerGroups && n != BroadcastGroup
      requires Enumerates(order, peerGroups[n].peers.Keys)
      ensures Visits(names + [n], orders + [order])
      ensures FanOut(names + [n], orders + [order], data) ==
        FanOut(names, orders, data) + SendsTo(order, peerGroups[n].peers, data)
    {
      assert (names + [n])[..|names|] == names;
      assert (orders + [order])[..|orders|] == orders;
    }

    /** A member sends on this Connection's transport. */
    lemma MemberTransport(group: PeerGroup, k: string)
      requires Valid() && group.name in peerGroups && peerGroups[group.name] == group
      requires k in group.peers
      ensures group.peers[k].transport == transport
    {
      assert Members()[group.name] == group.peers;
      assert MemberOf(k, Members()[group.name][k], transport, transport.registered);
    }
  }
}
