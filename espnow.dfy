/** The ESP-NOW transport both implementations sit on, reduced to what they
    rely on: a table of registered peer addresses and the datagrams sent.
    Radio, power and hardware-address discovery are not part of this model. */
module EspNow {
  import opened Codec

  /** The application data handed to `send`; the peer layers never look inside it. */
  type Payload(==)

  /** One call of `ESPNow.send(mac, data)`. */
  datatype Datagram = Datagram(dest: seq<byte>, payload: Payload)

  class Transport {
    /** Addresses accepted by `add_peer` and not yet removed by `del_peer`. */
    var registered: set<seq<byte>>
    /** Every datagram sent, oldest first. */
    var log: seq<Datagram>

    /** A freshly activated `espnow.ESPNow()`. */
    constructor ()
      ensures registered == {} && log == []
    {
      registered := {};
      log := [];
    }

    /** `add_peer`: fails (OSError) when the address is already registered. */
    method AddPeer(mac: seq<byte>) returns (ok: bool)
      modifies this`registered
      ensures ok == (mac !in old(registered))
      ensures registered == old(registered) + {mac}
    {
      ok := mac !in registered;
      registered := registered + {mac};
    }

    /** `del_peer`: fails (OSError) when the address is not registered. */
    method DelPeer(mac: seq<byte>) returns (ok: bool)
      modifies this`registered
      ensures ok == (mac in old(registered))
      ensures registered == old(registered) - {mac}
    {
      ok := mac in registered;
      registered := registered - {mac};
    }

    /** `send`: one datagram to one address. */
    method Send(mac: seq<byte>, payload: Payload)
      modifies this`log
      ensures log == old(log) + [Datagram(mac, payload)]
    {
      log := log + [Datagram(mac, payload)];
    }
  }
}
