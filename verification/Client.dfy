// The socket client: encoding of the operations, reconnecting and one retry
// (tstlan/devices/net/client.py).
module Client {
  import opened Wrappers
  import opened Bits
  import opened Buffers
  import opened Retry
  import opened Protocol

  // ---------- one operation over the wire ----------

  function Encode(handle: int, a: Access): Message {
    match a
    case ReadBytes(i, n) => ReadBytesMessage(handle, i, n)
    case WriteBytes(i, v) => WriteBytesMessage(handle, i, ToHex(v))
    case ReadBit(i, k) => ReadBitMessage(handle, i, k)
    case WriteBit(i, k, v) => WriteBitMessage(handle, i, k, v)
  }

  // Bytes out of a read, a truth value out of a bit read, nothing out of writes;
  // None where the answer is not of the expected shape.
  function Decode(a: Access, response: Response): Option<Reply> {
    match a
    case ReadBytes(_, _) =>
      if !response.DataResponse? then None
      else
        var data := FromHex(response.hex);
        if data.Some? then Some(Data(data.value)) else None
    case ReadBit(_, _) => if response.ValueResponse? then Some(Bit(response.value)) else None
    case _ => Some(Done)
  }

  // The device understands exactly what the client meant, and the client
  // understands exactly what the device answered, for byte strings of any length.
  lemma WireIsFaithful(handle: int, a: Access, b: seq<byte>)
    ensures Encode(handle, a).handle == handle && !Encode(handle, a).OtherMessage?
    ensures Asked(Encode(handle, a)) == Some(a)
    ensures Answer(b, a) == Raised <==> Raises(a)
    ensures !Raises(a) ==> Decode(a, Responding(Answer(b, a))) == Some(Answer(b, a))
  {
    if a.WriteBytes? {
      HexRoundTrip(a.data);
    } else if a.ReadBytes? {
      HexRoundTrip(Slice(b, a.index, a.size));
    }
  }

  // ---------- connections ----------

  // How an attempt to talk to the device ends: no connection, a request that
  // never arrives, an answer that never arrives, or an answer.
  datatype Fate = Refused | RequestLost | AnswerLost | Answered

  // An open connection to a device. Once it has failed it never answers again.
  class SocketUnidriverIO {
    const device: InMemoryUnidriverIO
    var broken: bool

    constructor (device: InMemoryUnidriverIO)
      ensures this.device == device && !broken
    {
      this.device, this.broken := device, false;
    }

    // None stands for an OSError. A device that raises closes the connection.
    method Operation(handle: int, a: Access, fate: Fate) returns (r: Option<Reply>)
      modifies this, device
      ensures r.Some? <==> !old(broken) && fate == Answered && !Raises(a)
      ensures broken <==> r.None?
      ensures r.Some? ==> r.value == Answer(BufferOf(old(device.buffers), handle), a)
      ensures device.buffers ==
              if !old(broken) && (fate == Answered || fate == AnswerLost)
              then Execute(old(device.buffers), handle, a) else old(device.buffers)
    {
      if broken || fate == Refused || fate == RequestLost {
        broken := true;
        return None;
      }
      WireIsFaithful(handle, a, BufferOf(device.buffers, handle));
      var response := Apply(device, Encode(handle, a));
      if fate == AnswerLost || response.Err? {
        broken := true;
        return None;
      }
      return Decode(a, response.value);
    }
  }

  // Connects on first use and again after a failure.
  class LazySocketUnidriverIO {
    const device: InMemoryUnidriverIO
    var connection: SocketUnidriverIO?

    constructor (device: InMemoryUnidriverIO)
      ensures this.device == device && connection == null
    {
      this.device, this.connection := device, null;
    }

    ghost predicate Valid()
      reads this
    {
      connection != null ==> connection.device == device
    }

    ghost predicate Connected()
      reads this, connection
    {
      connection != null && !connection.broken
    }

    method Connect(fate: Fate) returns (ok: bool)
      requires Valid()
      modifies this
      ensures Valid()
      ensures ok <==> old(connection) != null || fate != Refused
      ensures old(connection) != null || !ok ==> connection == old(connection)
      ensures old(connection) == null && ok ==> fresh(connection) && !connection.broken
    {
      if connection == null {
        if fate == Refused {
          return false;
        }
        connection := new SocketUnidriverIO(device);
      }
      return true;
    }

    method Attempt(handle: int, a: Access, fate: Fate) returns (r: Option<Reply>)
      requires Valid()
      modifies this, connection, device
      ensures Valid()
      ensures connection == old(connection) || fresh(connection)
      ensures r.Some? <==> fate == Answered && !Raises(a) && (old(connection) == null || old(Connected()))
      ensures r.Some? ==> Connected() && r.value == Answer(BufferOf(old(device.buffers), handle), a)
      ensures r.Some? ==> device.buffers == Execute(old(device.buffers), handle, a)
      ensures r.None? ==> !Connected()
      ensures device.buffers == old(device.buffers) || device.buffers == Execute(old(device.buffers), handle, a)
    {
      var ok := Connect(fate);
      if !ok {
        return None;
      }
      r := connection.Operation(handle, a, fate);
    }

    // A call that returns acts as exactly one execution, whichever of its two
    // attempts took effect; one that raises acts as one execution or as none.
    // It raises only if the retry fails, and never on a connection that works.
    method Call(handle: int, a: Access, first: Fate, second: Fate) returns (r: Option<Reply>)
      requires Valid()
      modifies this, connection, device
      ensures Valid()
      ensures r.Some? <==>
              && !Raises(a)
              && (second == Answered || (first == Answered && (old(connection) == null || old(Connected()))))
      ensures r.Some? ==>
                && Connected()
                && device.buffers == Execute(old(device.buffers), handle, a)
                && r.value == Answer(BufferOf(old(device.buffers), handle), a)
      ensures r.None? ==>
                device.buffers == old(device.buffers) || device.buffers == Execute(old(device.buffers), handle, a)
    {
      TwiceIsOnce(Request(handle, a), device.buffers);
      r := Attempt(handle, a, first);
      if r.Some? {
        return;
      }
      connection := null;
      r := Attempt(handle, a, second);
    }
  }
}
