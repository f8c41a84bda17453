/** The transport-independent part of `osvr::connection::Connection`
    (src/osvr/Connection/Connection.cpp): the device list, the per-tick
    `process` pump and storing the connection in a registration context.

    The subclass hooks (`m_registerMessageType`, `m_registerDevice`,
    `m_process`) are code this model does not see: what they return is a
    parameter of the method that calls them, and a call to `m_process` is
    recorded in the ghost `processed` log. */
module Connection {
  import opened Util

  /** The key a connection is stored under in a context's AnyMap. */
  const ConnectionKey: string := "org.opengoggles.ConnectionPtr"

  /** The dynamic type name of a stored `ConnectionPtr`. */
  const ConnectionPtrType: string := "ConnectionPtr"

  datatype MessageType = MessageType(name: string, id: int)

  /** A plugin's synchronous update callback with its user data, as opaque
      handles. */
  datatype UpdateCallback = UpdateCallback(handler: nat, userdata: nat)

  /** A device registered on a connection, named by its full (plugin
      namespaced) name. */
  class ConnectionDevice {
    const name: string
    const update: UpdateCallback

    constructor (name: string, update: UpdateCallback)
      ensures this.name == name && this.update == update
    {
      this.name := name;
      this.update := update;
    }
  }

  /** One call made by `process`: the transport hook, or one device's
      `process`. */
  datatype ProcessEvent = TransportProcessed | DeviceProcessed(device: ConnectionDevice)

  /** The device calls of one `process`, in list order. */
  function DeviceEvents(devices: seq<ConnectionDevice>): seq<ProcessEvent>
  {
    if devices == [] then []
    else DeviceEvents(devices[..|devices| - 1]) + [DeviceProcessed(devices[|devices| - 1])]
  }

  /** All calls of one `process`: the transport first, then the devices. */
  function ProcessEvents(devices: seq<ConnectionDevice>): seq<ProcessEvent>
  {
    [TransportProcessed] + DeviceEvents(devices)
  }

  lemma {:induction false} DeviceEventsInOrder(devices: seq<ConnectionDevice>)
    ensures |DeviceEvents(devices)| == |devices|
    ensures forall i :: 0 <= i < |devices| ==> DeviceEvents(devices)[i] == DeviceProcessed(devices[i])
  {
    if devices != [] {
      var prefix := devices[..|devices| - 1];
      DeviceEventsInOrder(prefix);
      assert forall i :: 0 <= i < |prefix| ==> devices[i] == prefix[i];
    }
  }

  /** `process` calls the transport hook once, first, and then every device
      exactly once, in registration order. */
  lemma ProcessOrder(devices: seq<ConnectionDevice>)
    ensures |ProcessEvents(devices)| == |devices| + 1
    ensures ProcessEvents(devices)[0] == TransportProcessed
    ensures forall i :: 0 <= i < |devices| ==> ProcessEvents(devices)[i + 1] == DeviceProcessed(devices[i])
  {
    DeviceEventsInOrder(devices);
  }

  class Connection {
    var devices: seq<ConnectionDevice>
    ghost var processed: seq<ProcessEvent>

    constructor ()
      ensures devices == [] && processed == []
    {
      devices := [];
      processed := [];
    }

    /** `registerMessageType`: hands the request to the subclass hook and
        returns its answer; the base class keeps nothing. */
    method RegisterMessageType(messageId: string, registerHook: string -> MessageType) returns (m: MessageType)
      ensures m == registerHook(messageId)
    {
      m := registerHook(messageId);
    }

    /** `addDevice`: appends a (non-null) device at the end of the list. */
    method AddDevice(device: ConnectionDevice)
      modifies this`devices
      ensures devices == old(devices) + [device]
    {
      devices := devices + [device];
    }

    /** `registerDevice`: returns what the subclass hook `m_registerDevice`
        produced (`created`), adding it to the list only when it is not
        null. */
    method RegisterDevice(deviceName: string, created: ConnectionDevice?) returns (dev: ConnectionDevice?)
      modifies this`devices
      ensures dev == created
      ensures devices == old(devices) + (if created != null then [created] else [])
    {
      dev := created;
      if dev != null {
        AddDevice(dev);
      }
    }

    /** `registerAdvancedDevice`: always creates a new device carrying the
        given name and callback and appends it. */
    method RegisterAdvancedDevice(deviceName: string, update: UpdateCallback) returns (dev: ConnectionDevice)
      modifies this`devices
      ensures fresh(dev) && dev.name == deviceName && dev.update == update
      ensures devices == old(devices) + [dev]
    {
      dev := new ConnectionDevice(deviceName, update);
      AddDevice(dev);
    }

    /** `process`: the transport hook, then every device in list order. */
    method Process()
      modifies this`processed
      ensures processed == old(processed) + ProcessEvents(devices)
    {
      processed := processed + [TransportProcessed];
      var i := 0;
      while i < |devices|
        invariant 0 <= i <= |devices|
        invariant processed == old(processed) + [TransportProcessed] + DeviceEvents(devices[..i])
      {
        processed := processed + [DeviceProcessed(devices[i])];
        assert devices[..i + 1][..i] == devices[..i];
        i := i + 1;
      }
      assert devices[..i] == devices;
    }
  }

  /** What `retrieveConnection` finds in a context's data: the stored
      connection, or null when the key is absent, holds an empty any or
      holds a value of another type. */
  function StoredConnection(contents: map<string, Any<Connection?>>): Connection?
  {
    var a := Lookup(contents, ConnectionKey);
    if a.Holding? && a.typeName == ConnectionPtrType then a.value else null
  }

  method RetrieveConnection(ctx: AnyMap<Connection?>) returns (conn: Connection?)
    ensures conn == StoredConnection(ctx.contents)
  {
    var anyConn := ctx.Get(ConnectionKey);
    if anyConn.Empty? {
      return null;
    }
    conn := null;
    if anyConn.typeName == ConnectionPtrType {
      conn := anyConn.value;
    }
  }

  method StoreConnection(ctx: AnyMap<Connection?>, conn: Connection?)
    modifies ctx
    ensures ctx.contents == old(ctx.contents)[ConnectionKey := Holding(ConnectionPtrType, conn)]
  {
    ctx.SetValue(ConnectionKey, ConnectionPtrType, conn);
  }

  /** Storing a connection and then retrieving it gives it back, whatever
      was stored under the key before. */
  lemma StoreThenRetrieve(contents: map<string, Any<Connection?>>, conn: Connection?)
    ensures StoredConnection(contents[ConnectionKey := Holding(ConnectionPtrType, conn)]) == conn
  {
  }

  /** A connection is found only when the key holds a value of the
      connection type. */
  lemma RetrieveFindsOnlyConnections(contents: map<string, Any<Connection?>>)
    ensures StoredConnection(contents) != null ==>
      ConnectionKey in contents && contents[ConnectionKey].Holding? &&
      contents[ConnectionKey].typeName == ConnectionPtrType
  {
  }
}
