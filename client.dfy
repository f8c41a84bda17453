/** The client-side registries: `OSVR_ClientContextObject`
    (src/osvr/Client/ClientContext.cpp), which owns the interfaces an
    application asked for and a string parameter map, and
    `OSVR_ClientInterfaceObject` (src/osvr/Client/ClientInterface.cpp), which
    keeps one callback list per report type.

    Callbacks are opaque (function, userdata) handles; what a callback does
    when it is invoked is not modelled, only that it is invoked, with which
    arguments, and in what order (the ghost `fired` log).  The context's
    subclass hook `m_update` is likewise recorded in the ghost `updates`
    log. */
module Client {
  import opened Wrappers

  /** The five report types, each with its own callback list. */
  datatype ReportKind = Pose | Position | Orientation | Button | Analog

  datatype TimeValue = TimeValue(seconds: int, microseconds: int)

  /** A report of some type for one sensor; its numeric state is carried
      along without interpretation. */
  datatype Report = Report(kind: ReportKind, sensor: int, state: seq<int>)

  /** A registered callback: the C function bound to its user data. */
  datatype Callback = Callback(handler: nat, userdata: nat)

  /** One call of a callback, with the timestamp and report it received. */
  datatype Invocation = Invocation(callback: Callback, timestamp: TimeValue, report: Report)

  /** The calls `triggerCallbacks` makes, for the given list, in list order. */
  function Invocations(callbacks: seq<Callback>, timestamp: TimeValue, report: Report): seq<Invocation>
  {
    if callbacks == [] then []
    else Invocations(callbacks[..|callbacks| - 1], timestamp, report)
         + [Invocation(callbacks[|callbacks| - 1], timestamp, report)]
  }

  /** Every callback is invoked exactly once, in registration order, and
      every invocation receives the same timestamp and report. */
  lemma {:induction false} InvocationsInOrder(callbacks: seq<Callback>, timestamp: TimeValue, report: Report)
    ensures |Invocations(callbacks, timestamp, report)| == |callbacks|
    ensures forall i :: 0 <= i < |callbacks| ==>
      Invocations(callbacks, timestamp, report)[i] == Invocation(callbacks[i], timestamp, report)
  {
    if callbacks != [] {
      var prefix := callbacks[..|callbacks| - 1];
      InvocationsInOrder(prefix, timestamp, report);
      assert forall i :: 0 <= i < |prefix| ==> callbacks[i] == prefix[i];
    }
  }

  /** The callback lists of a new interface: one empty list per report type. */
  function NoCallbacks(): (m: map<ReportKind, seq<Callback>>)
    ensures forall k: ReportKind :: k in m && m[k] == []
  {
    var m := map[Pose := [], Position := [], Orientation := [], Button := [], Analog := []];
    EveryKindListed(m);
    m
  }

  lemma EveryKindListed(m: map<ReportKind, seq<Callback>>)
    requires m == map[Pose := [], Position := [], Orientation := [], Button := [], Analog := []]
    ensures forall k: ReportKind :: k in m && m[k] == []
  {
    forall k: ReportKind
      ensures k in m && m[k] == []
    {
      match k
      case Pose =>
      case Position =>
      case Orientation =>
      case Button =>
      case Analog =>
    }
  }

  class ClientInterface {
    const context: ClientContext
    const path: string
    var callbacks: map<ReportKind, seq<Callback>>
    ghost var fired: seq<Invocation>

    /** Every report type has its list. */
    ghost predicate Valid()
      reads this
    {
      forall k: ReportKind :: k in callbacks
    }

    constructor (ctx: ClientContext, path: string)
      ensures context == ctx && this.path == path
      ensures callbacks == NoCallbacks() && fired == []
      ensures Valid()
    {
      context := ctx;
      this.path := path;
      callbacks := NoCallbacks();
      fired := [];
    }

    method GetPath() returns (p: string)
      ensures p == path
    {
      p := path;
    }

    method GetContext() returns (ctx: ClientContext)
      ensures ctx == context
    {
      ctx := context;
    }

    /** `registerCallback` for one report type: appends to the end of that
        type's list and leaves the other four lists as they are. */
    method RegisterCallback(kind: ReportKind, cb: Callback)
      requires Valid()
      modifies this`callbacks
      ensures Valid()
      ensures callbacks[kind] == old(callbacks)[kind] + [cb]
      ensures forall k :: k != kind ==> callbacks[k] == old(callbacks)[k]
    {
      callbacks := callbacks[kind := callbacks[kind] + [cb]];
    }

    /** `triggerCallbacks` for the report's type: calls each callback of that
        type, in order, with the given timestamp and report; no list
        changes. */
    method TriggerCallbacks(timestamp: TimeValue, report: Report)
      requires Valid()
      modifies this`fired
      ensures fired == old(fired) + Invocations(callbacks[report.kind], timestamp, report)
    {
      var list := callbacks[report.kind];
      var i := 0;
      while i < |list|
        invariant 0 <= i <= |list|
        invariant fired == old(fired) + Invocations(list[..i], timestamp, report)
      {
        fired := fired + [Invocation(list[i], timestamp, report)];
        assert list[..i + 1][..i] == list[..i];
        i := i + 1;
      }
      assert list[..i] == list;
    }

    /** `update`: does nothing. */
    method Update()
    {
    }
  }

  /** One call made by the context's `update`. */
  datatype UpdateEvent = ContextUpdated | InterfaceUpdated(iface: ClientInterface)

  /** The interface updates of one `update`, in list order. */
  function InterfaceUpdates(interfaces: seq<ClientInterface>): seq<UpdateEvent>
  {
    if interfaces == [] then []
    else InterfaceUpdates(interfaces[..|interfaces| - 1]) + [InterfaceUpdated(interfaces[|interfaces| - 1])]
  }

  lemma {:induction false} InterfaceUpdatesInOrder(interfaces: seq<ClientInterface>)
    ensures |InterfaceUpdates(interfaces)| == |interfaces|
    ensures forall i :: 0 <= i < |interfaces| ==> InterfaceUpdates(interfaces)[i] == InterfaceUpdated(interfaces[i])
  {
    if interfaces != [] {
      var prefix := interfaces[..|interfaces| - 1];
      InterfaceUpdatesInOrder(prefix);
      assert forall i :: 0 <= i < |prefix| ==> interfaces[i] == prefix[i];
    }
  }

  /** `update` runs the subclass hook once, first, then updates every
      interface exactly once, in list order. */
  lemma UpdateOrder(interfaces: seq<ClientInterface>)
    ensures |[ContextUpdated] + InterfaceUpdates(interfaces)| == |interfaces| + 1
    ensures ([ContextUpdated] + InterfaceUpdates(interfaces))[0] == ContextUpdated
    ensures forall i :: 0 <= i < |interfaces| ==>
      ([ContextUpdated] + InterfaceUpdates(interfaces))[i + 1] == InterfaceUpdated(interfaces[i])
  {
    InterfaceUpdatesInOrder(interfaces);
  }

  /** No interface is listed twice. */
  ghost predicate Distinct(s: seq<ClientInterface>)
  {
    forall i, j :: 0 <= i < j < |s| ==> s[i] != s[j]
  }

  /** `s` with its first entry identical to `x` erased. */
  function RemoveFirst(s: seq<ClientInterface>, x: ClientInterface): seq<ClientInterface>
  {
    if s == [] then []
    else if s[0] == x then s[1..]
    else [s[0]] + RemoveFirst(s[1..], x)
  }

  /** Erasing at the first match of `x` is `RemoveFirst`. */
  lemma {:induction false} RemoveFirstAt(s: seq<ClientInterface>, x: ClientInterface, k: nat)
    requires k < |s| && s[k] == x
    requires forall j :: 0 <= j < k ==> s[j] != x
    ensures RemoveFirst(s, x) == s[..k] + s[k + 1..]
  {
    if k > 0 {
      RemoveFirstAt(s[1..], x, k - 1);
      assert s[1..][..k - 1] == s[1..k];
      assert s[1..][k..] == s[k + 1..];
      assert [s[0]] + s[1..k] == s[..k];
    }
  }

  /** `RemoveFirst` erases exactly one occurrence when there is one, and
      nothing otherwise. */
  lemma {:induction false} RemoveFirstCounts(s: seq<ClientInterface>, x: ClientInterface)
    ensures x in s ==> multiset(RemoveFirst(s, x)) == multiset(s) - multiset{x}
    ensures x !in s ==> RemoveFirst(s, x) == s
  {
    if s != [] {
      RemoveFirstCounts(s[1..], x);
      assert s == [s[0]] + s[1..];
    }
  }

  /** `RemoveFirst` only ever drops entries. */
  lemma {:induction false} RemoveFirstSubset(s: seq<ClientInterface>, x: ClientInterface, y: ClientInterface)
    requires y in RemoveFirst(s, x)
    ensures y in s
  {
    if s != [] && s[0] != x && y != s[0] {
      RemoveFirstSubset(s[1..], x, y);
    }
  }

  /** In a list without duplicates, the released interface is gone
      afterwards and the list stays free of duplicates. */
  lemma {:induction false} RemoveFirstDistinct(s: seq<ClientInterface>, x: ClientInterface)
    requires Distinct(s)
    ensures Distinct(RemoveFirst(s, x))
    ensures x !in RemoveFirst(s, x)
  {
    if s == [] {
    } else if s[0] == x {
      assert forall j :: 0 <= j < |s| - 1 ==> s[1..][j] == s[j + 1];
    } else {
      var tail := s[1..];
      assert Distinct(tail) by {
        assert forall j :: 0 <= j < |tail| ==> tail[j] == s[j + 1];
      }
      RemoveFirstDistinct(tail, x);
      var rest := RemoveFirst(tail, x);
      forall y | y in rest
        ensures y in tail
      {
        RemoveFirstSubset(tail, x, y);
      }
      forall j | 0 <= j < |tail|
        ensures tail[j] != s[0]
      {
        assert tail[j] == s[j + 1];
      }
      ConsDistinct(s[0], rest);
    }
  }

  lemma ConsDistinct(a: ClientInterface, t: seq<ClientInterface>)
    requires Distinct(t) && a !in t
    ensures Distinct([a] + t)
  {
    var u := [a] + t;
    forall i, j | 0 <= i < j < |u|
      ensures u[i] != u[j]
    {
      assert u[j] == t[j - 1];
      if i > 0 {
        assert u[i] == t[i - 1];
      }
    }
  }

  /** `params[path]` as `getStringParameter` reads it: the stored value, or
      the empty string. */
  function ParameterValue(params: map<string, string>, path: string): string
  {
    if path in params then params[path] else ""
  }

  /** After `setParameter(path, value)`, reading `path` gives `value` and
      every other path reads as before. */
  lemma ParameterAfterSet(params: map<string, string>, path: string, value: string, other: string)
    ensures ParameterValue(params[path := value], other) == if other == path then value else ParameterValue(params, other)
  {
  }

  class ClientContext {
    const appId: string
    var interfaces: seq<ClientInterface>
    var params: map<string, string>
    ghost var updates: seq<UpdateEvent>

    ghost predicate Valid()
      reads this
    {
      Distinct(interfaces)
    }

    constructor (appId: string)
      ensures this.appId == appId
      ensures interfaces == [] && params == map[] && updates == []
      ensures Valid()
    {
      this.appId := appId;
      interfaces := [];
      params := map[];
      updates := [];
    }

    method GetAppId() returns (id: string)
      ensures id == appId
    {
      id := appId;
    }

    /** `update`: the subclass hook, then every interface in list order. */
    method Update()
      modifies this`updates
      ensures updates == old(updates) + [ContextUpdated] + InterfaceUpdates(interfaces)
    {
      updates := updates + [ContextUpdated];
      var i := 0;
      while i < |interfaces|
        invariant 0 <= i <= |interfaces|
        invariant updates == old(updates) + [ContextUpdated] + InterfaceUpdates(interfaces[..i])
      {
        interfaces[i].Update();
        updates := updates + [InterfaceUpdated(interfaces[i])];
        assert interfaces[..i + 1][..i] == interfaces[..i];
        i := i + 1;
      }
      assert interfaces[..i] == interfaces;
    }

    /** `getInterface`: a null (`None`) or empty path gives null and no
        change; any other path gives a new interface for that path, appended
        to the list. */
    method GetInterface(path: Option<string>) returns (iface: ClientInterface?)
      requires Valid()
      modifies this`interfaces
      ensures Valid()
      ensures (path.None? || path.value == "") ==> iface == null && interfaces == old(interfaces)
      ensures path.Some? && path.value != "" ==>
        iface != null && fresh(iface) && iface.path == path.value && iface.context == this &&
        iface.callbacks == NoCallbacks() && interfaces == old(interfaces) + [iface]
    {
      if path.None? {
        return null;
      }
      var p := path.value;
      if p == "" {
        return null;
      }
      iface := new ClientInterface(this, p);
      interfaces := interfaces + [iface];
    }

    /** `releaseInterface`: finds the entry identical to `iface`, erases it
        and returns it; null when `iface` is null or not listed, with no
        change. */
    method ReleaseInterface(iface: ClientInterface?) returns (released: ClientInterface?)
      requires Valid()
      modifies this`interfaces
      ensures Valid()
      ensures released != null <==> iface != null && iface in old(interfaces)
      ensures released != null ==> released == iface && interfaces == RemoveFirst(old(interfaces), iface)
      ensures released == null ==> interfaces == old(interfaces)
      ensures iface != null ==> iface !in interfaces
    {
      if iface == null {
        return null;
      }
      released := null;
      var k := 0;
      while k < |interfaces| && released == null
        invariant 0 <= k <= |interfaces|
        invariant released == null ==> forall j :: 0 <= j < k ==> interfaces[j] != iface
        invariant released != null ==>
          0 < k && interfaces[k - 1] == iface && released == iface &&
          forall j :: 0 <= j < k - 1 ==> interfaces[j] != iface
      {
        if interfaces[k] == iface {
          released := interfaces[k];
        }
        k := k + 1;
      }
      if released != null {
        RemoveFirstAt(interfaces, iface, k - 1);
        RemoveFirstDistinct(interfaces, iface);
        interfaces := interfaces[..k - 1] + interfaces[k..];
      }
    }

    /** `getStringParameter`: the stored value, or "" when the path is
        absent; the map is only read. */
    method GetStringParameter(path: string) returns (value: string)
      ensures path in params ==> value == params[path]
      ensures path !in params ==> value == ""
      ensures value == ParameterValue(params, path)
    {
      value := "";
      if path in params {
        value := params[path];
      }
    }

    /** `setParameter`: stores `value` under `path`, overwriting. */
    method SetParameter(path: string, value: string)
      modifies this`params
      ensures params == old(params)[path := value]
    {
      params := params[path := value];
    }
  }
}
