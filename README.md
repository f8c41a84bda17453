# OSVR-Core routing, connection and client registries in Dafny

This project models the bookkeeping core of OSVR-Core, the Open Source
Virtual Reality server and client library. It covers five parts:

- **Routing path tree** (`path_tree.dfy`, `routing_exceptions.dfy`,
  `add_device.dfy`). Slash-separated absolute paths such as
  `/org_opengoggles_sample/MyDevice` name nodes of a tree.
  - `pathParseAndRetrieve` validates a path. It trims one trailing slash,
    splits the rest on `/` and walks down from the root, creating each
    missing child.
  - `addDevice` registers a `plugin/device` name and marks the two nodes as a
    Plugin and a Device.
  - The tree is a class over an arena of nodes. A node is its index, the root
    is node 0, and every other node's parent has a smaller index.
  - Each method is proved equal to a function of the old arena (`Resolve`,
    `AddDeviceResult`). The properties are proved about those functions.
- **AnyMap** (`any_map.dfy`). A string-keyed map of type-tagged values
  (`boost::any`).
- **Connection** (`connection.dfy`). The base connection's append-only device
  list, and the `process` pump: transport first, then every device in order.
  A connection can be stored in, and retrieved from, a registration
  context's AnyMap.
- **Client context and interface** (`client.dfy`).
  - The context keeps the interfaces it handed out, looked up and released by
    identity, and a string parameter map.
  - An interface keeps one callback list per report type (Pose, Position,
    Orientation, Button, Analog). Triggering fires that list in order.
- **wrapRoute** (`wrap_route.dfy`). A pure rewrite of a JSON routing
  directive that pushes a new outer layer onto its `source` chain.

Calls into code that is not part of this model become parameters or ghost
logs:
- the connection's subclass hooks `m_registerMessageType`,
  `m_registerDevice` and `m_process`;
- the client context's hook `m_update`;
- the C callbacks of an interface.

A hook's answer is a parameter of the method that calls it. A call to a hook
or callback is appended to a ghost trace (`processed`, `updates`, `fired`),
so the order of the calls is part of each contract.

`wrapRoute` follows jsoncpp's `Json::Value`. Writing through `operator[]`
turns a null value into an empty object. On any other non-object value it
fails, and the model returns an error result.

## Model

| member | source | states |
|---|---|---|
| RoutingExceptions.MessageIdentifiesError | inc/osvr/Routing/Exceptions.h:35-66 | each exception's message is its fixed text followed by exactly the details or path it was built from, so the error can be read back from the message |
| RoutingExceptions.MessageInjective | inc/osvr/Routing/Exceptions.h:38-64 | two different errors never produce the same message |
| PathTree.IndexOfSeparator | src/osvr/Routing/PathParseAndRetrieve.cpp:86-89 | finds nothing exactly when the string has no `/`; otherwise it gives the position of the first `/` |
| PathTree.Split | src/osvr/Routing/PathParseAndRetrieve.cpp:86-89 | splitting always yields at least one piece, and no piece contains the separator |
| PathTree.JoinSplit | src/osvr/Routing/PathParseAndRetrieve.cpp:86-89 | rejoining the split pieces with `/` gives back the original string, so the split drops nothing |
| PathTree.SplitJoin | src/osvr/Routing/PathParseAndRetrieve.cpp:86-89 | splitting a `/`-join of separator-free pieces returns exactly those pieces |
| PathTree.SplitNonEmptyIff | src/osvr/Routing/PathParseAndRetrieve.cpp:86-94 | no piece is empty iff the string is non-empty, does not start or end with `/`, and has no `//` |
| PathTree.NoEmptySegmentSplits | src/osvr/Routing/PathParseAndRetrieve.cpp:86-94 | a non-empty string with no leading, trailing or doubled `/` splits into pieces that are all non-empty, so the walk never raises the empty-component error for it |
| PathTree.NonEmptySplitHasNoEmptySegment | src/osvr/Routing/PathParseAndRetrieve.cpp:86-94 | if no piece of the split is empty, the string is non-empty and has no leading, trailing or doubled `/` |
| PathTree.GetOrCreateChild | src/osvr/Routing/PathParseAndRetrieve.cpp:95 | `getOrCreateChildByName` returns the existing child with that name and changes nothing; otherwise it appends one new untyped, childless node linked under the parent; the tree stays well formed and keeps every earlier node |
| PathTree.Walk | src/osvr/Routing/PathParseAndRetrieve.cpp:70-96 | the component walk keeps the tree well formed, keeps every existing node, link and element, and adds at most one node per component |
| PathTree.WalkPath | src/osvr/Routing/PathParseAndRetrieve.cpp:86-97 | the node reached has, as its path from the root, the start node's path followed by the components |
| PathTree.WalkStable | src/osvr/Routing/PathParseAndRetrieve.cpp:95 | walking again over the result, or over anything that extends it, reaches the same node and creates nothing |
| PathTree.WalkAddsOnlyPathNodes | src/osvr/Routing/PathParseAndRetrieve.cpp:95 | every node the walk creates lies on the walked path: its root path is the start node's path followed by a non-empty prefix of the components |
| PathTree.WalkFindsExisting | src/osvr/Routing/PathParseAndRetrieve.cpp:95 | walking a node's own path from the root reaches that node and creates nothing |
| PathTree.PathOfInjective | src/osvr/Routing/PathParseAndRetrieve.cpp:95 | two nodes with the same path are the same node, so sibling names are unique |
| PathTree.FirstEmpty | src/osvr/Routing/PathParseAndRetrieve.cpp:90-94 | the position of the first empty component: every earlier component is non-empty |
| PathTree.TrimmedRangeNoEmptySegmentIff | src/osvr/Routing/PathParseAndRetrieve.cpp:72-79 | the path with its leading slash and one trailing slash removed has only non-empty pieces iff the path has no `//` |
| PathTree.Resolve | src/osvr/Routing/PathParseAndRetrieve.h:32-42 | the only errors are EmptyPath, PathNotAbsolute and EmptyPathComponent, each for the given path; EmptyPath iff the path is empty; PathNotAbsolute iff it is non-empty without a leading `/`; those two change nothing; existing nodes and elements are kept |
| PathTree.ResolveSucceedsIff | src/osvr/Routing/PathParseAndRetrieve.cpp:60-97 | a path resolves iff it is `/`, or it starts with `/` and has no `//` |
| PathTree.ResolveReachesComponents | src/osvr/Routing/PathParseAndRetrieve.cpp:63-97 | `/` gives the root and changes nothing; any other successful path gives a node whose path from the root is exactly the path's (non-empty) components, adding at most one node per component |
| PathTree.EmptyComponentKeepsPrefix | src/osvr/Routing/PathParseAndRetrieve.cpp:86-95 | on EmptyPathComponent, the node for the components before the empty one stays in the tree; the failed call adds at most one node per such component, and every node it adds has a non-empty prefix of those components as its root path |
| PathTree.ResolveStable | src/osvr/Routing/PathParseAndRetrieve.cpp:51-98 | resolving over any extension of an earlier result gives the same answer and adds no node |
| PathTree.ResolveIdempotent | src/osvr/Routing/PathParseAndRetrieve.cpp:51-98 | resolving the same path twice returns the identical node (or the same error), and the second call creates nothing |
| PathTree.ResolveTrailingSeparator | src/osvr/Routing/PathParseAndRetrieve.cpp:72-79 | one trailing `/` is trimmed silently: `p/` resolves to the same node and tree as `p`; if `p` fails, `p/` fails with EmptyPathComponent |
| PathTree.DoubleTrailingSeparatorIsEmptyComponent | src/osvr/Routing/PathParseAndRetrieve.cpp:72-94 | `/a//` fails with EmptyPathComponent, and the node `/a` has been created anyway |
| PathTree.WithElement | tests/cplusplus/Routing/AddDevice.cpp:43-49 | setting a node's element changes only that node's element; names, parents and children stay, and the tree stays well formed |
| PathTree.PathTree.constructor | tests/cplusplus/Routing/AddDevice.cpp:51-53 | a new tree holds only its root |
| PathTree.PathTree.GetOrCreateChildByName | src/osvr/Routing/PathParseAndRetrieve.cpp:95 | the new arena and the child are those of `GetOrCreateChild` on the old arena |
| PathTree.PathTree.SetElement | tests/cplusplus/Routing/AddDevice.cpp:43-49 | the new arena is the old one with that node's element replaced |
| PathTree.PathTree.PathParseAndRetrieve | src/osvr/Routing/PathParseAndRetrieve.cpp:51-98 | the loop over the split components leaves exactly the arena and returns exactly the result of `Resolve` on the old arena |
| PathTree.PathTree.GetNodeByPath | tests/cplusplus/Routing/AddDevice.cpp:54-57 | looking up a path from the tree's own root is `Resolve` on the old arena |
| AddDevice.AddDeviceResult | tests/cplusplus/Routing/AddDevice.cpp:35-100 | whatever the outcome, the tree stays well formed and keeps every earlier node, name, parent and child link |
| AddDevice.AtDeviceDepthIff | tests/cplusplus/Routing/AddDevice.cpp:44-53 | a node sits under a child of the root iff its path has exactly two components |
| AddDevice.AddDevice | tests/cplusplus/Routing/AddDevice.cpp:35-100 | the method leaves exactly the arena and returns exactly the result of `AddDeviceResult` on the old arena |
| AddDevice.AddDeviceMakesPluginAndDevice | tests/cplusplus/Routing/AddDevice.cpp:35-53 | on success, the returned node is a Device whose parent is a Plugin directly under the root, and its path is the two components of the name |
| AddDevice.AddDeviceThenGetNodeByPath | tests/cplusplus/Routing/AddDevice.cpp:54-57 | afterwards, `getNodeByPath` of the slashed name returns the device node and `getNodeByPath("/")` returns the root, with nothing created |
| AddDevice.AddDeviceForgivesMissingLeadingSeparator | tests/cplusplus/Routing/AddDevice.cpp:60-68 | a name without its leading `/` gives the same tree and node as with it; only an InvalidDeviceName message quotes the name as given |
| AddDevice.AddDeviceRejectsSingleLevel | tests/cplusplus/Routing/AddDevice.cpp:73-89 | `p`, `/p`, `p/` and `/p/`, for any `p` without `/` (including `""`, `/` and `//`), fail with InvalidDeviceName and leave the tree unchanged |
| AddDevice.AddDeviceRejectsEmptySecondLevel | tests/cplusplus/Routing/AddDevice.cpp:91-96 | `p//` and `/p//` fail with EmptyPathComponent |
| AddDevice.AddDeviceRejectsTripleSeparator | tests/cplusplus/Routing/AddDevice.cpp:99 | `///` fails with EmptyPathComponent and leaves the tree unchanged |
| AddDevice.AddDeviceOnFreshTree | tests/cplusplus/Routing/AddDevice.cpp:35-58 | on a new tree, `/plugin/device` gives exactly three nodes (root, a Plugin under it, a childless Device under that) and returns the device |
| Util.LookupAfterSet | inc/osvr/Util/AnyMap.h:41-47 | after a set, `get` of that key gives the new value and every other key reads as before |
| Util.LookupAfterErase | inc/osvr/Util/AnyMap.h:65-74 | after an erase, `get` of that key is empty and every other key reads as before |
| Util.AnyMap.constructor | inc/osvr/Util/AnyMap.h:72-74 | a new map is empty |
| Util.AnyMap.Contains | inc/osvr/Util/AnyMap.h:36-39 | true exactly when data is stored under the key |
| Util.AnyMap.Set | inc/osvr/Util/AnyMap.h:41-47 | overwrites silently: the contents are the old contents with that key mapped to the value |
| Util.AnyMap.SetValue | inc/osvr/Util/AnyMap.h:49-55 | the typed `set` stores the value wrapped in an any of its type under the key |
| Util.AnyMap.Get | inc/osvr/Util/AnyMap.h:58-63 | returns the stored any, or an empty any when the key is absent, and leaves the map unchanged |
| Util.AnyMap.Erase | inc/osvr/Util/AnyMap.h:65-70 | removes the key, so `contains` is false afterwards; an absent key leaves the map unchanged |
| Connection.DeviceEventsInOrder | src/osvr/Connection/Connection.cpp:118-121 | the device loop processes each listed device exactly once, in list order |
| Connection.ProcessOrder | src/osvr/Connection/Connection.cpp:115-122 | one `process` call runs the transport hook once and first, then each device in list order |
| Connection.ConnectionDevice.constructor | src/osvr/Connection/Connection.cpp:104-105 | a device carries the name and update callback it was created with |
| Connection.Connection.constructor | src/osvr/Connection/Connection.cpp:124 | a new connection has no devices and has processed nothing |
| Connection.Connection.RegisterMessageType | src/osvr/Connection/Connection.cpp:87-90 | returns exactly the subclass hook's answer for the id and keeps nothing |
| Connection.Connection.AddDevice | src/osvr/Connection/Connection.cpp:110-113 | appends the non-null device at the end of the list; earlier entries are unchanged |
| Connection.Connection.RegisterDevice | src/osvr/Connection/Connection.cpp:93-100 | returns exactly what the subclass hook produced; the list grows by that device if it is non-null and is unchanged otherwise |
| Connection.Connection.RegisterAdvancedDevice | src/osvr/Connection/Connection.cpp:101-108 | always appends exactly one new device, carrying the given name and callback, and returns it |
| Connection.Connection.Process | src/osvr/Connection/Connection.cpp:115-122 | the calls made are the transport hook followed by one call per listed device, in order |
| Connection.RetrieveConnection | src/osvr/Connection/Connection.cpp:67-79 | returns the stored connection, or null when the key is absent, holds an empty any or holds a value of another type |
| Connection.StoreConnection | src/osvr/Connection/Connection.cpp:81-84 | stores the connection under the connection key, overwriting, and changes no other key |
| Connection.StoreThenRetrieve | src/osvr/Connection/Connection.cpp:67-84 | storing a connection and then retrieving it gives it back, whatever was stored under the key before |
| Connection.RetrieveFindsOnlyConnections | src/osvr/Connection/Connection.cpp:67-79 | a non-null result means the key holds a value of the connection type |
| Client.InvocationsInOrder | src/osvr/Client/ClientInterface.cpp:62-67 | every callback of the list is invoked exactly once, in registration order, with the same timestamp and report |
| Client.ClientInterface.constructor | src/osvr/Client/ClientInterface.cpp:41-46 | a new interface keeps its context and path and has an empty callback list for each of the five report types |
| Client.ClientInterface.GetPath | src/osvr/Client/ClientInterface.cpp:48-50 | returns the path given at construction |
| Client.ClientInterface.GetContext | src/osvr/Client/ClientInterface.cpp:52-54 | returns the context given at construction |
| Client.ClientInterface.RegisterCallback | src/osvr/Client/ClientInterface.cpp:56-73 | appends the callback to the end of its report type's list; the other four lists are unchanged |
| Client.ClientInterface.TriggerCallbacks | src/osvr/Client/ClientInterface.cpp:62-73 | the calls made are that report type's callbacks in list order, each with the given timestamp and report; no list changes |
| Client.InterfaceUpdatesInOrder | src/osvr/Client/ClientContext.cpp:60-61 | each listed interface is updated exactly once, in list order |
| Client.UpdateOrder | src/osvr/Client/ClientContext.cpp:58-62 | `update` runs the subclass hook once and first, then each interface in list order |
| Client.RemoveFirstAt | src/osvr/Client/ClientContext.cpp:85-100 | erasing at the first entry identical to the interface is removing its first occurrence |
| Client.RemoveFirstCounts | src/osvr/Client/ClientContext.cpp:85-100 | removal takes out exactly one occurrence when there is one, and nothing otherwise |
| Client.RemoveFirstDistinct | src/osvr/Client/ClientContext.cpp:73-100 | in a list without duplicates, the released interface is gone afterwards and the list still has no duplicates |
| Client.ParameterAfterSet | src/osvr/Client/ClientContext.cpp:104-118 | after `setParameter`, reading that path gives the new value and every other path reads as before |
| Client.ClientContext.constructor | src/osvr/Client/ClientContext.cpp:47-50 | a new context keeps its application id and has no interfaces and no parameters |
| Client.ClientContext.GetAppId | src/osvr/Client/ClientContext.cpp:54-56 | returns the application id given at construction |
| Client.ClientContext.Update | src/osvr/Client/ClientContext.cpp:58-62 | the calls made are the subclass hook followed by one update per listed interface, in order |
| Client.ClientContext.GetInterface | src/osvr/Client/ClientContext.cpp:64-77 | a null or empty path returns null with no change; any other path returns a new interface with that path and this context, appended to the list |
| Client.ClientContext.ReleaseInterface | src/osvr/Client/ClientContext.cpp:79-102 | the result is non-null iff the interface was listed; then it is that interface and exactly its entry is erased; otherwise nothing changes; either way it is no longer listed |
| Client.ClientContext.GetStringParameter | src/osvr/Client/ClientContext.cpp:104-112 | returns the stored value, or "" when the path is absent; the map is only read |
| Client.ClientContext.SetParameter | src/osvr/Client/ClientContext.cpp:114-118 | stores the value under the path, overwriting; other paths are unchanged |
| WrapRoute.WrapRoute | apps/WrapRoute.h:31-38 | succeeds exactly when the route and the new level are each null or an object; the result is an object with a `source` |
| WrapRoute.WrapRouteSource | apps/WrapRoute.h:34-36 | the new `source` is the new level with its `child` set to the previous source (null if there was none, overwriting any `child` it had); its other keys are kept |
| WrapRoute.WrapRouteKeepsOtherKeys | apps/WrapRoute.h:33-35 | every key of the route other than `source` is carried over unchanged, and the only key added is `source` |
| WrapRoute.WrapTwice | apps/WrapRoute.h:31-38 | wrapping with L2 and then L1 gives a `source` of L1 whose `child` is L2, whose `child` is the original source |
| WrapRoute.WrapRoutePushesLayer | apps/WrapRoute.h:33-37 | the layer chain of the new source is the new level (without `child`) followed by the old chain |
| WrapRoute.WrapRouteDeepens | apps/WrapRoute.h:31-38 | wrapping n times succeeds and lengthens the source chain by exactly n |

Some members carry no row. `Client.ClientInterface.Update` is a no-op in
the source (src/osvr/Client/ClientInterface.cpp:76). It is a method with an
empty body and no frame, so it changes nothing. The rest are proof helpers:
`ExtendsTransitive`, `PathOfExtends`, `ResolveEmptySecondLevel`,
`ResolveOnFreshTree`, `WalkStep`, `WalkPrefixAddsOnlyPathNodes`, `RemoveFirstSubset`, `ConsDistinct` and
`EveryKindListed`.

## Left out

- src/osvr/Routing/AddDevice.cpp, which holds `addDevice` itself, is not
  part of this model. `AddDevice.AddDevice` is reconstructed to match every case of
  tests/cplusplus/Routing/AddDevice.cpp. It strips one leading `/`. It requires a `/` that is not
  the last character, then resolves the path. It requires the node to sit
  two levels down, then marks the Plugin and Device elements.
- `AddDevice.AddDevice`: the details text of an InvalidDeviceName error is
  modelled as the name as given. The exact wording is not modelled.
- `AddDevice.AddDevice`: a name with more than two levels is rejected with
  InvalidDeviceName. The nodes that resolving it created stay in the tree,
  as they do for `pathParseAndRetrieve`.
- `PathTree.PathTree.PathParseAndRetrieve`: a failure does not always leave
  the tree unchanged. The nodes created before an empty component stay, as
  the code does (`EmptyComponentKeepsPrefix`).
- `getNodeByPath` and `getOrCreateChildByName` (PathTree.cpp, PathNode.cpp)
  are not modelled here from their own code. They are modelled as resolving from
  the root and as get-or-append.
- The children of a node are a map, so their insertion order is not
  modelled.
- The path tree's `getRoot`, node names as `const char*`, and the element
  kinds Sensor, Alias and String are carried as values only. No operation of
  this core sets them.
- The `const char*` overloads of `AnyMap::contains`, `set`, `get` and `erase`
  behave as the `std::string` forms. They are modelled by those forms, and a
  null `const char*` is not modelled.
- `Util.AnyMap.SetValue`: `boost::any` is modelled as a value with a type
  name. A single map holds payloads of one Dafny type, so values of other
  C++ types are entries with another type name.
- `Connection.RetrieveConnection`: the registration context is represented
  only by its AnyMap. A stored value of another type shows up as an entry
  whose type name is not `ConnectionPtr`.
- `registerAdvancedDevice` with a list of names (Connection.h:129-132) has
  is not modelled here.
- `createLocalConnection`, `createSharedConnection`, `getUnderlyingObject`
  and `getConnectionKindID` are left out. The first two build a VRPN
  transport; the last two return null in the base class.
- What a device's `process`, a transport hook, a client callback or a
  context's `m_update` does is not modelled. Only that it is called, with
  which arguments and in what order, is recorded in ghost traces.
- Device tokens (asynchronous, synchronous and virtual) are left out. The
  asynchronous one is about threads and handshakes. The others forward to
  ConnectionDevice, whose implementation is not part of this model, and stamp messages
  with the wall clock.
- The plugin C API (DeviceInterfaceC, AnalogInterfaceC) is left out. It is
  an ABI boundary with ownership transfer through code that is not part of this model.
- The VRPN transport, server bootstrap, signal handling, hardware detection
  and the example programs are left out. They are I/O.
- Pose estimation, angle and transform numerics are left out. They are
  floating point.
- `WrapRoute.WrapRoute`: JSON numbers are unbounded integers. jsoncpp's
  separate signed, unsigned and real kinds are not modelled, and a failed
  keyed access is an error result rather than an exception or assertion.
- `WrapRoute.SourceKey`: the text of `keys::source()` (RoutingKeys.h) is
  not modelled from its own code. It is taken to be "source". The lemmas
  depend only on it differing from `WrapRoute.ChildKey`, "child".
- Report states (positions, orientations, button and analog values) are
  carried as opaque integer sequences. Only their identity matters to the
  callback registry.
