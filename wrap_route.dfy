/** `wrapRoute` (apps/WrapRoute.h): pushes a new outer layer onto the
    `source` chain of a JSON routing directive.

    JSON values follow jsoncpp's `Json::Value`.  Writing through
    `operator[](key)` turns a null value into an empty object first; on any
    other non-object value it fails, which is modelled as an error result.
    Dafny values are immutable, so the inputs are never changed. */
module WrapRoute {
  import opened Wrappers

  datatype Json =
    | Null
    | Bool(b: bool)
    | Number(n: int)
    | Str(s: string)
    | Array(items: seq<Json>)
    | Object(members: map<string, Json>)

  /** The routing key that names a route's data source. */
  const SourceKey: string := "source"

  /** The key under which a source layer holds the layer it wraps. */
  const ChildKey: string := "child"

  /** Which keyed access failed because its value was not an object. */
  datatype WrapError = RouteNotObject | LevelNotObject

  /** Values that `operator[](key)` can write into: null or an object. */
  predicate Keyable(j: Json)
  {
    j.Null? || j.Object?
  }

  /** The members of a keyable value; null reads as the empty object. */
  function Members(j: Json): map<string, Json>
    requires Keyable(j)
  {
    if j.Null? then map[] else j.members
  }

  /** `j[key]` read: the member, or null when there is none. */
  function Member(j: Json, key: string): Json
  {
    if j.Object? && key in j.members then j.members[key] else Null
  }

  function WrapRoute(currentRoute: Json, newLevel: Json): (r: Result<Json, WrapError>)
    ensures r.Ok? <==> Keyable(currentRoute) && Keyable(newLevel)
    ensures !Keyable(currentRoute) ==> r == Err(RouteNotObject)
    ensures Keyable(currentRoute) && !Keyable(newLevel) ==> r == Err(LevelNotObject)
    ensures r.Ok? ==> r.value.Object? && SourceKey in r.value.members
  {
    if !Keyable(currentRoute) then Err(RouteNotObject)
    else if !Keyable(newLevel) then Err(LevelNotObject)
    else
      var prevSource := Member(currentRoute, SourceKey);
      var level := Object(Members(newLevel)[ChildKey := prevSource]);
      Ok(Object(Members(currentRoute)[SourceKey := level]))
  }

  /** The new source is `newLevel` with its `child` set to the previous
      source (null when there was none), overwriting any `child` it had, and
      with every other key of `newLevel` kept. */
  lemma WrapRouteSource(currentRoute: Json, newLevel: Json, key: string)
    requires Keyable(currentRoute) && Keyable(newLevel)
    ensures Member(Member(WrapRoute(currentRoute, newLevel).value, SourceKey), ChildKey)
      == Member(currentRoute, SourceKey)
    ensures key != ChildKey ==>
      Member(Member(WrapRoute(currentRoute, newLevel).value, SourceKey), key) == Member(newLevel, key)
  {
  }

  /** Every key of `currentRoute` other than `source` is carried over, and
      no key appears that neither input had. */
  lemma WrapRouteKeepsOtherKeys(currentRoute: Json, newLevel: Json, key: string)
    requires Keyable(currentRoute) && Keyable(newLevel)
    ensures key != SourceKey ==> Member(WrapRoute(currentRoute, newLevel).value, key) == Member(currentRoute, key)
    ensures WrapRoute(currentRoute, newLevel).value.members.Keys == Members(currentRoute).Keys + {SourceKey}
  {
  }

  /** Wrapping with `inner` and then `outer` gives a source of `outer` whose
      child is `inner`, whose child is the original source. */
  lemma WrapTwice(route: Json, inner: Json, outer: Json)
    requires Keyable(route) && Keyable(inner) && Keyable(outer)
    ensures WrapRoute(route, inner).Ok?
    ensures WrapRoute(WrapRoute(route, inner).value, outer).Ok?
    ensures Member(WrapRoute(WrapRoute(route, inner).value, outer).value, SourceKey)
      == Object(Members(outer)[ChildKey := Object(Members(inner)[ChildKey := Member(route, SourceKey)])])
  {
  }

  /** The layers of a source chain, outermost first: each layer without
      its `child`, then the innermost value, which has no `child`. */
  function Layers(source: Json): (ls: seq<Json>)
    ensures |ls| >= 1
  {
    if source.Object? && ChildKey in source.members
    then [Object(source.members - {ChildKey})] + Layers(source.members[ChildKey])
    else [source]
  }

  /** Wrapping pushes exactly one layer, `newLevel` without its `child`, on
      the front of the route's chain and keeps the rest of the chain. */
  lemma WrapRoutePushesLayer(currentRoute: Json, newLevel: Json)
    requires Keyable(currentRoute) && Keyable(newLevel)
    ensures Layers(Member(WrapRoute(currentRoute, newLevel).value, SourceKey))
      == [Object(Members(newLevel) - {ChildKey})] + Layers(Member(currentRoute, SourceKey))
  {
    var level := Object(Members(newLevel)[ChildKey := Member(currentRoute, SourceKey)]);
    assert Member(WrapRoute(currentRoute, newLevel).value, SourceKey) == level;
    assert level.members - {ChildKey} == Members(newLevel) - {ChildKey};
  }

  /** The length of a chain: the number of wrappers plus one. */
  lemma {:induction false} WrapRouteDeepens(currentRoute: Json, levels: seq<Json>)
    requires Keyable(currentRoute)
    requires forall i :: 0 <= i < |levels| ==> Keyable(levels[i])
    ensures WrapAll(currentRoute, levels).Ok?
    ensures |Layers(Member(WrapAll(currentRoute, levels).value, SourceKey))|
      == |levels| + |Layers(Member(currentRoute, SourceKey))|
    decreases |levels|
  {
    if levels != [] {
      WrapRouteDeepens(currentRoute, levels[..|levels| - 1]);
      var before := WrapAll(currentRoute, levels[..|levels| - 1]).value;
      WrapRoutePushesLayer(before, levels[|levels| - 1]);
    }
  }

  /** `wrapRoute` applied once per level, first level innermost. */
  function WrapAll(route: Json, levels: seq<Json>): Result<Json, WrapError>
  {
    if levels == [] then Ok(route)
    else
      match WrapAll(route, levels[..|levels| - 1])
      case Err(e) => Err(e)
      case Ok(r) => WrapRoute(r, levels[|levels| - 1])
  }
}
