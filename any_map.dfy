/** `osvr::util::AnyMap` (inc/osvr/Util/AnyMap.h): values of any type stored
    under string keys, backed by an ordered map. */
module Util {

  /** A `boost::any`: either empty, or a value together with the name of its
      dynamic type (what `any_cast` checks against). */
  datatype Any<V> = Empty | Holding(typeName: string, value: V)

  /** What `get(key)` answers for the given contents: the stored value, or an
      empty any when nothing is stored under `key`. */
  function Lookup<V>(contents: map<string, Any<V>>, key: string): Any<V>
  {
    if key in contents then contents[key] else Empty
  }

  /** Setting a key overwrites what was there and touches no other key. */
  lemma LookupAfterSet<V>(contents: map<string, Any<V>>, key: string, value: Any<V>, other: string)
    ensures Lookup(contents[key := value], other) == if other == key then value else Lookup(contents, other)
  {
  }

  /** Erasing a key empties it and touches no other key. */
  lemma LookupAfterErase<V>(contents: map<string, Any<V>>, key: string, other: string)
    ensures Lookup(contents - {key}, other) == if other == key then Empty else Lookup(contents, other)
  {
  }

  class AnyMap<V> {
    var contents: map<string, Any<V>>

    constructor ()
      ensures contents == map[]
    {
      contents := map[];
    }

    /** `contains(key)`: is data stored under this key? */
    method Contains(key: string) returns (b: bool)
      ensures b <==> key in contents
    {
      b := key in contents;
    }

    /** `set(key, value)`: silently overwrites existing data at that key. */
    method Set(key: string, value: Any<V>)
      modifies this
      ensures contents == old(contents)[key := value]
      ensures Lookup(contents, key) == value
    {
      contents := contents[key := value];
    }

    /** The templated `set(key, T value)`: wraps the value in an any first. */
    method SetValue(key: string, typeName: string, value: V)
      modifies this
      ensures contents == old(contents)[key := Holding(typeName, value)]
    {
      Set(key, Holding(typeName, value));
    }

    /** `get(key)`: the stored value, or an empty any; the map is left as it
        is (no modifies clause). */
    method Get(key: string) returns (a: Any<V>)
      ensures key in contents ==> a == contents[key]
      ensures key !in contents ==> a == Empty
    {
      if key in contents {
        a := contents[key];
      } else {
        a := Empty;
      }
    }

    /** `erase(key)`: clears the data for this key; does nothing when the key
        is absent. */
    method Erase(key: string)
      modifies this
      ensures contents == old(contents) - {key}
      ensures key !in contents
      ensures key !in old(contents) ==> contents == old(contents)
    {
      contents := contents - {key};
    }
  }
}
