/**
 * The dictionary helpers of Core/LinqHelpers.cs and LinqHelpers.cs: extension
 * methods that look a key up in an `IDictionary` and add or replace its
 * entry in place.
 */
module Dictionaries {

  /** An `IDictionary` object: its entries as a map that the helpers reassign. */
  class Dictionary<K(==), V> {
    var items: map<K, V>

    constructor (initial: map<K, V>)
      ensures items == initial
    {
      items := initial;
    }
  }

  /** `GetOrAdd(key, factory)`: an existing value is returned untouched; a missing key gets `factory(key)`. */
  method GetOrAdd<K(==), V>(dict: Dictionary<K, V>, key: K, factory: K -> V) returns (v: V)
    modifies dict
    ensures key in old(dict.items) ==> v == old(dict.items)[key] && dict.items == old(dict.items)
    ensures key !in old(dict.items) ==> v == factory(key) && dict.items == old(dict.items)[key := v]
  {
    if key in dict.items {
      v := dict.items[key];
    } else {
      v := factory(key);
      dict.items := dict.items[key := v];
    }
  }

  /** `GetOrAdd(key, defaultValue)`: as above with a fixed value for a missing key. */
  method GetOrAddValue<K(==), V>(dict: Dictionary<K, V>, key: K, defaultValue: V) returns (v: V)
    modifies dict
    ensures key in old(dict.items) ==> v == old(dict.items)[key] && dict.items == old(dict.items)
    ensures key !in old(dict.items) ==> v == defaultValue && dict.items == old(dict.items)[key := defaultValue]
  {
    if key in dict.items {
      v := dict.items[key];
    } else {
      v := defaultValue;
      dict.items := dict.items[key := v];
    }
  }

  /**
   * `AddToList`: appends to the list stored under the key, or stores a new
   * one-element list. Lists are values here; the C# code appends to the
   * stored list object.
   */
  method AddToList<K(==), V>(dict: Dictionary<K, seq<V>>, key: K, value: V)
    modifies dict
    ensures key in old(dict.items) ==> dict.items == old(dict.items)[key := old(dict.items)[key] + [value]]
    ensures key !in old(dict.items) ==> dict.items == old(dict.items)[key := [value]]
  {
    if key in dict.items {
      dict.items := dict.items[key := dict.items[key] + [value]];
    } else {
      dict.items := dict.items[key := [value]];
    }
  }

  /** `AddOrModify`: stores `modifier(old value)`, or `modifier(initValue)` for a missing key. */
  method AddOrModify<K(==), V>(dict: Dictionary<K, V>, key: K, initValue: V, modifier: V -> V)
    modifies dict
    ensures key in old(dict.items) ==> dict.items == old(dict.items)[key := modifier(old(dict.items)[key])]
    ensures key !in old(dict.items) ==> dict.items == old(dict.items)[key := modifier(initValue)]
  {
    if key in dict.items {
      dict.items := dict.items[key := modifier(dict.items[key])];
    } else {
      dict.items := dict.items[key := modifier(initValue)];
    }
  }

  /**
   * Counting with `AddOrModify(key, 0, c => c + 1)` and reading back with
   * `GetOrAdd(key, 0)`: each key's count goes up by one, every other key
   * keeps its count, and a second `GetOrAdd` changes nothing.
   */
  method CountTwice<K(==)>(dict: Dictionary<K, int>, key: K, other: K) returns (first: int, second: int)
    requires key != other
    modifies dict
    ensures first == second == (if key in old(dict.items) then old(dict.items)[key] else 0) + 1
    ensures other in old(dict.items) <==> other in dict.items
    ensures other in dict.items ==> dict.items[other] == old(dict.items)[other]
  {
    AddOrModify(dict, key, 0, c => c + 1);
    first := GetOrAddValue(dict, key, 0);
    second := GetOrAdd(dict, key, _ => 0);
  }
}
