/** `BTreeMap<String, V>`: entries in strictly increasing order of their keys. */
module OrderedMap {
  import opened Wrappers
  import Lexicographic
  import Utf8

  datatype Entry<+V> = Entry(key: string, value: V)

  predicate KeyBefore(a: string, b: string) {
    Lexicographic.Lt(Utf8.Encode(a), Utf8.Encode(b))
  }

  ghost predicate Sorted<V>(m: seq<Entry<V>>) {
    forall i, j :: 0 <= i < j < |m| ==> KeyBefore(m[i].key, m[j].key)
  }

  type OrderedMap<V> = m: seq<Entry<V>> | Sorted(m)

  /** `keys().position(|k| k == key)`. */
  function Position<V>(m: seq<Entry<V>>, key: string): (p: Option<nat>)
    ensures p.Some? ==> p.value < |m| && m[p.value].key == key
    ensures p.None? ==> forall i :: 0 <= i < |m| ==> m[i].key != key
  {
    if m == [] then None
    else if m[0].key == key then Some(0)
    else
      match Position(m[1..], key)
      case Some(p) => Some(p + 1)
      case None =>
        assert forall i :: 0 < i < |m| ==> m[i] == m[1..][i - 1];
        None
  }

  /** `get(key)`. */
  function Get<V>(m: seq<Entry<V>>, key: string): Option<V> {
    match Position(m, key)
    case Some(p) => Some(m[p].value)
    case None => None
  }

  /** Keys are unique: an entry is found under its own key, at its own place. */
  lemma {:induction false} GetEntry<V>(m: OrderedMap<V>, i: nat)
    requires i < |m|
    ensures Position(m, m[i].key) == Some(i) && Get(m, m[i].key) == Some(m[i].value)
  {
    var p := Position(m, m[i].key).value;
    assert p < i ==> KeyBefore(m[p].key, m[i].key);
    assert i < p ==> KeyBefore(m[i].key, m[p].key);
  }
}
