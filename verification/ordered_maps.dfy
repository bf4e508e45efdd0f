/**
 * The insertion-ordered hashes keyed by path that the program builds
 * (`path_type` and `files_stats`, main_wc.rb:26-27), as lists of entries.
 */
module OrderedMaps {

  type OrderedMap<V> = seq<(string, V)>

  function KeysOf<V>(m: OrderedMap<V>): seq<string> {
    seq(|m|, i requires 0 <= i < |m| => m[i].0)
  }

  /**
   * `h[k] = v`: a present key keeps its position and takes the new value;
   * a new key goes at the end.
   */
  function Put<V(==)>(m: OrderedMap<V>, k: string, v: V): (r: OrderedMap<V>)
    ensures KeysOf(r) == if k in KeysOf(m) then KeysOf(m) else KeysOf(m) + [k]
    ensures forall i :: 0 <= i < |m| && m[i].0 != k ==> r[i] == m[i]
    ensures (k, v) in r
  {
    if m == [] then [(k, v)]
    else
      KeysOfCons(m);
      if m[0].0 == k then
        KeysOfPrepend((k, v), m[1..]);
        [(k, v)] + m[1..]
      else
        var rest := Put(m[1..], k, v);
        KeysOfPrepend(m[0], rest);
        assert forall i :: 1 <= i < |m| ==> m[1..][i - 1] == m[i];
        [m[0]] + rest
  }

  lemma KeysOfPrepend<V>(e: (string, V), m: OrderedMap<V>)
    ensures KeysOf([e] + m) == [e.0] + KeysOf(m)
  {
  }

  lemma KeysOfCons<V>(m: OrderedMap<V>)
    requires m != []
    ensures KeysOf(m) == [m[0].0] + KeysOf(m[1..])
  {
    KeysOfPrepend(m[0], m[1..]);
    assert [m[0]] + m[1..] == m;
  }

  /** Storing under a new key appends the entry. */
  lemma {:induction false} PutNew<V>(m: OrderedMap<V>, k: string, v: V)
    requires k !in KeysOf(m)
    ensures Put(m, k, v) == m + [(k, v)]
  {
    if m != [] {
      KeysOfCons(m);
      assert m[0].0 != k;
      PutNew(m[1..], k, v);
      assert Put(m, k, v) == [m[0]] + Put(m[1..], k, v);
      assert [m[0]] + (m[1..] + [(k, v)]) == m + [(k, v)];
    }
  }

  /** Storing again the value every entry for k already holds changes nothing. */
  lemma {:induction false} PutSame<V>(m: OrderedMap<V>, k: string, v: V)
    requires k in KeysOf(m)
    requires forall i :: 0 <= i < |m| && m[i].0 == k ==> m[i].1 == v
    ensures Put(m, k, v) == m
  {
    assert KeysOf(m) == [m[0].0] + KeysOf(m[1..]);
    if m[0].0 != k {
      assert forall i :: 1 <= i < |m| ==> m[1..][i - 1] == m[i];
      PutSame(m[1..], k, v);
    } else {
      assert m[0] == (k, v);
    }
  }

  /** `h[k]` for a key that is present: the value of its entry. */
  function Get<V(==)>(m: OrderedMap<V>, k: string): (v: V)
    requires k in KeysOf(m)
    ensures (k, v) in m
  {
    assert KeysOf(m) == [m[0].0] + KeysOf(m[1..]);
    if m[0].0 == k then m[0].1
    else
      Get(m[1..], k)
  }
}
