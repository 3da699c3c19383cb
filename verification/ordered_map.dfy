/** An insertion-ordered map (Kotlin's `mutableMapOf`, a `LinkedHashMap`) as a
    sequence of entries: `put` on a present key replaces the value where the
    entry stands, `put` on a new key appends, `remove` drops the entry, and
    iteration visits entries in insertion order. */
module OrderedMap {
  import opened Collections

  datatype Entry<K, V> = Entry(key: K, value: V)

  /** The key set, in iteration order. */
  function Keys<K, V>(m: seq<Entry<K, V>>): (ks: seq<K>)
    ensures |ks| == |m|
    ensures forall i :: 0 <= i < |m| ==> ks[i] == m[i].key
  {
    seq(|m|, i requires 0 <= i < |m| => m[i].key)
  }

  /** `m[k]`: the value stored under `k`, if any. */
  function Get<K(==), V>(m: seq<Entry<K, V>>, k: K): Option<V>
  {
    if k in Keys(m) then Some(m[IndexOf(Keys(m), k)].value) else None
  }

  /** `m[k] = v`: afterwards `k` reads back `v` and every other key reads what
      it read before; a present key keeps its place, a new one goes last. */
  function Put<K(==), V>(m: seq<Entry<K, V>>, k: K, v: V): (r: seq<Entry<K, V>>)
    ensures k in Keys(r)
    ensures k in Keys(m) ==> Keys(r) == Keys(m)
    ensures k !in Keys(m) ==> r == m + [Entry(k, v)]
    ensures Get(r, k) == Some(v)
    ensures forall k' :: k' in Keys(m) && k' != k ==> Get(r, k') == Get(m, k')
  {
    if k in Keys(m) then
      var i := IndexOf(Keys(m), k);
      var r := m[i := Entry(k, v)];
      assert Keys(r) == Keys(m);
      assert forall k' :: k' != k && k' in Keys(m) ==> IndexOf(Keys(m), k') != i;
      r
    else
      var r := m + [Entry(k, v)];
      assert Keys(r) == Keys(m) + [k];
      IndexOfExtend(Keys(m), [k], k);
      forall k' | k' != k && k' in Keys(m)
        ensures IndexOf(Keys(r), k') == IndexOf(Keys(m), k')
      {
        IndexOfExtend(Keys(m), [k], k');
      }
      r
  }

  /** Extending a sequence does not move the first occurrence of an element;
      an element first found in the extension sits past the original. */
  lemma {:induction false} IndexOfExtend<T>(s: seq<T>, t: seq<T>, x: T)
    requires x in s + t
    ensures x in s ==> IndexOf(s + t, x) == IndexOf(s, x)
    ensures x !in s ==> IndexOf(s + t, x) == |s| + IndexOf(t, x)
  {
    if |s| > 0 {
      assert (s + t)[1..] == s[1..] + t;
      if s[0] != x {
        IndexOfExtend(s[1..], t, x);
      }
    } else {
      assert s + t == t;
    }
  }

  /** `remove(k)`. */
  function RemoveKey<K(==), V>(m: seq<Entry<K, V>>, k: K): seq<Entry<K, V>>
  {
    if k in Keys(m) then
      var i := IndexOf(Keys(m), k);
      m[..i] + m[i + 1..]
    else m
  }

  /** `m[k] = v` for every k of `ks`, in order. */
  function PutAll<K(==), V>(m: seq<Entry<K, V>>, ks: seq<K>, v: V): seq<Entry<K, V>>
  {
    if |ks| == 0 then m
    else Put(PutAll(m, ks[..|ks| - 1], v), ks[|ks| - 1], v)
  }

  /** Putting one more key after a run of puts. */
  lemma PutAllSnoc<K, V>(m: seq<Entry<K, V>>, ks: seq<K>, k: K, v: V)
    ensures PutAll(m, ks + [k], v) == Put(PutAll(m, ks, v), k, v)
  {
    assert (ks + [k])[..|ks|] == ks;
  }

  /** Fresh entries, one per key, all holding `v`. */
  function EntriesOf<K, V>(ks: seq<K>, v: V): (r: seq<Entry<K, V>>)
    ensures Keys(r) == ks
    ensures forall i :: 0 <= i < |r| ==> r[i] == Entry(ks[i], v)
  {
    seq(|ks|, i requires 0 <= i < |ks| => Entry(ks[i], v))
  }

  lemma KeysAppend<K, V>(a: seq<Entry<K, V>>, b: seq<Entry<K, V>>)
    ensures Keys(a + b) == Keys(a) + Keys(b)
  {
  }

  /** Appending an entry under a new key keeps the keys distinct and adds that key. */
  lemma AppendFreshKey<K, V>(m: seq<Entry<K, V>>, k: K, v: V)
    requires Distinct(Keys(m)) && k !in Keys(m)
    ensures Put(m, k, v) == m + [Entry(k, v)]
    ensures Keys(m + [Entry(k, v)]) == Keys(m) + [k]
    ensures Distinct(Keys(m + [Entry(k, v)]))
  {
    var ks := Keys(m);
    KeysAppend(m, [Entry(k, v)]);
    forall i, j | 0 <= i < j < |ks| + 1 ensures (ks + [k])[i] != (ks + [k])[j] {
      if j == |ks| { assert (ks + [k])[i] == ks[i]; }
    }
  }

  /** Removing a key from a map with distinct keys drops exactly that key's
      entry: the keys stay distinct and the other entries keep their order. */
  lemma RemovePresent<K, V>(m: seq<Entry<K, V>>, k: K)
    requires Distinct(Keys(m)) && k in Keys(m)
    ensures var i := IndexOf(Keys(m), k);
      && RemoveKey(m, k) == m[..i] + m[i + 1..]
      && Keys(RemoveKey(m, k)) == Keys(m)[..i] + Keys(m)[i + 1..]
    ensures Distinct(Keys(RemoveKey(m, k)))
    ensures forall k' :: k' in Keys(RemoveKey(m, k)) <==> k' in Keys(m) && k' != k
    ensures forall e :: e in RemoveKey(m, k) ==> e in m
  {
    var i := IndexOf(Keys(m), k);
    var r := m[..i] + m[i + 1..];
    assert Keys(r) == Keys(m)[..i] + Keys(m)[i + 1..] by {
      KeysAppend(m[..i], m[i + 1..]);
      assert Keys(m[..i]) == Keys(m)[..i];
      assert Keys(m[i + 1..]) == Keys(m)[i + 1..];
    }
    DeleteDistinct(Keys(m), i);
  }

  /** Removing a key that was just appended gives back the original map. */
  lemma RemoveAppended<K, V>(m: seq<Entry<K, V>>, k: K, v: V)
    requires k !in Keys(m)
    ensures RemoveKey(m + [Entry(k, v)], k) == m
  {
    KeysAppend(m, [Entry(k, v)]);
    var ks := Keys(m + [Entry(k, v)]);
    assert ks[|m|] == k;
    assert IndexOf(ks, k) == |m|;
    assert (m + [Entry(k, v)])[..|m|] == m;
  }

  /** Putting keys that are all new appends one entry per key, in order. */
  lemma {:induction false} PutAllFresh<K, V>(m: seq<Entry<K, V>>, ks: seq<K>, v: V)
    requires Distinct(Keys(m)) && Distinct(ks)
    requires forall k :: k in ks ==> k !in Keys(m)
    ensures PutAll(m, ks, v) == m + EntriesOf(ks, v)
    ensures Distinct(Keys(PutAll(m, ks, v)))
  {
    if |ks| == 0 {
      assert m + EntriesOf(ks, v) == m;
    } else {
      var init := ks[..|ks| - 1];
      var last := ks[|ks| - 1];
      assert Distinct(init) && last !in init by {
        assert forall j :: 0 <= j < |init| ==> init[j] == ks[j];
      }
      assert forall k :: k in init ==> k in ks;
      PutAllFresh(m, init, v);
      var prefix := m + EntriesOf(init, v);
      assert last !in Keys(prefix) by {
        KeysAppend(m, EntriesOf(init, v));
      }
      AppendFreshKey(prefix, last, v);
      assert PutAll(m, ks, v) == prefix + [Entry(last, v)];
      EntriesOfSnoc(ks, v);
      assert m + EntriesOf(ks, v) == prefix + [Entry(last, v)];
    }
  }

  lemma EntriesOfSnoc<K, V>(ks: seq<K>, v: V)
    requires |ks| > 0
    ensures EntriesOf(ks, v) == EntriesOf(ks[..|ks| - 1], v) + [Entry(ks[|ks| - 1], v)]
  {
  }

  /** Selecting entries selects their keys. */
  lemma {:induction false} KeysSelect<K, V>(m: seq<Entry<K, V>>, flags: seq<bool>, want: bool)
    requires |flags| == |m|
    ensures Keys(Select(m, flags, want)) == Select(Keys(m), flags, want)
  {
    if |m| > 0 {
      assert Keys(m)[1..] == Keys(m[1..]);
      KeysSelect(m[1..], flags[1..], want);
      if flags[0] == want {
        KeysAppend([m[0]], Select(m[1..], flags[1..], want));
      }
    }
  }
}
