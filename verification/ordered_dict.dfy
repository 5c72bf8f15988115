/** A Python dict as an insertion-ordered sequence of key/value pairs. Only the two operations the
    add-on performs on its dicts are needed: reading the keys in order, and overwriting the value of
    a key that is already present. */
module OrderedDict {
  import opened Wrappers

  /** The keys in iteration order. */
  function Keys<K, V>(d: seq<(K, V)>): (ks: seq<K>)
    ensures |ks| == |d|
    ensures forall i :: 0 <= i < |d| ==> ks[i] == d[i].0
  {
    seq(|d|, i requires 0 <= i < |d| => d[i].0)
  }

  /** Overwrite the value of key `k` where `d` already has it: the key keeps its position, and a
      key not in `d` changes nothing. */
  function AssignExisting<K(==), V>(d: seq<(K, V)>, k: K, v: V): (r: seq<(K, V)>)
    ensures |r| == |d|
    ensures forall i :: 0 <= i < |d| ==> r[i] == (if d[i].0 == k then (k, v) else d[i])
  {
    seq(|d|, i requires 0 <= i < |d| => if d[i].0 == k then (k, v) else d[i])
  }

  /** The value of the last entry whose key is `k`, if there is one. */
  function LastValue<K(==), V>(entries: seq<(K, V)>, k: K): Option<V>
  {
    if entries == [] then None
    else if entries[|entries| - 1].0 == k then Some(entries[|entries| - 1].1)
    else LastValue(entries[..|entries| - 1], k)
  }

  /** Seen from the front, the last entry with key `k` lies in the tail when the tail has one. */
  lemma {:induction false} LastValueFromFront<K, V>(entries: seq<(K, V)>, k: K)
    requires entries != []
    ensures LastValue(entries, k) ==
      match LastValue(entries[1..], k)
      case Some(v) => Some(v)
      case None => if entries[0].0 == k then Some(entries[0].1) else None
  {
    if |entries| > 1 {
      var init := entries[..|entries| - 1];
      assert init[1..] == entries[1..][..|entries[1..]| - 1];
      assert entries[1..][|entries[1..]| - 1] == entries[|entries| - 1];
      LastValueFromFront(init, k);
    }
  }

  /** Walk `entries` front to back and overwrite each key `d` already has. The keys of `d` stay as they are, in the same
      order; a key of `d` ends up with the value of its last entry in `entries`, or keeps its own
      value when `entries` does not mention it; keys only in `entries` are ignored. */
  function OverlayExisting<K(==), V>(d: seq<(K, V)>, entries: seq<(K, V)>): (r: seq<(K, V)>)
    ensures Keys(r) == Keys(d)
    ensures forall i :: 0 <= i < |d| ==> r[i].1 == LastValue(entries, d[i].0).GetOr(d[i].1)
    decreases |entries|
  {
    if entries == [] then d
    else
      var d' := AssignExisting(d, entries[0].0, entries[0].1);
      assert Keys(d') == Keys(d);
      var r := OverlayExisting(d', entries[1..]);
      assert forall i :: 0 <= i < |d| ==> r[i].1 == LastValue(entries, d[i].0).GetOr(d[i].1) by {
        forall i | 0 <= i < |d|
          ensures r[i].1 == LastValue(entries, d[i].0).GetOr(d[i].1)
        {
          LastValueFromFront(entries, d[i].0);
        }
      }
      r
  }
}
