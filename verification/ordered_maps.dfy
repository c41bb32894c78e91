/**
 JavaScript plain objects used as dictionaries. Such an object keeps its
 string keys in insertion order; assigning to an existing key replaces the
 value in place, assigning to a new key appends it. `for (k in obj)` walks
 the keys in that order.
 */
module OrderedMaps {
  import opened Results

  type Entries<V> = seq<(string, V)>

  function Keys<V>(m: Entries<V>): seq<string> {
    seq(|m|, i requires 0 <= i < |m| => m[i].0)
  }

  /** What every object satisfies: no key occurs twice. */
  predicate DistinctKeys<V>(m: Entries<V>) {
    forall i, j :: 0 <= i < j < |m| ==> m[i].0 != m[j].0
  }

  /** The position of key `k` in `m`, or `|m|` when `k` is not a key. */
  function IndexOf<V>(m: Entries<V>, k: string): (i: nat)
    ensures i <= |m|
    ensures i < |m| ==> m[i].0 == k
  {
    IndexFrom(m, k, 0)
  }

  /** The first position at or after `start` holding key `k`, or `|m|`. */
  function IndexFrom<V>(m: Entries<V>, k: string, start: nat): (i: nat)
    requires start <= |m|
    ensures start <= i <= |m|
    ensures i < |m| ==> m[i].0 == k
    decreases |m| - start
  {
    if start == |m| then start
    else if m[start].0 == k then start
    else IndexFrom(m, k, start + 1)
  }

  /** No position before the one IndexFrom finds holds the key. */
  lemma {:induction false} IndexFromFirst<V>(m: Entries<V>, k: string, start: nat, j: nat)
    requires start <= |m|
    requires start <= j < IndexFrom(m, k, start)
    ensures m[j].0 != k
    decreases |m| - start
  {
    if j > start {
      IndexFromFirst(m, k, start + 1, j);
    }
  }

  /** A position with the key and none before it is the one IndexFrom finds. */
  lemma {:induction false} IndexFromUnique<V>(m: Entries<V>, k: string, start: nat, i: nat)
    requires start <= i <= |m|
    requires i < |m| ==> m[i].0 == k
    requires forall j :: start <= j < i ==> m[j].0 != k
    ensures IndexFrom(m, k, start) == i
    decreases i - start
  {
    if start < i {
      IndexFromUnique(m, k, start + 1, i);
    }
  }

  /** IndexOf finds the first position holding the key. */
  lemma IndexOfFirst<V>(m: Entries<V>, k: string)
    ensures forall j :: 0 <= j < IndexOf(m, k) ==> m[j].0 != k
  {
    forall j | 0 <= j < IndexOf(m, k)
      ensures m[j].0 != k
    {
      IndexFromFirst(m, k, 0, j);
    }
  }

  /** The contract of IndexOf singles out one position. */
  lemma IndexOfUnique<V>(m: Entries<V>, k: string, i: nat)
    requires i <= |m|
    requires i < |m| ==> m[i].0 == k
    requires forall j :: 0 <= j < i ==> m[j].0 != k
    ensures IndexOf(m, k) == i
  {
    IndexFromUnique(m, k, 0, i);
  }

  /** `obj.hasOwnProperty(k)`. */
  predicate HasKey<V>(m: Entries<V>, k: string) {
    IndexOf(m, k) < |m|
  }

  /** Owning a key is occurring in the key list. */
  lemma HasKeyIsKey<V>(m: Entries<V>, k: string)
    ensures HasKey(m, k) <==> k in Keys(m)
  {
    if k in Keys(m) {
      var j :| 0 <= j < |m| && Keys(m)[j] == k;
      assert m[j].0 == k;
      IndexOfFirst(m, k);
    }
    if HasKey(m, k) {
      assert Keys(m)[IndexOf(m, k)] == k;
    }
  }

  /** `obj[k]`, or `undefined` (None) when `k` is not an own key. */
  function Lookup<V>(m: Entries<V>, k: string): (r: Option<V>)
    ensures r.Some? ==> (k, r.value) in m
  {
    var i := IndexOf(m, k);
    if i < |m| then Some(m[i].1) else None
  }

  /** The entries `obj[k] = v` leaves: `v` replaces the value in place, or `(k, v)` is appended. */
  function Assign<V>(m: Entries<V>, k: string, v: V): Entries<V> {
    var i := IndexOf(m, k);
    if i < |m| then m[i := (k, v)] else m + [(k, v)]
  }

  /** After an assignment, a key other than the assigned one sits where it sat, or is still absent. */
  lemma AssignIndexOf<V>(m: Entries<V>, k: string, v: V, k': string)
    requires k' != k
    ensures IndexOf(Assign(m, k, v), k') == IndexOf(m, k') ||
            (IndexOf(m, k') == |m| && IndexOf(Assign(m, k, v), k') == |Assign(m, k, v)|)
  {
    var r := Assign(m, k, v);
    var j := IndexOf(m, k');
    IndexOfFirst(m, k');
    if j < |m| {
      IndexOfUnique(r, k', j);
    } else {
      IndexOfUnique(r, k', |r|);
    }
  }

  /** An assignment makes `k` read `v` and leaves every other key's read alone. */
  lemma AssignSpec<V>(m: Entries<V>, k: string, v: V)
    ensures Lookup(Assign(m, k, v), k) == Some(v)
    ensures forall k' :: k' != k ==> Lookup(Assign(m, k, v), k') == Lookup(m, k')
    ensures forall k' :: HasKey(Assign(m, k, v), k') <==> HasKey(m, k') || k' == k
  {
    var r := Assign(m, k, v);
    forall k' | k' != k
      ensures IndexOf(r, k') == IndexOf(m, k') || (IndexOf(m, k') == |m| && IndexOf(r, k') == |r|)
    {
      AssignIndexOf(m, k, v, k');
    }
    IndexOfFirst(m, k);
    IndexOfUnique(r, k, IndexOf(m, k));
  }

  /** `obj[k] = v`. */
  function Put<V>(m: Entries<V>, k: string, v: V): (r: Entries<V>)
    ensures Lookup(r, k) == Some(v)
    ensures forall k' :: k' != k ==> Lookup(r, k') == Lookup(m, k')
    ensures forall k' :: HasKey(r, k') <==> HasKey(m, k') || k' == k
  {
    AssignSpec(m, k, v);
    Assign(m, k, v)
  }

  /** Assignment keeps the key order: an existing key stays in place, a new key goes last. */
  lemma PutOrder<V>(m: Entries<V>, k: string, v: V)
    ensures HasKey(m, k) ==> |Put(m, k, v)| == |m| && forall i :: 0 <= i < |m| ==> Put(m, k, v)[i].0 == m[i].0
    ensures !HasKey(m, k) ==> Put(m, k, v) == m + [(k, v)]
  {
  }

  /** Assignment never duplicates a key. */
  lemma PutDistinct<V>(m: Entries<V>, k: string, v: V)
    requires DistinctKeys(m)
    ensures DistinctKeys(Put(m, k, v))
  {
    IndexOfFirst(m, k);
  }

  /** In an object, the value stored under each entry's key is that entry's value. */
  lemma LookupEntry<V>(m: Entries<V>, i: nat)
    requires DistinctKeys(m)
    requires i < |m|
    ensures Lookup(m, m[i].0) == Some(m[i].1)
  {
    IndexOfUnique(m, m[i].0, i);
  }

  /** `obj[k]` is `undefined` exactly when `k` is not an own key of `obj`. */
  lemma LookupAbsent<V>(m: Entries<V>, k: string)
    ensures Lookup(m, k).None? <==> !HasKey(m, k)
    ensures Lookup(m, k).None? <==> k !in Keys(m)
  {
    HasKeyIsKey(m, k);
  }

  /** `{ k: k for every key k of m }`: the identity map over m's keys. */
  function IdentityOver<V>(m: Entries<V>): (r: Entries<string>)
    ensures Keys(r) == Keys(m)
    ensures forall i :: 0 <= i < |r| ==> r[i].1 == r[i].0
  {
    seq(|m|, i requires 0 <= i < |m| => (m[i].0, m[i].0))
  }
}
