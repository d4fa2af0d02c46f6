/** The least-recently-used cache: a map and a list that point into each other. */
module LruCache {
  import opened Permutations
  import opened Recency
  import opened Wrappers

  /** A list node; `id` is its identity, which list iterators denote. */
  datatype Node<K> = Node(id: nat, key: K)

  /** A map entry: the stored list iterator and the value. */
  datatype Slot<V> = Slot(node: nat, value: V)

  function Keys<K>(list: seq<Node<K>>): (r: seq<K>)
    ensures |r| == |list| && forall i | 0 <= i < |list| :: r[i] == list[i].key
  {
    seq(|list|, i requires 0 <= i < |list| => list[i].key)
  }

  /** `list.erase(iterator)`. */
  function Erase<K>(list: seq<Node<K>>, id: nat): (r: seq<Node<K>>) {
    if |list| == 0 then [] else if list[0].id == id then list[1..] else [list[0]] + Erase(list[1..], id)
  }

  /** Every stored iterator points at the node of its own key. */
  ghost predicate Points<K, V>(table: map<K, Slot<V>>, list: seq<Node<K>>) {
    forall i | 0 <= i < |list| :: list[i].key in table && table[list[i].key].node == list[i].id
  }

  ghost predicate IdsDistinct<K>(list: seq<Node<K>>, nextId: nat) {
    && (forall i | 0 <= i < |list| :: list[i].id < nextId)
    && (forall i, j | 0 <= i < j < |list| :: list[i].id != list[j].id)
  }

  /** Map and list are in bijection. */
  ghost predicate Linked<K, V>(table: map<K, Slot<V>>, list: seq<Node<K>>, nextId: nat) {
    Points(table, list) && IdsDistinct(list, nextId) && table.Keys == Members(Keys(list))
  }

  lemma KeysDistinct<K, V>(table: map<K, Slot<V>>, list: seq<Node<K>>, nextId: nat)
    requires Points(table, list) && IdsDistinct(list, nextId)
    ensures Distinct(Keys(list))
  {
    forall i, j | 0 <= i < j < |list|
      ensures list[i].key != list[j].key
    {
      assert list[i].id != list[j].id;
    }
  }

  lemma LinkedSize<K, V>(table: map<K, Slot<V>>, list: seq<Node<K>>, nextId: nat)
    requires Linked(table, list, nextId)
    ensures |table| == |list| && Distinct(Keys(list))
  {
    KeysDistinct(table, list, nextId);
    hide Points, IdsDistinct, Distinct, Members;
    DistinctCount(Keys(list));
    assert |table| == |table.Keys|;
  }

  /** A key is in the map exactly if the list holds it. */
  lemma InTable<K, V>(table: map<K, Slot<V>>, list: seq<Node<K>>, nextId: nat, k: K)
    requires Linked(table, list, nextId)
    ensures k in table <==> k in Keys(list)
  {
    hide Points, IdsDistinct;
  }

  lemma {:induction false} EraseAt<K>(list: seq<Node<K>>, p: nat, nextId: nat)
    requires p < |list| && IdsDistinct(list, nextId)
    ensures Erase(list, list[p].id) == list[..p] + list[p + 1..]
  {
    if p > 0 {
      assert list[0].id != list[p].id;
      EraseAt(list[1..], p - 1, nextId);
      ConsCut(list, p);
    }
  }

  lemma ConsCut<K>(list: seq<Node<K>>, p: nat)
    requires 0 < p < |list|
    ensures [list[0]] + (list[1..][..p - 1] + list[1..][p..]) == list[..p] + list[p + 1..]
  {
  }

  lemma RemoveAt<K>(s: seq<K>, p: nat)
    requires p < |s| && Distinct(s)
    ensures Remove(s, s[p]) == s[..p] + s[p + 1..]
  {
    CutAt(s, p);
    assert s[p] !in s[..p] && s[p] !in s[p + 1..];
    hide Distinct;
    RemoveOnly(s[..p], s[p], s[p + 1..]);
  }

  /** Cutting node `p` out cuts its key, and only it, out of the keys. */
  lemma CutKeys<K>(list: seq<Node<K>>, p: nat)
    requires p < |list| && Distinct(Keys(list))
    ensures Keys(list[..p] + list[p + 1..]) == Remove(Keys(list), list[p].key)
  {
    RemoveAt(Keys(list), p);
    var rest := list[..p] + list[p + 1..];
    assert Keys(rest) == Keys(list)[..p] + Keys(list)[p + 1..];
  }

  lemma CutNodes<K, V>(table: map<K, Slot<V>>, list: seq<Node<K>>, nextId: nat, p: nat)
    requires Points(table, list) && IdsDistinct(list, nextId) && p < |list|
    ensures var rest := list[..p] + list[p + 1..];
            && Points(table, rest) && IdsDistinct(rest, nextId)
            && forall i | 0 <= i < |rest| :: rest[i].id != list[p].id
  {
    var rest := list[..p] + list[p + 1..];
    forall i | 0 <= i < |rest|
      ensures rest[i] == list[if i < p then i else i + 1]
    {
    }
  }

  lemma PushFront<K, V>(table: map<K, Slot<V>>, rest: seq<Node<K>>, nextId: nat, k: K, v: V)
    requires Points(table, rest) && IdsDistinct(rest, nextId) && k !in Keys(rest)
    ensures var list := [Node(nextId, k)] + rest;
            && Points(table[k := Slot(nextId, v)], list) && IdsDistinct(list, nextId + 1)
            && Keys(list) == [k] + Keys(rest)
  {
    PushIds(rest, nextId, k);
    PushPoints(table, rest, nextId, k, v);
    assert Keys([Node(nextId, k)] + rest) == [k] + Keys(rest);
    hide Points, IdsDistinct;
  }

  lemma PushIds<K>(rest: seq<Node<K>>, nextId: nat, k: K)
    requires IdsDistinct(rest, nextId)
    ensures IdsDistinct([Node(nextId, k)] + rest, nextId + 1)
  {
  }

  lemma PushPoints<K, V>(table: map<K, Slot<V>>, rest: seq<Node<K>>, nextId: nat, k: K, v: V)
    requires Points(table, rest) && k !in Keys(rest)
    ensures Points(table[k := Slot(nextId, v)], [Node(nextId, k)] + rest)
  {
    forall i | 0 <= i < |rest|
      ensures rest[i].key != k
    {
      assert Keys(rest)[i] == rest[i].key;
    }
  }

  lemma ConsMembers<K>(s: seq<K>, k: K)
    ensures Members([k] + s) == Members(s) + {k}
  {
  }

  lemma RemoveMembers<K>(s: seq<K>, k: K)
    ensures Members(Remove(s, k)) == Members(s) - {k}
  {
    hide Remove;
  }

  /** Moving a held key's node to the front under a new identity, as erase and push_front do. */
  lemma FrontLinked<K, V>(table: map<K, Slot<V>>, list: seq<Node<K>>, nextId: nat, k: K)
    requires Linked(table, list, nextId) && k in table
    ensures var list' := [Node(nextId, k)] + Erase(list, table[k].node);
            && Linked(table[k := table[k].(node := nextId)], list', nextId + 1)
            && Keys(list') == [k] + Remove(Keys(list), k)
  {
    hide Remove, Members, Erase;
    InTable(table, list, nextId, k);
    KeysDistinct(table, list, nextId);
    var p :| 0 <= p < |list| && Keys(list)[p] == k;
    assert table[k].node == list[p].id;
    hide Points, IdsDistinct, Distinct;
    EraseAt(list, p, nextId);
    CutKeys(list, p);
    CutNodes(table, list, nextId, p);
    PushFront(table, list[..p] + list[p + 1..], nextId, k, table[k].value);
    ConsMembers(Remove(Keys(list), k), k);
    RemoveMembers(Keys(list), k);
    MapKeys(table, k, Slot(nextId, table[k].value));
    PutBack(table.Keys, k);
  }

  lemma MapKeys<K, V>(table: map<K, Slot<V>>, k: K, slot: Slot<V>)
    ensures table[k := slot].Keys == table.Keys + {k}
  {
  }

  lemma PutBack<K>(s: set<K>, k: K)
    requires k in s
    ensures s - {k} + {k} == s == s + {k}
  {
  }

  /** Dropping the last entry from both. */
  lemma BackLinked<K, V>(table: map<K, Slot<V>>, list: seq<Node<K>>, nextId: nat)
    requires Linked(table, list, nextId) && |list| > 0
    ensures var n := |list| - 1;
            && Linked(table - {list[n].key}, list[..n], nextId)
            && Keys(list[..n]) == Keys(list)[..n]
  {
    var n := |list| - 1;
    KeysDistinct(table, list, nextId);
    assert list[..n] + list[n + 1..] == list[..n];
    BackKeys(list);
    hide Points, IdsDistinct, Distinct, Members, Remove;
    CutKeys(list, n);
    CutNodes(table, list, nextId, n);
    RemoveMembers(Keys(list), list[n].key);
    OtherPoints(table, list[..n], list[n].key);
    assert (table - {list[n].key}).Keys == table.Keys - {list[n].key};
  }

  lemma BackKeys<K>(list: seq<Node<K>>)
    requires |list| > 0
    ensures Keys(list[..|list| - 1]) == Keys(list)[..|list| - 1]
    ensures Distinct(Keys(list)) ==> list[|list| - 1].key !in Keys(list[..|list| - 1])
  {
    assert forall i | 0 <= i < |list| - 1 :: Keys(list)[i] == Keys(list[..|list| - 1])[i];
  }

  lemma OtherPoints<K, V>(table: map<K, Slot<V>>, list: seq<Node<K>>, k: K)
    requires Points(table, list) && k !in Keys(list)
    ensures Points(table - {k}, list)
  {
    assert forall i | 0 <= i < |list| :: Keys(list)[i] == list[i].key;
  }

  lemma NewLinked<K, V>(table: map<K, Slot<V>>, list: seq<Node<K>>, nextId: nat, k: K, v: V)
    requires Linked(table, list, nextId) && k !in table
    ensures Linked(table[k := Slot(nextId, v)], [Node(nextId, k)] + list, nextId + 1)
    ensures Keys([Node(nextId, k)] + list) == [k] + Keys(list)
  {
    InTable(table, list, nextId, k);
    hide Points, IdsDistinct, Members;
    PushFront(table, list, nextId, k, v);
    ConsMembers(Keys(list), k);
    MapKeys(table, k, Slot(nextId, v));
  }

  lemma ValueLinked<K, V>(table: map<K, Slot<V>>, list: seq<Node<K>>, nextId: nat, k: K, v: V)
    requires Linked(table, list, nextId) && k in table
    ensures Linked(table[k := table[k].(value := v)], list, nextId)
  {
    hide IdsDistinct, Members;
    MapKeys(table, k, table[k].(value := v));
    PutBack(table.Keys, k);
  }

  /** Each held key has the value last stored under it. */
  ghost predicate Holds<K, V>(table: map<K, Slot<V>>, stored: map<K, V>) {
    forall k | k in table :: k in stored && table[k].value == stored[k]
  }

  // ---------------------------------------------------------------- the cache

  class Cache<K(==), V> {
    const maxSize: nat
    /** The default value `V()`. */
    const blank: V
    var table: map<K, Slot<V>>
    var list: seq<Node<K>>
    var nextId: nat
    /** Every key touched so far, and the value last stored under each key. */
    ghost var history: seq<K>
    ghost var stored: map<K, V>

    ghost predicate Valid()
      reads this
    {
      && maxSize > 0 && Linked(table, list, nextId) && Holds(table, stored)
      && Keys(list) == Take(Recent(history), maxSize)
    }

    constructor (maxSize: nat, blank: V)
      requires maxSize != 0
      ensures Valid() && this.maxSize == maxSize && this.blank == blank
      ensures history == [] && stored == map[]
    {
      this.maxSize, this.blank := maxSize, blank;
      table, list, nextId, history, stored := map[], [], 0, [], map[];
    }

    /** Evicts from the back until `count` more entries fit. */
    method EnsureSpace(count: nat, ghost values: map<K, V>)
      requires Linked(table, list, nextId) && Holds(table, values) && count <= maxSize
      modifies `table, `list
      ensures Linked(table, list, nextId) && Holds(table, values) && table.Keys <= old(table.Keys)
      ensures Keys(list) == Take(old(Keys(list)), maxSize - count)
    {
      hide Linked, Take;
      ghost var keys := Keys(list);
      TakeAll(keys);
      LinkedSize(table, list, nextId);
      while |table| + count > maxSize
        invariant Linked(table, list, nextId) && Holds(table, values) && |table| == |list|
        invariant table.Keys <= old(table.Keys)
        invariant Keys(list) == Take(keys, |list|) && |list| <= |keys|
        invariant |list| == |keys| || |list| + count >= maxSize
        decreases |list|
      {
        BackLinked(table, list, nextId);
        TakeShorter(keys, |list|);
        table := table - {list[|list| - 1].key};
        list := list[..|list| - 1];
        LinkedSize(table, list, nextId);
      }
      TakeFits(keys, |list|, maxSize - count);
    }

    /** Moves the node of a held key to the front. */
    method MoveFront(key: K)
      requires Linked(table, list, nextId) && key in table
      modifies `table, `list, `nextId
      ensures Linked(table, list, nextId) && key in table
      ensures table.Keys == old(table.Keys) && forall k | k in table :: table[k].value == old(table)[k].value
      ensures Keys(list) == [key] + Remove(old(Keys(list)), key)
    {
      hide Linked, Erase, Remove;
      FrontLinked(table, list, nextId, key);
      list := Erase(list, table[key].node);
      list := [Node(nextId, key)] + list;
      table := table[key := table[key].(node := nextId)];
      nextId := nextId + 1;
    }

    /** Stores a value and touches its key; says whether the key was new. */
    method Emplace(key: K, value: V) returns (inserted: bool)
      requires Valid()
      modifies this
      ensures Valid() && key in table
      ensures inserted <==> key !in old(table)
      ensures history == old(history) + [key] && stored == old(stored)[key := value]
    {
      hide Recent, Take, Linked;
      RecentEnd(history, key);
      RecentDistinct(history);
      history, stored := history + [key], stored[key := value];
      if key in table {
        Replace(key, value, Recent(old(history)));
        return false;
      }
      Insert(key, value, Recent(old(history)));
      return true;
    }

    /** The first half of `emplace`: the key is held. */
    method Replace(key: K, value: V, ghost r: seq<K>)
      requires maxSize > 0 && Linked(table, list, nextId) && key in table
      requires Distinct(r) && Keys(list) == Take(r, maxSize)
      modifies `table, `list, `nextId
      ensures Linked(table, list, nextId) && Keys(list) == Take([key] + Remove(r, key), maxSize)
      ensures table.Keys == old(table.Keys) && table[key].value == value
      ensures forall k | k in table && k != key :: table[k].value == old(table)[k].value
    {
      InTable(table, list, nextId, key);
      TouchHeld(r, key, maxSize);
      hide Take, Remove, Linked, Distinct;
      MoveFront(key);
      ValueLinked(table, list, nextId, key, value);
      table := table[key := table[key].(value := value)];
    }

    /** The second half: make room, then insert. */
    method Insert(key: K, value: V, ghost r: seq<K>)
      requires maxSize > 0 && Linked(table, list, nextId) && key !in table && Holds(table, stored[key := value])
      requires Distinct(r) && Keys(list) == Take(r, maxSize)
      modifies `table, `list, `nextId
      ensures Linked(table, list, nextId) && Keys(list) == Take([key] + Remove(r, key), maxSize)
      ensures key in table && Holds(table, stored[key := value])
    {
      InTable(table, list, nextId, key);
      TouchNew(r, key, maxSize);
      TakeTake(r, maxSize);
      hide Take, Remove, Linked, Distinct, Holds;
      EnsureSpace(1, stored[key := value]);
      NewLinked(table, list, nextId, key, value);
      HoldsNew(table, stored[key := value], key, nextId);
      list := [Node(nextId, key)] + list;
      table := table[key := Slot(nextId, value)];
      nextId := nextId + 1;
    }

    /** Reads a held key and touches it; a missing key fails and changes nothing. */
    method At(key: K) returns (r: Option<V>)
      requires Valid()
      modifies this
      ensures Valid()
      ensures r.Some? <==> key in old(table)
      ensures r.Some? ==> key in old(stored) && r.value == old(stored)[key] && key in table
      ensures history == (if key in old(table) then old(history) + [key] else old(history))
      ensures stored == old(stored)
    {
      if key !in table {
        return None;
      }
      RecentDistinct(history);
      InTable(table, list, nextId, key);
      TouchHeld(Recent(history), key, maxSize);
      RecentEnd(history, key);
      hide Recent, Take, Remove, Linked, Distinct;
      MoveFront(key);
      history := history + [key];
      return Some(table[key].value);
    }

    /** `operator[]`: reads a held key, or stores the default value under a new one. */
    method Index(key: K) returns (value: V, created: bool)
      requires Valid()
      modifies this
      ensures Valid() && key in table
      ensures created <==> key !in old(table)
      ensures history == old(history) + [key]
      ensures stored == if created then old(stored)[key := blank] else old(stored)
      ensures key in stored && value == stored[key]
    {
      if key in table {
        var r := At(key);
        return r.value, false;
      }
      var _ := Emplace(key, blank);
      return table[key].value, true;
    }

    /** Writing through the reference that At or Index returned. */
    method Store(key: K, value: V)
      requires Valid() && key in table
      modifies this
      ensures Valid() && history == old(history) && list == old(list) && table.Keys == old(table.Keys)
      ensures stored == old(stored)[key := value]
    {
      ValueLinked(table, list, nextId, key, value);
      table := table[key := table[key].(value := value)];
      stored := stored[key := value];
    }
  }

  lemma HoldsNew<K, V>(table: map<K, Slot<V>>, stored: map<K, V>, k: K, id: nat)
    requires Holds(table, stored) && k in stored
    ensures Holds(table[k := Slot(id, stored[k])], stored)
  {
  }

  lemma TakeAll<K>(s: seq<K>)
    ensures Take(s, |s|) == s
  {
  }

  lemma TakeShorter<K>(s: seq<K>, n: nat)
    requires 0 < n <= |s|
    ensures Take(s, n)[..n - 1] == Take(s, n - 1)
  {
  }

  lemma TakeFits<K>(s: seq<K>, n: nat, m: nat)
    requires n <= |s| && n <= m && (n == |s| || n == m)
    ensures Take(s, n) == Take(s, m)
  {
  }
}
