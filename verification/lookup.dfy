/**
 * Per-batch interning tables (`addToLookup`, `addToPidLookup`): a map from a
 * string key to a position, kept in step with the array of stored entries.
 */
module Lookup {
  import opened Wrappers
  import opened Actor

  /** `index` is the Go map, `entries` the array appended to alongside it. */
  datatype Table<T> = Table(index: map<string, nat>, entries: seq<T>)

  function Empty<T>(): Table<T>
  {
    Table(map[], [])
  }

  /** A type name is interned under itself. */
  function NameKey(s: string): string
  {
    s
  }

  /**
   * The table invariant: as many keys as entries, every entry's key maps to
   * its own position, and every key maps to an entry carrying that key.
   */
  ghost predicate Indexed<T>(t: Table<T>, key: T -> string)
  {
    && |t.index| == |t.entries|
    && (forall i :: 0 <= i < |t.entries| ==> key(t.entries[i]) in t.index && t.index[key(t.entries[i])] == i)
    && (forall k :: k in t.index ==> t.index[k] < |t.entries| && key(t.entries[t.index[k]]) == k)
  }

  /** No two entries share a key. */
  ghost predicate DistinctKeys<T>(s: seq<T>, key: T -> string)
  {
    forall i, j :: 0 <= i < j < |s| ==> key(s[i]) != key(s[j])
  }

  /** Every stored reference has its request id cleared. */
  ghost predicate Stripped(s: seq<Pid>)
  {
    forall i :: 0 <= i < |s| ==> s[i].requestId == 0
  }

  /**
   * A reader's view of a reference index: 0 stands for an absent reference,
   * and any other index is one past the position of an entry with the
   * reference's key.
   */
  ghost predicate Resolves(table: seq<Pid>, index: nat, p: Option<Pid>)
  {
    if p.None? then index == 0 else 1 <= index <= |table| && Key(table[index - 1]) == Key(p.value)
  }

  lemma EmptyIndexed<T>(key: T -> string)
    ensures Indexed(Empty<T>(), key)
  {
  }

  /** The invariant makes the entries duplicate-free. */
  lemma IndexedDistinct<T>(t: Table<T>, key: T -> string)
    requires Indexed(t, key)
    ensures DistinctKeys(t.entries, key)
  {
    forall i, j | 0 <= i < j < |t.entries|
      ensures key(t.entries[i]) != key(t.entries[j])
    {
      assert t.index[key(t.entries[i])] == i;
      assert t.index[key(t.entries[j])] == j;
    }
  }

  /** In a duplicate-free table, a key pins down one position. */
  lemma DistinctKeysUnique<T>(s: seq<T>, key: T -> string, a: nat, b: nat)
    requires DistinctKeys(s, key)
    requires a < |s| && b < |s| && key(s[a]) == key(s[b])
    ensures a == b
  {
  }

  /** Under the invariant, a key is in the map exactly when some entry carries it. */
  lemma IndexedMembership<T>(t: Table<T>, key: T -> string, k: string)
    requires Indexed(t, key)
    ensures k in t.index <==> exists i :: 0 <= i < |t.entries| && key(t.entries[i]) == k
  {
    if k in t.index {
      assert key(t.entries[t.index[k]]) == k;
    }
  }

  /**
   * Appending an entry under a fresh key at position `|index|` keeps the
   * invariant.
   */
  lemma AppendIndexed<T>(t: Table<T>, key: T -> string, x: T)
    requires Indexed(t, key)
    requires key(x) !in t.index
    ensures Indexed(Table(t.index[key(x) := |t.index|], t.entries + [x]), key)
  {
    var t' := Table(t.index[key(x) := |t.index|], t.entries + [x]);
    forall i | 0 <= i < |t'.entries|
      ensures key(t'.entries[i]) in t'.index && t'.index[key(t'.entries[i])] == i
    {
      if i < |t.entries| {
        assert t'.entries[i] == t.entries[i];
      }
    }
  }

  /** Some element of `s` carries key `k`. */
  predicate HasKey<T>(s: seq<T>, key: T -> string, k: string)
  {
    exists i :: 0 <= i < |s| && key(s[i]) == k
  }

  /** Appending keeps every key present and adds the new element's key. */
  lemma HasKeyAppend<T>(s: seq<T>, key: T -> string, x: T)
    ensures forall k :: HasKey(s, key, k) ==> HasKey(s + [x], key, k)
    ensures HasKey(s + [x], key, key(x))
  {
    forall k | HasKey(s, key, k)
      ensures HasKey(s + [x], key, k)
    {
      var i :| 0 <= i < |s| && key(s[i]) == k;
      assert (s + [x])[i] == s[i];
    }
    assert (s + [x])[|s|] == x;
  }

  /**
   * The order an interning table is meant to have, defined without maps:
   * the elements of `xs` whose key has not occurred earlier in `xs`, in the
   * order they occur.
   */
  function FirstSeen<T>(xs: seq<T>, key: T -> string): (r: seq<T>)
    ensures DistinctKeys(r, key)
    ensures |r| <= |xs|
    ensures forall k :: 0 <= k < |xs| ==> HasKey(r, key, key(xs[k]))
  {
    if xs == [] then []
    else
      var prev := FirstSeen(xs[..|xs| - 1], key);
      var x := xs[|xs| - 1];
      if HasKey(prev, key, key(x)) then prev
      else
        assert forall k :: 0 <= k < |xs| - 1 ==> xs[k] == xs[..|xs| - 1][k];
        HasKeyAppend(prev, key, x);
        prev + [x]
  }

  /**
   * Every entry of `FirstSeen(xs)` is an element of `xs` none of whose
   * predecessors in `xs` has its key: the first one seen under that key.
   */
  lemma {:induction false} FirstSeenIsFirst<T>(xs: seq<T>, key: T -> string, e: nat)
    requires e < |FirstSeen(xs, key)|
    ensures exists k :: 0 <= k < |xs| && xs[k] == FirstSeen(xs, key)[e] && !HasKey(xs[..k], key, key(xs[k]))
  {
    var init := xs[..|xs| - 1];
    var prev := FirstSeen(init, key);
    var x := xs[|xs| - 1];
    if e < |prev| {
      FirstSeenIsFirst(init, key, e);
      var k :| 0 <= k < |init| && init[k] == prev[e] && !HasKey(init[..k], key, key(init[k]));
      assert init[..k] == xs[..k];
      assert xs[k] == FirstSeen(xs, key)[e];
    } else {
      assert !HasKey(prev, key, key(x));
      assert xs[..|xs| - 1] == init;
    }
  }

  /** Seeing more elements only appends to the first-seen order. */
  lemma {:induction false} FirstSeenPrefix<T>(xs: seq<T>, key: T -> string, m: nat)
    requires m <= |xs|
    ensures |FirstSeen(xs[..m], key)| <= |FirstSeen(xs, key)|
    ensures FirstSeen(xs, key)[..|FirstSeen(xs[..m], key)|] == FirstSeen(xs[..m], key)
    decreases |xs|
  {
    if m < |xs| {
      var init := xs[..|xs| - 1];
      FirstSeenPrefix(init, key, m);
      assert init[..m] == xs[..m];
    } else {
      assert xs[..m] == xs;
    }
  }

  /** One more element extends the first-seen order exactly when its key is new. */
  lemma FirstSeenSnoc<T>(xs: seq<T>, key: T -> string, x: T)
    ensures FirstSeen(xs + [x], key) ==
            if HasKey(FirstSeen(xs, key), key, key(x)) then FirstSeen(xs, key) else FirstSeen(xs, key) + [x]
  {
    assert (xs + [x])[..|xs|] == xs;
  }

  /** `s'` is `s` with at most one element appended. */
  ghost predicate GrowsByAtMostOne<T>(s: seq<T>, s': seq<T>)
  {
    |s| <= |s'| <= |s| + 1 && s'[..|s|] == s
  }

  /**
   * The lookup both Go functions perform: the position of the entry stored
   * under key `k`, or else the map's size, at which `x` is appended under `k`.
   */
  function Intern<T>(t: Table<T>, key: T -> string, k: string, x: T): (r: (nat, Table<T>))
    requires Indexed(t, key) && key(x) == k
    ensures Indexed(r.1, key)
    ensures r.0 < |r.1.entries| && key(r.1.entries[r.0]) == k
    ensures GrowsByAtMostOne(t.entries, r.1.entries)
    ensures k in t.index ==> r.1 == t
    ensures k !in t.index ==> r.0 == |t.entries| && r.1.entries == t.entries + [x]
  {
    var max := |t.index|;
    if k in t.index then
      (t.index[k], t)
    else
      AppendIndexed(t, key, x);
      (max, Table(t.index[k := max], t.entries + [x]))
  }

  /**
   * `addToLookup`: the 0-based position of `name` in the type-name table,
   * appending it at the end when it is new.
   */
  function AddToLookup(t: Table<string>, name: string): (r: (nat, Table<string>))
    requires Indexed(t, NameKey)
    ensures Indexed(r.1, NameKey)
    ensures r.0 < |r.1.entries| && r.1.entries[r.0] == name
    ensures GrowsByAtMostOne(t.entries, r.1.entries)
    ensures name in t.entries ==> r.1 == t
    ensures name !in t.entries ==> r.0 == |t.entries| && r.1.entries == t.entries + [name]
  {
    IndexedMembership(t, NameKey, name);
    Intern(t, NameKey, name, name)
  }

  /**
   * `addToPidLookup`: 0 for an absent reference; otherwise one plus the
   * position of the entry sharing the reference's key, appending a copy with
   * its request id cleared when the key is new.
   */
  function AddToPidLookup(t: Table<Pid>, pid: Option<Pid>): (r: (nat, Table<Pid>))
    requires Indexed(t, Key) && Stripped(t.entries)
    ensures Indexed(r.1, Key) && Stripped(r.1.entries)
    ensures pid.None? ==> r == (0, t)
    ensures Resolves(r.1.entries, r.0, pid)
    ensures GrowsByAtMostOne(t.entries, r.1.entries)
    ensures |r.1.entries| == |t.entries| + 1 <==> pid.Some? && Key(pid.value) !in t.index
    ensures |r.1.entries| == |t.entries| + 1 ==> r.0 == |r.1.entries| && r.1.entries == t.entries + [Strip(pid.value)]
  {
    if pid.None? then
      (0, t)
    else
      var c := Strip(pid.value);
      var r := Intern(t, Key, Key(pid.value), c);
      (r.0 + 1, r.1)
  }

  /** `addToLookup` keeps the type names in the order they were first seen. */
  lemma AddToLookupFirstSeen(t: Table<string>, names: seq<string>, name: string)
    requires Indexed(t, NameKey) && t.entries == FirstSeen(names, NameKey)
    ensures AddToLookup(t, name).1.entries == FirstSeen(names + [name], NameKey)
  {
    FirstSeenSnoc(names, NameKey, name);
    if HasKey(t.entries, NameKey, name) {
      var i :| 0 <= i < |t.entries| && NameKey(t.entries[i]) == name;
      assert t.entries[i] == name;
    }
  }

  /**
   * `addToPidLookup` keeps the stored references in the order their keys
   * were first seen, each one the stripped copy of the first reference seen
   * under its key; an absent reference changes nothing.
   */
  lemma AddToPidLookupFirstSeen(t: Table<Pid>, refs: seq<Pid>, pid: Option<Pid>)
    requires Indexed(t, Key) && Stripped(t.entries) && t.entries == FirstSeen(refs, Key)
    ensures AddToPidLookup(t, pid).1.entries == FirstSeen(refs + (if pid.Some? then [Strip(pid.value)] else []), Key)
  {
    if pid.Some? {
      var c := Strip(pid.value);
      assert Key(c) == Key(pid.value);
      FirstSeenSnoc(refs, Key, c);
      IndexedMembership(t, Key, Key(c));
      var r := AddToPidLookup(t, pid);
      if Key(c) in t.index {
        assert r.1.entries == r.1.entries[..|t.entries|] == t.entries;
      } else {
        assert r.1.entries == t.entries + [c];
      }
    } else {
      assert refs + [] == refs;
    }
  }
}
