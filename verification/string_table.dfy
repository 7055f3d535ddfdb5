/** The string interning of the Firefox Profiler reporters (`string_id`
    and `build_string_table` in `lib/pf2/reporter.rb`,
    `lib/pf2/reporter/firefox_profiler.rb` and
    `lib/pf2/reporter/firefox_profiler_ser2.rb`, which are identical). The
    table is a Ruby hash from string to id, kept here as its entries in
    insertion order. Any value can be interned (the reporters also intern
    `nil`). */
module StringTable {
  import opened Wrappers

  type Table<T> = seq<(T, nat)>

  /** The key of every entry, in order; for any list of key/value entries,
      such as a table or a frames hash. */
  function Keys<K, V>(t: seq<(K, V)>): (keys: seq<K>)
    ensures |keys| == |t| && forall i :: 0 <= i < |t| ==> keys[i] == t[i].0
  {
    seq(|t|, i requires 0 <= i < |t| => t[i].0)
  }

  /** A table built only by `string_id`: distinct keys, and each entry's id
      is its position. */
  predicate Interned<T(==)>(t: Table<T>) {
    && (forall i :: 0 <= i < |t| ==> t[i].1 == i)
    && (forall i, j :: 0 <= i < j < |t| ==> t[i].0 != t[j].0)
  }

  /** The id stored for `s`, if any (`@string_table[str]`). */
  function Lookup<T(==)>(t: Table<T>, s: T): (r: Option<nat>)
    ensures r.None? <==> s !in Keys(t)
    ensures r.Some? ==> exists i :: 0 <= i < |t| && t[i] == (s, r.value)
  {
    if |t| == 0 then None
    else if t[|t| - 1].0 == s then Some(t[|t| - 1].1)
    else
      var r := Lookup(t[..|t| - 1], s);
      assert Keys(t) == Keys(t[..|t| - 1]) + [t[|t| - 1].0];
      r
  }

  /** `string_id`: the stored id of a known string; otherwise the string is
      stored with the table's length as its id. */
  function StringId<T(==)>(t: Table<T>, s: T): (r: (Table<T>, nat))
    requires Interned(t)
    ensures Interned(r.0)
    ensures s in Keys(t) ==> r.0 == t
    ensures s !in Keys(t) ==> r.0 == t + [(s, |t|)] && r.1 == |t|
    ensures r.1 < |r.0| && r.0[r.1].0 == s
  {
    match Lookup(t, s)
    case Some(id) => (t, id)
    case None => (t + [(s, |t|)], |t|)
  }

  /** `t2` is `t1` with entries appended: what interning more strings does
      to a table. */
  predicate Extends<T(==)>(t1: Table<T>, t2: Table<T>) {
    |t1| <= |t2| && forall i :: 0 <= i < |t1| ==> t2[i] == t1[i]
  }

  /** `build_string_table`: the keys sorted by id. */
  function BuildStringTable<T>(t: Table<T>): seq<T> {
    Keys(SortById(t))
  }

  /** `sort_by {|_, v| v}`, as an insertion sort on the ids. */
  function SortById<T>(t: Table<T>): (r: Table<T>)
    ensures |r| == |t|
    decreases |t|
  {
    if |t| == 0 then [] else InsertById(SortById(t[..|t| - 1]), t[|t| - 1])
  }

  function InsertById<T>(sorted: Table<T>, e: (T, nat)): (r: Table<T>)
    ensures |r| == |sorted| + 1
    decreases |sorted|
  {
    if |sorted| == 0 || sorted[|sorted| - 1].1 <= e.1 then sorted + [e]
    else InsertById(sorted[..|sorted| - 1], e) + [sorted[|sorted| - 1]]
  }

  /** The ids of an interned table are already in order, so sorting keeps
      it as it is. */
  lemma {:induction false} SortInterned<T>(t: Table<T>)
    requires forall i :: 0 <= i < |t| ==> t[i].1 == i
    ensures SortById(t) == t
    decreases |t|
  {
    if |t| > 0 {
      SortInterned(t[..|t| - 1]);
      assert t[..|t| - 1] + [t[|t| - 1]] == t;
    }
  }

  /** Ids are dense and follow first use: the string table lists every
      interned string at its id, and nothing else. */
  lemma StringIdInStringTable<T>(t: Table<T>, s: T)
    requires Interned(t)
    ensures var (t', id) := StringId(t, s);
      && BuildStringTable(t') == Keys(t')
      && |BuildStringTable(t')| == |t'| && BuildStringTable(t')[id] == s
  {
    SortInterned(StringId(t, s).0);
  }

  /** Asking again for an interned string changes nothing and gives the
      same id. */
  lemma StringIdIdempotent<T>(t: Table<T>, s: T)
    requires Interned(t)
    ensures var (t', id) := StringId(t, s); StringId(t', s) == (t', id)
  {
    var (t', id) := StringId(t, s);
    var r := Lookup(t', s);
    assert r.Some?;
    var i :| 0 <= i < |t'| && t'[i] == (s, r.value);
    assert i == id;
  }

  /** Interning strings one after another, collecting their ids. */
  function InternAll<T(==)>(t: Table<T>, xs: seq<T>): (r: (Table<T>, seq<nat>))
    requires Interned(t)
    ensures Interned(r.0) && |r.1| == |xs|
    ensures Extends(t, r.0)
    ensures forall i :: 0 <= i < |xs| ==> r.1[i] < |r.0| && r.0[r.1[i]].0 == xs[i]
    decreases |xs|
  {
    if |xs| == 0 then (t, [])
    else
      var (t1, id) := StringId(t, xs[0]);
      var (t2, ids) := InternAll(t1, xs[1..]);
      (t2, [id] + ids)
  }

  /** Starting from an empty table, every interned string gets an id, and
      equal strings get equal ids. */
  lemma {:induction false} InternAllConsistent<T>(xs: seq<T>)
    ensures var (t, ids) := InternAll([], xs);
      && (forall i :: 0 <= i < |xs| ==> BuildStringTable(t)[ids[i]] == xs[i])
      && (forall i, j :: 0 <= i < |xs| && 0 <= j < |xs| ==> (ids[i] == ids[j] <==> xs[i] == xs[j]))
  {
    var (t, ids) := InternAll([], xs);
    SortInterned(t);
  }
}
