/** The decoded `.locres` container as `apply` in
    translations/build_game_locres.py walks it: a sequence of namespaces,
    each with an optional name and an array of mutable entry objects, and
    the nested loop that writes translations into those entries in place. */
module Locres {
  import opened Wrappers
  import opened Hex
  import opened StableId
  import opened Merge

  /** One decoded entry. The merge writes only `translation`. */
  class Entry {
    var key: string
    var hash: u32
    var translation: string

    constructor (key: string, hash: u32, translation: string)
      ensures this.key == key && this.hash == hash && this.translation == translation
    {
      this.key := key;
      this.hash := hash;
      this.translation := translation;
    }
  }

  /** One decoded namespace: its name (`None` in some files) and its
      entries in file order. */
  datatype Namespace = Namespace(name: Option<string>, entries: array<Entry>)

  /** The arrays of the container's namespaces. */
  function Arrays(loc: seq<Namespace>): set<array<Entry>>
  {
    set i | 0 <= i < |loc| :: loc[i].entries
  }

  /** Every entry object of the container. */
  ghost function Objects(loc: seq<Namespace>): set<Entry>
    reads Arrays(loc)
  {
    set i, j | 0 <= i < |loc| && 0 <= j < loc[i].entries.Length :: loc[i].entries[j]
  }

  /** No entry object sits at two positions of the container, as is the
      case for a freshly decoded file. */
  ghost predicate Distinct(loc: seq<Namespace>)
    reads Arrays(loc)
  {
    forall i, j, i', j' ::
      (0 <= i < |loc| && 0 <= j < loc[i].entries.Length &&
       0 <= i' < |loc| && 0 <= j' < loc[i'].entries.Length &&
       loc[i].entries[j] == loc[i'].entries[j']) ==> i == i' && j == j'
  }

  ghost function EntryView(e: Entry): EntryValue
    reads e
  {
    EntryValue(e.key, e.hash, e.translation)
  }

  ghost function NamespaceView(ns: Namespace): NamespaceValue
    reads ns.entries, ns.entries[..]
  {
    NamespaceValue(ns.name, seq(ns.entries.Length, j requires 0 <= j < ns.entries.Length reads ns.entries, ns.entries[..] => EntryView(ns.entries[j])))
  }

  /** The container as a value. */
  ghost function View(loc: seq<Namespace>): (c: seq<NamespaceValue>)
    reads Arrays(loc), Objects(loc)
  {
    seq(|loc|, i requires 0 <= i < |loc| reads Arrays(loc), Objects(loc) => NamespaceView(loc[i]))
  }

  lemma NamespaceIs(ns: Namespace, v: NamespaceValue)
    requires ns.name == v.name && ns.entries.Length == |v.entries|
    requires forall b :: 0 <= b < ns.entries.Length ==> EntryView(ns.entries[b]) == v.entries[b]
    ensures NamespaceView(ns) == v
  {
    assert NamespaceView(ns).entries == v.entries;
  }

  lemma ViewIs(loc: seq<Namespace>, c: seq<NamespaceValue>)
    requires |c| == |loc| && forall a :: 0 <= a < |loc| ==> NamespaceView(loc[a]) == c[a]
    ensures View(loc) == c
  {
  }

  /** The merge loop of `apply`: visits every entry of every namespace in
      order, writes the table's text into the entries whose identifier it
      finds, and counts entries, updates and misses. Afterwards the
      container is `Merged` of what it was, and the counters are
      `MergeReport` of it. */
  method Apply(strings: map<string, string>, loc: seq<Namespace>) returns (report: Report)
    requires Distinct(loc)
    modifies Objects(loc)`translation
    ensures View(loc) == Merged(strings, old(View(loc)))
    ensures report == MergeReport(strings, old(View(loc)))
  {
    ghost var c := View(loc);
    var totalEntries, updated, missing := 0, 0, 0;
    for i := 0 to |loc|
      invariant forall a :: 0 <= a < i ==> NamespaceView(loc[a]) == MergeNamespace(strings, c[a])
      invariant forall a :: i <= a < |loc| ==> NamespaceView(loc[a]) == c[a]
      invariant totalEntries == TotalEntries(c[..i])
      invariant updated == Count(strings, c[..i], true)
      invariant missing == Count(strings, c[..i], false)
    {
      totalEntries, updated, missing := VisitNamespace(strings, loc, i, totalEntries, updated, missing, c[i]);
      CountStep(strings, c, i);
    }
    assert c[..|loc|] == c;
    ViewIs(loc, Merged(strings, c));
    report := Report(totalEntries, updated, missing);
  }

  /** `ids` are the identifiers `apply` derives, under namespace name
      `nsName`, for the entries of `v`. */
  ghost predicate IdsOf(nsName: string, v: NamespaceValue, ids: seq<string>)
  {
    && |ids| == |v.entries|
    && forall b {:trigger MakeId(nsName, v.entries[b].key, v.entries[b].hash)} ::
         0 <= b < |ids| ==> ids[b] == MakeId(nsName, v.entries[b].key, v.entries[b].hash)
  }

  /** The body of the inner loop for entry `j`: derive its identifier and,
      when the table has it, overwrite the entry's translation. Reports
      whether the table had it. */
  method ApplyEntry(strings: map<string, string>, entry: Entry, nsName: string,
                    ghost v: NamespaceValue, ghost ids: seq<string>, ghost j: nat)
    returns (hit: bool)
    requires IdsOf(nsName, v, ids) && j < |ids| && EntryView(entry) == v.entries[j]
    modifies entry`translation
    ensures hit == (ids[j] in strings)
    ensures EntryView(entry) == MergeEntry(strings, ids[j], v.entries[j])
  {
    var tid := MakeId(nsName, entry.key, entry.hash);
    assert tid == ids[j];
    hit := tid in strings;
    if hit {
      entry.translation := strings[tid];
    }
  }

  /** One pass of the outer loop of `apply`: `namespace.name or ""`, then
      the inner loop over the entries of namespace `i`. The other
      namespaces share no entry object with it and stay as they were. */
  method VisitNamespace(strings: map<string, string>, loc: seq<Namespace>, i: nat,
                        totalEntries: nat, updated: nat, missing: nat, ghost v: NamespaceValue)
    returns (totalEntries': nat, updated': nat, missing': nat)
    requires i < |loc| && Distinct(loc) && NamespaceView(loc[i]) == v
    modifies loc[i].entries[..]`translation
    ensures NamespaceView(loc[i]) == MergeNamespace(strings, v)
    ensures forall a :: 0 <= a < |loc| && a != i ==> NamespaceView(loc[a]) == old(NamespaceView(loc[a]))
    ensures totalEntries' == totalEntries + |v.entries|
    ensures updated' == updated + Hits(strings, Ids(v), |v.entries|, true)
    ensures missing' == missing + Hits(strings, Ids(v), |v.entries|, false)
  {
    var namespace := loc[i];
    var nsName := NameOrEmpty(namespace.name);
    IdsSpec(v);
    assert IdsOf(nsName, v, Ids(v));
    totalEntries', updated', missing' := ApplyNamespace(strings, namespace, nsName, totalEntries, updated, missing, v, Ids(v));
    forall a | 0 <= a < |loc| && a != i ensures NamespaceView(loc[a]) == old(NamespaceView(loc[a])) {
      assert NamespaceView(loc[a]).entries == old(NamespaceView(loc[a])).entries;
    }
  }

  /** The inner loop of `apply`, over the entries of one namespace: bumps
      the three counters and merges each entry in turn. `v` is the
      namespace before the loop and `ids` its entries' identifiers. */
  method ApplyNamespace(strings: map<string, string>, namespace: Namespace, nsName: string,
                        totalEntries: nat, updated: nat, missing: nat,
                        ghost v: NamespaceValue, ghost ids: seq<string>)
    returns (totalEntries': nat, updated': nat, missing': nat)
    requires forall b, b' :: 0 <= b < namespace.entries.Length && 0 <= b' < namespace.entries.Length && b != b' ==>
               namespace.entries[b] != namespace.entries[b']
    requires namespace.name == v.name && namespace.entries.Length == |v.entries|
    requires forall b :: 0 <= b < namespace.entries.Length ==> EntryView(namespace.entries[b]) == v.entries[b]
    requires IdsOf(nsName, v, ids)
    modifies namespace.entries[..]`translation
    ensures NamespaceView(namespace) == MergeWith(strings, ids, v)
    ensures totalEntries' == totalEntries + |ids|
    ensures updated' == updated + Hits(strings, ids, |ids|, true)
    ensures missing' == missing + Hits(strings, ids, |ids|, false)
  {
    var entries := namespace.entries;
    totalEntries', updated', missing' := totalEntries, updated, missing;
    for j := 0 to entries.Length
      invariant forall b :: 0 <= b < entries.Length ==>
                  EntryView(entries[b]) == if b < j then MergeEntry(strings, ids[b], v.entries[b]) else v.entries[b]
      invariant totalEntries' == totalEntries + j
      invariant updated' == updated + Hits(strings, ids, j, true)
      invariant missing' == missing + Hits(strings, ids, j, false)
    {
      totalEntries' := totalEntries' + 1;
      var hit := ApplyEntry(strings, entries[j], nsName, v, ids, j);
      if hit {
        updated' := updated' + 1;
      } else {
        missing' := missing' + 1;
      }
    }
    NamespaceIs(namespace, MergeWith(strings, ids, v));
  }
}
