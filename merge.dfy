/** What the merge loop of `apply` in translations/build_game_locres.py does
    to a decoded `.locres` container, stated over plain values: every entry
    whose stable identifier is in the translation table gets the table's
    text, every other entry keeps its own, and three counters record how
    many entries there were, how many were updated and how many had no
    translation. The in-place loop itself is `Locres.Apply`. */
module Merge {
  import opened Wrappers
  import opened Text
  import opened Hex
  import opened StableId
  import StringTable

  /** One entry of a namespace: its key, its 32-bit content hash and the
      text the game shows for it. */
  datatype EntryValue = EntryValue(key: string, hash: u32, translation: string)

  /** A namespace: its name (absent in some files) and its entries, in
      file order. */
  datatype NamespaceValue = NamespaceValue(name: Option<string>, entries: seq<EntryValue>)

  /** The counters `apply` returns: `total_entries`, `updated`, `missing`. */
  datatype Report = Report(total: nat, updated: nat, missing: nat)

  /** `namespace.name or ""`. */
  function NameOrEmpty(name: Option<string>): string
  {
    if name.Some? then name.value else ""
  }

  /** The identifier `apply` looks up for an entry of a namespace. */
  function EntryId(ns: NamespaceValue, e: EntryValue): string
  {
    MakeId(NameOrEmpty(ns.name), e.key, e.hash)
  }

  /** The identifiers of a namespace's entries, in file order. */
  function Ids(ns: NamespaceValue): seq<string>
  {
    seq(|ns.entries|, j requires 0 <= j < |ns.entries| => EntryId(ns, ns.entries[j]))
  }

  /** The identifiers of a namespace, spelled out through `MakeId`. */
  lemma IdsSpec(ns: NamespaceValue)
    ensures |Ids(ns)| == |ns.entries|
    ensures forall b {:trigger MakeId(NameOrEmpty(ns.name), ns.entries[b].key, ns.entries[b].hash)} ::
              0 <= b < |ns.entries| ==> Ids(ns)[b] == MakeId(NameOrEmpty(ns.name), ns.entries[b].key, ns.entries[b].hash)
  {
  }

  /** An entry after the lookup of its identifier `id`. */
  function MergeEntry(strings: map<string, string>, id: string, e: EntryValue): EntryValue
  {
    if id in strings then e.(translation := strings[id]) else e
  }

  /** A namespace after looking up `ids[j]` for its `j`-th entry. */
  function MergeWith(strings: map<string, string>, ids: seq<string>, ns: NamespaceValue): NamespaceValue
    requires |ids| == |ns.entries|
  {
    ns.(entries := seq(|ns.entries|, j requires 0 <= j < |ns.entries| => MergeEntry(strings, ids[j], ns.entries[j])))
  }

  function MergeNamespace(strings: map<string, string>, ns: NamespaceValue): NamespaceValue
  {
    MergeWith(strings, Ids(ns), ns)
  }

  /** The container after the merge. */
  function Merged(strings: map<string, string>, c: seq<NamespaceValue>): seq<NamespaceValue>
  {
    seq(|c|, i requires 0 <= i < |c| => MergeNamespace(strings, c[i]))
  }

  /** Namespaces and entries keep their number, their order, their names,
      keys and hashes; an entry whose identifier is in the table carries
      the table's text, any other entry its old text. */
  lemma MergedSpec(strings: map<string, string>, c: seq<NamespaceValue>)
    ensures |Merged(strings, c)| == |c|
    ensures forall i :: 0 <= i < |c| ==>
              Merged(strings, c)[i].name == c[i].name && |Merged(strings, c)[i].entries| == |c[i].entries|
    ensures forall i, j :: 0 <= i < |c| && 0 <= j < |c[i].entries| ==>
              && Merged(strings, c)[i].entries[j].key == c[i].entries[j].key
              && Merged(strings, c)[i].entries[j].hash == c[i].entries[j].hash
              && Merged(strings, c)[i].entries[j].translation ==
                   (if EntryId(c[i], c[i].entries[j]) in strings
                    then strings[EntryId(c[i], c[i].entries[j])]
                    else c[i].entries[j].translation)
  {
  }

  /** The number of entries in the container. */
  function TotalEntries(c: seq<NamespaceValue>): nat
  {
    if c == [] then 0 else TotalEntries(c[..|c| - 1]) + |c[|c| - 1].entries|
  }

  /** How many of the first `n` identifiers are (`found`) or are not
      (`!found`) keys of the table. */
  function Hits(strings: map<string, string>, ids: seq<string>, n: nat, found: bool): nat
    requires n <= |ids|
  {
    if n == 0 then 0
    else Hits(strings, ids, n - 1, found) + (if (ids[n - 1] in strings) == found then 1 else 0)
  }

  /** How many entries of the container have an identifier that is
      (`found`) or is not (`!found`) a key of the table. */
  function Count(strings: map<string, string>, c: seq<NamespaceValue>, found: bool): nat
  {
    if c == [] then 0
    else Count(strings, c[..|c| - 1], found) + Hits(strings, Ids(c[|c| - 1]), |c[|c| - 1].entries|, found)
  }

  /** The counters a merge reports. */
  function MergeReport(strings: map<string, string>, c: seq<NamespaceValue>): Report
  {
    Report(TotalEntries(c), Count(strings, c, true), Count(strings, c, false))
  }

  /** One more namespace, in the order the merge loop visits them. */
  lemma CountStep(strings: map<string, string>, c: seq<NamespaceValue>, i: nat)
    requires i < |c|
    ensures TotalEntries(c[..i + 1]) == TotalEntries(c[..i]) + |c[i].entries|
    ensures forall found :: Count(strings, c[..i + 1], found) ==
              Count(strings, c[..i], found) + Hits(strings, Ids(c[i]), |c[i].entries|, found)
  {
    assert c[..i + 1][..i] == c[..i];
  }

  lemma {:induction false} HitsSplit(strings: map<string, string>, ids: seq<string>, n: nat)
    requires n <= |ids|
    ensures Hits(strings, ids, n, true) + Hits(strings, ids, n, false) == n
  {
    if n > 0 {
      HitsSplit(strings, ids, n - 1);
    }
  }

  /** Every entry is counted once: `total_entries == updated + missing`,
      and the total is the number of entries over all namespaces. */
  lemma {:induction false} ReportBalanced(strings: map<string, string>, c: seq<NamespaceValue>)
    ensures MergeReport(strings, c).total == MergeReport(strings, c).updated + MergeReport(strings, c).missing
  {
    if c != [] {
      ReportBalanced(strings, c[..|c| - 1]);
      HitsSplit(strings, Ids(c[|c| - 1]), |c[|c| - 1].entries|);
    }
  }

  /** Identifiers depend only on the namespace name, the keys and the
      hashes, none of which the merge changes. */
  lemma IdsOfSameKeys(ns: NamespaceValue, ns': NamespaceValue)
    requires ns.name == ns'.name && |ns.entries| == |ns'.entries|
    requires forall j :: 0 <= j < |ns.entries| ==>
               ns.entries[j].key == ns'.entries[j].key && ns.entries[j].hash == ns'.entries[j].hash
    ensures Ids(ns) == Ids(ns')
  {
    forall j | 0 <= j < |ns.entries| ensures Ids(ns)[j] == Ids(ns')[j] {
      assert ns.entries[j].key == ns'.entries[j].key && ns.entries[j].hash == ns'.entries[j].hash;
    }
  }

  /** Two containers whose namespaces, position by position, look up the
      same identifiers. */
  predicate SameIds(c: seq<NamespaceValue>, d: seq<NamespaceValue>)
  {
    |c| == |d| && forall i :: 0 <= i < |c| ==> Ids(c[i]) == Ids(d[i])
  }

  lemma {:induction false} CountSameIds(strings: map<string, string>, c: seq<NamespaceValue>, d: seq<NamespaceValue>, found: bool)
    requires SameIds(c, d)
    ensures Count(strings, c, found) == Count(strings, d, found)
    ensures TotalEntries(c) == TotalEntries(d)
  {
    if c != [] {
      var n := |c| - 1;
      assert SameIds(c[..n], d[..n]) by {
        forall i | 0 <= i < n ensures Ids(c[..n][i]) == Ids(d[..n][i]) {
          assert c[..n][i] == c[i] && d[..n][i] == d[i];
        }
      }
      CountSameIds(strings, c[..n], d[..n], found);
      assert Ids(c[n]) == Ids(d[n]);
    }
  }

  /** The counters depend only on the identifiers looked up. */
  lemma ReportSameIds(strings: map<string, string>, c: seq<NamespaceValue>, d: seq<NamespaceValue>)
    requires SameIds(c, d)
    ensures MergeReport(strings, c) == MergeReport(strings, d)
  {
    CountSameIds(strings, c, d, true);
    CountSameIds(strings, c, d, false);
  }

  /** Merging the same table a second time changes nothing and reports the
      same counts: identifiers depend only on what the merge leaves alone. */
  lemma MergeIdempotent(strings: map<string, string>, c: seq<NamespaceValue>)
    ensures Merged(strings, Merged(strings, c)) == Merged(strings, c)
    ensures MergeReport(strings, Merged(strings, c)) == MergeReport(strings, c)
  {
    var m := Merged(strings, c);
    var mm := Merged(strings, m);
    forall i | 0 <= i < |c| ensures mm[i] == m[i] && Ids(m[i]) == Ids(c[i]) {
      IdsOfSameKeys(m[i], c[i]);
      assert mm[i].entries == m[i].entries;
    }
    ReportSameIds(strings, m, c);
  }

  lemma {:induction false} HitsEmpty(ids: seq<string>, n: nat)
    requires n <= |ids|
    ensures Hits(map[], ids, n, true) == 0
  {
    if n > 0 {
      HitsEmpty(ids, n - 1);
    }
  }

  /** Merging an empty table changes nothing: no entry is updated and every
      entry counts as missing. */
  lemma {:induction false} MergeEmptyTable(c: seq<NamespaceValue>)
    ensures Merged(map[], c) == c
    ensures MergeReport(map[], c) == Report(TotalEntries(c), 0, TotalEntries(c))
  {
    var m := Merged(map[], c);
    forall i | 0 <= i < |c| ensures m[i] == c[i] {
      assert m[i].entries == c[i].entries;
    }
    if c != [] {
      MergeEmptyTable(c[..|c| - 1]);
      HitsEmpty(Ids(c[|c| - 1]), |c[|c| - 1].entries|);
    }
    ReportBalanced(map[], c);
  }

  /** With a table built by `load_strings`, every entry whose identifier
      the table has ends up with non-empty, stripped text, and every other
      entry keeps its own. */
  lemma MergedTextFromTable(rows: seq<StringTable.Row>, c: seq<NamespaceValue>)
    ensures forall i, j :: 0 <= i < |c| && 0 <= j < |c[i].entries| ==>
              var t := Merged(StringTable.Table(rows), c)[i].entries[j].translation;
              && (EntryId(c[i], c[i].entries[j]) in StringTable.Table(rows) ==> t != "" && IsStripped(t))
              && (EntryId(c[i], c[i].entries[j]) !in StringTable.Table(rows) ==> t == c[i].entries[j].translation)
  {
    StringTable.TableClean(rows);
  }
}
