# Game.locres rebuild: stable identifiers, translation table and merge

This project models the core of `translations/build_game_locres.py`, the
script that rebuilds the game's `Game.locres` localisation container with
Russian text:

- `_make_id` derives the stable identifier of an entry from its namespace
  name, its key and its 32-bit content hash (`StableId.MakeId`, on top of
  Python's `str.strip`/`str.join` in `Text` and the `08X` format in `Hex`);
- `load_strings` checks that the translators' CSV has the columns `id`,
  `english` and `russian` and folds its rows into a map from stable
  identifier to Russian text (`StringTable.LoadStrings`, specified by
  `StringTable.Load`/`StringTable.Table`);
- `apply` walks every entry of every namespace of the decoded container,
  writes the table's text into the entries whose identifier the table has,
  and counts entries, updates and misses (`Locres.Apply`, an in-place loop
  over arrays of mutable `Locres.Entry` objects, specified by the value-level
  `Merge.Merged` and `Merge.MergeReport`).

Modules: `Wrappers` (Option, Result), `Text`, `Hex`, `StableId`,
`StringTable`, `Merge` (the merge stated over values, with its lemmas) and
`Locres` (the container as objects, and the loop).

Three behaviours of the script worth noting, all modelled as written:

- when both the stripped namespace and the stripped key are empty, the
  identifier is `HHHHHHHH#HHHHHHHH` (the hash twice), not the bare hash;
- the merge overwrites an entry whenever its identifier is a key of the
  table; it does not itself test the text for emptiness. Empty texts never
  reach the table because `load_strings` drops them
  (`Merge.MergedTextFromTable`);
- there is no check that rejects an absent table; the script's table is
  always a map, possibly empty (`Merge.MergeEmptyTable`).

## Model

| member | source | states |
|---|---|---|
| Text.Strip | translations/build_game_locres.py:14 | `str.strip()` with no argument, as `TrimEnd(TrimStart(s))`; no contract of its own, its meaning is StripSpec |
| Text.StripSpec | translations/build_game_locres.py:14 | `strip()` removes only whitespace, from both ends, and leaves no whitespace at either end |
| Text.StripEmptyIff | translations/build_game_locres.py:14 | a part is dropped from the identifier exactly when it is all whitespace |
| Text.StripIdempotent | translations/build_game_locres.py:14 | stripping twice is stripping once |
| Hex.Hex8 | translations/build_game_locres.py:16 | the `08X` rendering of a 32-bit hash is eight hex digits |
| Hex.Hex8RoundTrip | translations/build_game_locres.py:16 | the eight digits read back as the hash |
| Hex.Hex8Injective | translations/build_game_locres.py:16 | different hashes render differently |
| Hex.Hex8Example | translations/build_game_locres.py:16 | 0xABCD1234 renders as `ABCD1234` |
| StableId.MakeId | translations/build_game_locres.py:13-16 | `_make_id`, written as lines 14-16 compute it (parts list, join, fallbacks); no contract of its own, its four cases are MakeIdCases |
| StableId.MakeIdCases | translations/build_game_locres.py:13-16 | the identifier is `ns/key`, `ns`, `key` or the hex hash, by which stripped parts are empty, followed by `#` and the hex hash |
| StableId.MakeIdSuffix | translations/build_game_locres.py:15-16 | every identifier ends in `#` and eight upper-case hex digits that read back as the hash |
| StableId.MakeIdSeparatesHashes | translations/build_game_locres.py:16 | two entries with different hashes never share an identifier |
| StableId.MakeIdIgnoresPadding | translations/build_game_locres.py:14-15 | whitespace around namespace or key does not change the identifier |
| StableId.MakeIdExample | translations/build_game_locres.py:13-16 | namespace `UI`, key `Title`, hash 0xABCD1234 give `UI/Title#ABCD1234` |
| StringTable.Absent | translations/build_game_locres.py:23-24 | the absent columns are exactly the required ones not in the header (all of them for an empty file), in sorted order |
| StringTable.LoadStrings | translations/build_game_locres.py:19-32 | the column check then the row loop return exactly `Load` of header and rows |
| StringTable.LoadFailsIffColumnAbsent | translations/build_game_locres.py:23-26 | loading fails exactly when a required column is absent, and the error names every absent column |
| StringTable.Table | translations/build_game_locres.py:27-31 | the map the row loop builds, one row at a time; no contract of its own, it is pinned down by TableKeys and TableLastWins |
| StringTable.TableClean | translations/build_game_locres.py:27-31 | every key and every value of the table is non-empty and stripped |
| StringTable.TableKeys | translations/build_game_locres.py:27-31 | the table's keys are exactly the stripped ids of the rows whose id and Russian text are both non-empty |
| StringTable.TableLastWins | translations/build_game_locres.py:27-31 | for a repeated id the last kept row's text wins |
| Merge.EntryId | translations/build_game_locres.py:43-46 | the identifier looked up for an entry: `_make_id(namespace.name or "", entry.key, entry.hash)`; no contract of its own |
| Merge.Merged | translations/build_game_locres.py:42-51 | the container after the merge loop; no contract of its own, its meaning is MergedSpec |
| Merge.MergeReport | translations/build_game_locres.py:38-51 | the three counters the loop returns; no contract of its own, related by ReportBalanced, ReportSameIds and MergeEmptyTable |
| Merge.MergedSpec | translations/build_game_locres.py:42-51 | the merge keeps namespaces, entries, order, names, keys and hashes; an entry whose identifier is in the table gets the table's text, every other entry keeps its own |
| Merge.ReportBalanced | translations/build_game_locres.py:38-51 | `total_entries == updated + missing` |
| Merge.IdsOfSameKeys | translations/build_game_locres.py:46 | identifiers depend only on the namespace name, the key and the hash |
| Merge.ReportSameIds | translations/build_game_locres.py:38-51 | the counters depend only on the identifiers looked up |
| Merge.MergeIdempotent | translations/build_game_locres.py:42-51 | merging the same table a second time changes nothing and reports the same counts |
| Merge.MergeEmptyTable | translations/build_game_locres.py:42-51 | an empty table changes nothing, updates nothing and counts every entry as missing |
| Merge.MergedTextFromTable | translations/build_game_locres.py:27-31 | with a table from `load_strings`, an entry whose identifier is in the table ends up with non-empty stripped text, and any other entry keeps its own |
| Locres.Entry.constructor | translations/build_game_locres.py:44 | an entry holds a key, a hash and a translation |
| Locres.Apply | translations/build_game_locres.py:38-51 | the nested loop leaves the container equal to `Merged` of its old value and returns `MergeReport` of it, writing only translations |
| Locres.VisitNamespace | translations/build_game_locres.py:42-51 | one outer pass merges namespace `i`, leaves every other namespace as it was and advances the counters by that namespace's entries, hits and misses |
| Locres.ApplyNamespace | translations/build_game_locres.py:44-51 | the inner loop merges every entry of one namespace and advances the counters |
| Locres.ApplyEntry | translations/build_game_locres.py:45-51 | one entry: its translation becomes the table's text exactly when its identifier is in the table, and the hit is reported |

## Left out

- Reading and writing the `.locres` file (`LocresFile.read`/`write`, lines 36-37 and 54): the binary codec belongs to the `pylocres` library; the model starts from the decoded namespaces and entries.
- Opening the CSV file and tokenising it (lines 21-22): the header arrives as an optional list of column names and each row as a map from column to optional cell, as `csv.DictReader` yields them.
- Creating the output directory (line 53), argument parsing and printing in `main` (lines 58-89): I/O only.
- tools/pack.py is not part of this model: it drives an external packer.
- StringTable.LoadStrings: `raise SystemExit` with its message is modelled as a `Failure(MissingColumns(...))` carrying the sorted absent columns; the file path in the message is not modelled.
- Locres.Apply: requires that no entry object sits at two places of the container, as after decoding; what the loop does to a container whose entries alias each other is not modelled.
- Text.IsSpace: Python's `str.isspace` is written out as the fixed list of code points it accepts; no Unicode database is consulted.
