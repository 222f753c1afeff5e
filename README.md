# ModListExporter, modelled in Dafny

ModListExporter is a small NeoForge mod. When the host fires its common-setup
event, the mod starts a thread that writes the list of loaded mods to a JSON
file that external tools read. The list is built as follows:

1. Drop every mod whose id is in the configured hidden-id list.
2. Turn each remaining mod into a record `{id, name, version, summary}`. The
   summary is the mod's description with both ends trimmed.
3. Sort the records by display name with `String.compareToIgnoreCase`.

The list is then serialised to a temporary file. That file's name comes from a
random UUID. Finally it is moved onto the configured output path with
`REPLACE_EXISTING`, and with `ATOMIC_MOVE` as well when the atomic-move setting
is on.

This project models the collector (steps 1–3) and the two decisions the writer
makes before it touches the file system: the temporary file name and the move
options. It proves that:

- the output omits exactly the hidden mods, and the filter keeps the host's order;
- the output is a permutation of the visible mods' records;
- the output is sorted by name, ignoring case;
- the sort is stable;
- any stable sort by this key gives the same list;
- the comparator is a total preorder;
- `trim` is characterised exactly and is idempotent;
- the temporary name's shape, its length, and its injectivity on UUID texts;
- which move options are chosen.

Files, one module each:

- `JavaStrings.dfy` models the `java.lang.String` operations the code relies on: `trim`,
  `compareToIgnoreCase`, `toLowerCase(Locale.ROOT)` and `replace("-", "")`.
- `Records.dfy` has the host's mod description (`HostMod`), the exported `ModInfo` and
  `JsonModList` records, and the `ModInfo(IModInfo)` constructor.
- `NameSort.dfy` has the comparator and a stable insertion sort by name. It also holds the
  lemmas for sortedness, stability and uniqueness.
- `Collector.dfy` has the filter and `gatherModList`.
- `Writer.dfy` has the temporary file name and the move options.

`gatherModList` is a stream pipeline, so it is modelled as pure functions. Its own
contract states the permutation; its other properties are lemmas about `Collector.GatherModList`. The options list is built
by appending to an `ArrayList`, so `Writer.MoveOptions` is a method that
appends to a local sequence.

## Model

| member | source | states |
|---|---|---|
| `JavaStrings.StripLeading` | src/main/java/com/amadornes/modlistexporter/ModListExporter.java:89 | the result is a suffix of the input; everything removed is ≤ U+0020; the result is empty or starts with a character > U+0020 |
| `JavaStrings.StripTrailing` | src/main/java/com/amadornes/modlistexporter/ModListExporter.java:89 | the result is a prefix of the input; everything removed is ≤ U+0020; the result is empty or ends with a character > U+0020 |
| `JavaStrings.Trim` | src/main/java/com/amadornes/modlistexporter/ModListExporter.java:89 | the trimmed description neither starts nor ends with a character ≤ U+0020, and the description is that result padded on both sides with such characters only |
| `JavaStrings.TrimUnique` | src/main/java/com/amadornes/modlistexporter/ModListExporter.java:89 | the two postconditions of `Trim` determine its result: any trimmed string that the input pads with strippable characters equals `Trim` of the input |
| `JavaStrings.TrimIdempotent` | src/main/java/com/amadornes/modlistexporter/ModListExporter.java:89 | trimming a trimmed string changes nothing |
| `JavaStrings.ToUpperChar` | src/main/java/com/amadornes/modlistexporter/ModListExporter.java:64 | the upper-case mapping the comparator applies first turns each lower-case letter into its own upper-case partner (32 code points lower), leaves no lower-case letter and changes nothing else |
| `JavaStrings.ToLowerChar` | src/main/java/com/amadornes/modlistexporter/ModListExporter.java:64 | the lower-case mapping turns each upper-case letter into its own lower-case partner (32 code points higher), leaves no upper-case letter and changes nothing else |
| `JavaStrings.FoldCase` | src/main/java/com/amadornes/modlistexporter/ModListExporter.java:64 | the character the comparator compares (upper-cased, then lower-cased) is never an upper-case letter, and it equals the plain lower-case mapping |
| `JavaStrings.CompareIgnoreCase` | src/main/java/com/amadornes/modlistexporter/ModListExporter.java:64 | the comparator gives 0 only for names of equal length |
| `JavaStrings.FoldStringIsLowerCase` | src/main/java/com/amadornes/modlistexporter/ModListExporter.java:64 | the case-folded name the comparator works on is the lower-cased name |
| `JavaStrings.CompareIgnoresCase` | src/main/java/com/amadornes/modlistexporter/ModListExporter.java:64 | two names that differ only in letter case compare equal |
| `JavaStrings.CompareFirstDifference` | src/main/java/com/amadornes/modlistexporter/ModListExporter.java:64 | the comparator orders names lexicographically by folded characters: the result is the difference of the folded characters at the first position where they differ, or the difference of the lengths when one name is a folded prefix of the other |
| `JavaStrings.CompareReflexive` | src/main/java/com/amadornes/modlistexporter/ModListExporter.java:64 | every name compares equal to itself |
| `JavaStrings.CompareAntisymmetric` | src/main/java/com/amadornes/modlistexporter/ModListExporter.java:64 | swapping the arguments negates the result |
| `JavaStrings.CompareZeroIffSameFold` | src/main/java/com/amadornes/modlistexporter/ModListExporter.java:64 | two names compare equal exactly when their case-folded forms are equal |
| `JavaStrings.CompareTransitive` | src/main/java/com/amadornes/modlistexporter/ModListExporter.java:64 | if a ≤ b and b ≤ c under the comparator, then a ≤ c |
| `JavaStrings.CompareIsTotalPreorder` | src/main/java/com/amadornes/modlistexporter/ModListExporter.java:64 | `compareToIgnoreCase(a, b) <= 0` is reflexive, total and transitive over all strings |
| `JavaStrings.ToLowerCase` | src/main/java/com/amadornes/modlistexporter/ModListExporter.java:69 | the lower-cased text has the same length and maps each character on its own |
| `JavaStrings.ToLowerCaseKeepsCount` | src/main/java/com/amadornes/modlistexporter/ModListExporter.java:69 | lower-casing keeps the number of occurrences of any non-letter, such as `-` |
| `JavaStrings.RemoveChar` | src/main/java/com/amadornes/modlistexporter/ModListExporter.java:69 | `replace("-", "")` leaves no `-` |
| `JavaStrings.RemoveCharLength` | src/main/java/com/amadornes/modlistexporter/ModListExporter.java:69 | `replace("-", "")` shortens the text by exactly the number of `-` it contained |
| `JavaStrings.RemoveCharAppend` | src/main/java/com/amadornes/modlistexporter/ModListExporter.java:69 | removing a character from a concatenation removes it from each part |
| `JavaStrings.RemoveCharKeeps` | src/main/java/com/amadornes/modlistexporter/ModListExporter.java:69 | removal introduces no new characters |
| `Records.ToModInfo` | src/main/java/com/amadornes/modlistexporter/ModListExporter.java:84-91 | id, name and version are copied from the mod's id, display name and version; the summary is trimmed and is the description padded with strippable characters |
| `Records.SummaryIsTrimmed` | src/main/java/com/amadornes/modlistexporter/ModListExporter.java:89 | trimming a record's summary again leaves it unchanged |
| `Records.ToModInfos` | src/main/java/com/amadornes/modlistexporter/ModListExporter.java:63 | the mapping stage yields one record per mod, at the same position |
| `NameSort.SameName` | src/main/java/com/amadornes/modlistexporter/ModListExporter.java:64 | a name group holds exactly the records of the list whose folded name is the key: every member is such a record, and every such record is a member |
| `NameSort.Insert` | src/main/java/com/amadornes/modlistexporter/ModListExporter.java:64 | inserting adds exactly the one record to the multiset of records |
| `NameSort.SortByName` | src/main/java/com/amadornes/modlistexporter/ModListExporter.java:64 | the sorted list is a permutation of its input |
| `NameSort.InsertSorted` | src/main/java/com/amadornes/modlistexporter/ModListExporter.java:64 | inserting into a list sorted by name keeps it sorted |
| `NameSort.SortByNameSorted` | src/main/java/com/amadornes/modlistexporter/ModListExporter.java:64 | the sort's output is ordered by `compareToIgnoreCase` on names, for every pair of positions |
| `NameSort.InsertSameName` | src/main/java/com/amadornes/modlistexporter/ModListExporter.java:64 | an inserted record lands in front of every record whose name equals it ignoring case, and the other name groups are unchanged |
| `NameSort.SortByNameStable` | src/main/java/com/amadornes/modlistexporter/ModListExporter.java:64 | records whose names are equal ignoring case keep their input order |
| `NameSort.SortedUnique` | src/main/java/com/amadornes/modlistexporter/ModListExporter.java:64 | two lists sorted by name that agree on every name group are equal, so any stable sort by this comparator gives the same result |
| `Collector.Visible` | src/main/java/com/amadornes/modlistexporter/ModListExporter.java:62 | the filter keeps each mod whose id is not hidden as often as it occurs, and no mod whose id is hidden |
| `Collector.VisibleSingle` | src/main/java/com/amadornes/modlistexporter/ModListExporter.java:62 | a single mod is kept exactly when its id is not in the hidden-id list |
| `Collector.VisibleAppend` | src/main/java/com/amadornes/modlistexporter/ModListExporter.java:62 | filtering a concatenation is the concatenation of the filtered parts, so the kept mods stay in the host's order |
| `Collector.NothingHidden` | src/main/java/com/amadornes/modlistexporter/ModListExporter.java:62 | with an empty hidden-id list, every mod is kept in order |
| `Collector.VisibleRecords` | src/main/java/com/amadornes/modlistexporter/ModListExporter.java:62-63 | the filter-then-map stage yields one record per visible mod, and none of them carries a hidden id |
| `Collector.VisibleRecordsCover` | src/main/java/com/amadornes/modlistexporter/ModListExporter.java:62-63 | every mod whose id is not hidden has its record among the mapped records |
| `Collector.GatherModList` | src/main/java/com/amadornes/modlistexporter/ModListExporter.java:60-66 | the exported list is a permutation (same multiset) of the records of the visible mods |
| `Collector.GatherModListFilters` | src/main/java/com/amadornes/modlistexporter/ModListExporter.java:61-65 | no exported record has a hidden id, and every mod whose id is not hidden is exported |
| `Collector.GatherModListPermutation` | src/main/java/com/amadornes/modlistexporter/ModListExporter.java:61-65 | the export holds one record per visible mod, and an empty mod list gives an empty export |
| `Collector.GatherModListOrdered` | src/main/java/com/amadornes/modlistexporter/ModListExporter.java:64 | the export is sorted by name ignoring case, and mods with names equal ignoring case keep the host's order |
| `Collector.GatherModListUnique` | src/main/java/com/amadornes/modlistexporter/ModListExporter.java:64 | any arrangement of the visible records that is sorted by name and keeps equal names in order is exactly the export |
| `Collector.CaseInsensitiveExample` | src/main/java/com/amadornes/modlistexporter/ModListExporter.java:60-66 | mods named "Beta" and "alpha", none hidden, are exported as alpha then Beta |
| `Writer.TempFileName` | src/main/java/com/amadornes/modlistexporter/ModListExporter.java:69 | the temporary name contains no `-` and ends in ".json" |
| `Writer.TempFileNameShape` | src/main/java/com/amadornes/modlistexporter/ModListExporter.java:69 | the temporary name contains no upper-case letter and is as long as the UUID text minus its hyphens, plus five |
| `Writer.TempFileNameOfUuid` | src/main/java/com/amadornes/modlistexporter/ModListExporter.java:69 | for a canonical 36-character UUID text, the name is its 32 digits lower-cased, then ".json": 37 characters, the first 32 lower-case hexadecimal digits |
| `Writer.TempFileNameInjective` | src/main/java/com/amadornes/modlistexporter/ModListExporter.java:69 | two UUID texts that differ other than in letter case never give the same temporary name |
| `Writer.MoveOptions` | src/main/java/com/amadornes/modlistexporter/ModListExporter.java:73-76 | the options start with `REPLACE_EXISTING`; they contain `ATOMIC_MOVE` exactly when the atomic-move setting is on; no option appears twice |

## Left out

- Starting the "Mod List Writer" thread, and rethrowing an `IOException` as a `RuntimeException` (ModListExporter.java:46-58). This is concurrency and exception plumbing.
- Creating and writing the temporary file, and `Files.move` (ModListExporter.java:70-72, 77). These are file-system effects. Whether a move is atomic is a property of the operating system. Only the option list passed to the move is modelled.
- Gson serialisation with lenient and pretty-printing settings (ModListExporter.java:35-38, 71). Gson is a foreign library and its output format is not modelled.
- `MavenVersionTranslator.artifactVersionToString` (ModListExporter.java:88). This is a host call. The translated version is an input string (`HostMod.version`) that is copied unchanged.
- `ModList.get()`, `FMLPaths.GAMEDIR`, config registration and the `Config` fields (ModListExporter.java:43, 61-62, 69, 74, 77). These are host state. The mod list, the hidden ids and the atomic-move flag are parameters.
- Resolving the temporary name against the game directory (ModListExporter.java:69), and the output path. Paths are not modelled. The temporary file is created in the game directory, while the output path is whatever the configuration names. So the temporary file is not necessarily in the output's directory, which a same-file-system atomic move would need. The model follows the code here.
- `UUID.randomUUID()` (ModListExporter.java:69). The UUID's text is a parameter.
- Logging (ModListExporter.java:55).
- The sorting algorithm itself. The stream's stable library sort is modelled as a stable insertion sort. `NameSort.SortedUnique` shows that every stable sort by this comparator gives the same list.
- JavaStrings.CompareIgnoreCase: folds only the ASCII letters; Java's full Unicode upper- and lower-case mappings are not modelled. A Java `char` is a UTF-16 code unit, while a Dafny `char` is a Unicode scalar value.
- JavaStrings.ToUpperChar: maps only the ASCII letters; the full Unicode mapping of `Character.toUpperCase` is not modelled.
- JavaStrings.ToLowerChar: maps only the ASCII letters; the full Unicode mapping of `Character.toLowerCase` is not modelled.
- JavaStrings.FoldCase: upper-cases and lower-cases only ASCII letters, for the same reason.
- JavaStrings.ToLowerCase: lower-cases only ASCII letters. On the text of a UUID, which contains only hexadecimal digits and hyphens, this agrees with `toLowerCase(Locale.ROOT)`.
