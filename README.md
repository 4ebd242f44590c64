# trivy-exp-dep: prescan package extraction and manifest selection

`trivy-exp-dep` is a Trivy plugin. It runs `trivy fs` once to get a JSON
report ("prescan"), collects the names of all vulnerable packages in that
report, and prints them on one line. It then walks the project directory and
prints the path of every entry of the walk (directories and the root
included) whose name, ASCII-lowercased, ends with `pipfile`.

This project models the two pieces of logic in that program:

- **Package extraction** (`PkgExtract`, with `JsonValue` and `VecOps`). The
  report is an already-parsed JSON value. Nested index loops push
  `Results[i].Vulnerabilities[j].PkgName` onto a vector. Any `unwrap` that
  would abort the program is an `Err` naming the failing position. The
  vector is then deduplicated in place with `Vec::dedup`, which removes
  consecutive duplicates only, and joined with single spaces.
  - `CollectPkgNames` is the loop. It is proved equal to the recursive
    specification `Extract`.
  - `DedupInPlace` works on an array with a read cursor and a write cursor.
    It is proved equal to the specification function `Dedup`.
  - `PrescanLine` chains the three steps.
- **Manifest selection** (`ManifestFiles`). An entry of the directory walk
  is selected when its file name, ASCII-lowercased, ends with `pipfile`.
  `SelectPipfiles` is the loop over the walk's entries. It is proved equal
  to `PipfilePaths`.

JSON indexing follows the dynamically typed value the program uses.
`v["key"]` gives `Null` when `v` is not an object or has no such key.
`v[i]` gives `Null` when `v` is not an array or `i` is out of range. Only
`as_array()` and `as_str()` can fail.

## Behaviour notes

- A report without an array `Results` aborts the program.
- A vulnerability without a string `PkgName` aborts the program.
- Deduplication removes adjacent repeats only.
- Only names ending in `pipfile` (ignoring ASCII case) are selected.

## Model

| member | source | states |
|---|---|---|
| `PkgExtract.CollectPkgNames` | src/main.rs:75-88 | The nested loops give exactly `Extract(report)`: either the full list or the first abort in loop order |
| `PkgExtract.ExtractOkIff` | src/main.rs:76-86 | Extraction succeeds iff `Results` is an array, every result has a `Vulnerabilities` array and every vulnerability has a string `PkgName`; a malformed entry aborts instead of being skipped |
| `PkgExtract.ExtractResultsNotArray` | src/main.rs:76 | The abort is `ResultsNotArray` exactly when `Results` is missing or not an array |
| `PkgExtract.ResultsNamesErrorAt` | src/main.rs:76-86 | Every reported abort names a result without a `Vulnerabilities` array, or a vulnerability whose `PkgName` is not a string |
| `PkgExtract.PkgNamesErrorAt` | src/main.rs:82-86 | Within one result, an abort names that result and a vulnerability in range whose `PkgName` is not a string |
| `PkgExtract.PkgNamesOkIff` | src/main.rs:77-87 | One result's names are collected iff every `PkgName` is a string; then they are those strings, one per vulnerability, in order |
| `PkgExtract.ResultsNamesOkIff` | src/main.rs:76-88 | Collection over all results succeeds iff every result is well formed; the list then has one name per vulnerability entry |
| `PkgExtract.ResultsNamesAt` | src/main.rs:75-88 | Vulnerability `j` of result `i` sits at position `Offset(i) + j`, the number of entries of earlier results plus `j`: ordered by result, then by vulnerability |
| `PkgExtract.PkgNamesPrefixErr` | src/main.rs:82-86 | Once a vulnerability's `PkgName` fails, later entries do not change the outcome; the first failure is reported |
| `PkgExtract.ResultsNamesPrefixErr` | src/main.rs:76-87 | Once a result fails, later results do not change the outcome |
| `PkgExtract.PrescanLine` | src/main.rs:75-90 | The printed line exists iff extraction succeeds; it is the deduplicated list joined with `" "`; on abort the extraction's error is returned |
| `VecOps.Dedup` | src/main.rs:89 | The deduplicated list is never longer than the input, is empty iff the input is, and keeps the first and the last element |
| `VecOps.DedupInPlace` | src/main.rs:89 | Compacting in place with the kept-last comparison leaves `Dedup` of the old contents in the first `len` cells |
| `VecOps.DedupNoAdjacentDuplicates` | src/main.rs:89 | After dedup no two neighbouring names are equal |
| `VecOps.DedupIsSubsequence` | src/main.rs:89 | The deduplicated list is a subsequence of the input: relative order is kept |
| `VecOps.DedupSameElements` | src/main.rs:89 | A name occurs after dedup iff it occurs before: the set of distinct names is unchanged |
| `VecOps.DedupFixedIff` | src/main.rs:89 | Dedup leaves a list unchanged iff it has no equal neighbours |
| `VecOps.DedupIdempotent` | src/main.rs:89 | Deduplicating twice equals deduplicating once |
| `VecOps.DedupLengthIsRunCount` | src/main.rs:89 | The deduplicated list has one element per run of equal neighbours; with the subsequence and no-adjacent-duplicates lemmas this fixes the result, so distant repeats are never dropped |
| `VecOps.DedupKeepsDistantDuplicates` | src/main.rs:89 | Non-adjacent repeats survive: `[x, x, y, x]` becomes `[x, y, x]` |
| `VecOps.Join` | src/main.rs:90 | The empty list joins to the empty string; a non-empty join starts with the first name |
| `VecOps.JoinLength` | src/main.rs:90 | The line's length is the names' total length plus one separator per adjacent pair: no leading or trailing separator |
| `VecOps.JoinEndsWithLast` | src/main.rs:90 | A non-empty joined line ends with the last name |
| `VecOps.SplitJoin` | src/main.rs:90 | Splitting the line on the separator gives back the names, when there is at least one and none contains the separator |
| `ManifestFiles.PipfileNameIff` | src/main.rs:97-101 | A name is selected iff it has at least seven characters and the last seven, ASCII-lowercased, are `pipfile` |
| `ManifestFiles.PipfileNameIgnoresCase` | src/main.rs:97-101 | Upper- or lower-casing the ASCII letters of a name does not change whether it is selected |
| `ManifestFiles.PipfileNameAnyPrefix` | src/main.rs:97-101 | There is no word boundary: any prefix before a selected name keeps it selected |
| `ManifestFiles.LockFileRejected` | src/main.rs:97-101 | It is a suffix test: `<name>.lock` is never selected |
| `ManifestFiles.SampleNames` | src/main.rs:97-101 | `Pipfile`, `PIPFILE` and `myPipfile` are selected; `Pipfile.lock` and `requirements.txt` are not |
| `ManifestFiles.SelectPipfiles` | src/main.rs:93-105 | The loop over the walk's entries keeps exactly `PipfilePaths(entries)` |
| `ManifestFiles.PipfilePathsMembers` | src/main.rs:93-105 | A path is selected iff some entry has that path and a name that passes the test |
| `ManifestFiles.PipfilePathsInWalkOrder` | src/main.rs:93-105 | The selected paths keep the walk's order: they form a subsequence of all entry paths |

## Left out

- Command-line parsing with clap and its defaults (src/main.rs:10-32): argument wiring with no logic to verify.
- Building and running the `trivy` subprocess and relaying its stderr (src/main.rs:36-67): external process I/O.
- The temporary report path, reading the file and parsing the JSON (src/main.rs:36, 70-73): the model starts from an already-parsed value. Numbers are modelled as integers because the extraction never looks at them.
- The directory walk and its error filtering (src/main.rs:93-96): the walk's surviving entries are an input sequence.
- `to_string_lossy` and the `println!` calls (src/main.rs:90, 100, 103). Names are modelled as sequences of characters. Lossy replacement cannot create or destroy the ASCII suffix `pipfile`. Printing is output only.
- VecOps.DedupInPlace: the model copies the collected list into a fresh array before compacting it, and returns the kept length instead of truncating a growable vector. The cells after the kept length are left unspecified.
- VecOps.Dedup: equal names are indistinguishable values, so "the first element of each run is the one kept" is not observable. The model states the value-level behaviour only.
- Matching manifest contents against candidate names, and writing an ignore policy: this code does neither.
