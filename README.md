# fhtoolkit download and query, modelled in Dafny

This project models the two commands of fhtoolkit that deal with Flathub application
references.

**`download`** (`src/fhtoolkit/download.py`) does the following:
- It reads "refs" files. Each line of such a file is `app/<id>/<arch>/<branch>`, and only dotted identifiers are kept.
- It gathers those files from `--refs-dir` (its `*.refs` entries, sorted) and from `--refs-file`.
- For each identifier it fetches `<id>.flatpakref` into `<out>/<subject>/`, where the subject is the refs file's base name without its extension.
- It skips a file that is already there and non-empty.
- It tries the primary URL first and the fallback second.
- It keeps a global success limit and a memory of the (subject, identifier) pairs already saved.

**`query`** (`src/fhtoolkit/query.py`) does the following:
- It reads the AppStream catalogue as start and end events, yielding one record per `<component>`.
- It files every dotted identifier under each of its normalised categories, and counts the category occurrences.
- Then, depending on the options, it lists the counts, writes one refs file per category, writes one merged file, or writes one file per selected category.

The modules, one per file:

| module | file | what it holds |
|---|---|---|
| `Wrappers` | wrappers.dfy | `Option` and `Result` |
| `Text` | text.dfy | Python `str` helpers: `isspace`, `strip`, `replace`, ASCII `lower`, `split`, and line iteration of a text file |
| `Order` | order.dfy | Python's string order; `sorted` over a set and over a list |
| `Paths` | paths.dfy | `os.path.join`, `basename` and `splitext` |
| `Refs` | refs.dfy | `REF_LINE_RE`, `parse_refs_file`, `collect_app_ids`, `find_refs_in_dir` |
| `Fetch` | fetch.dfy | `download_flatpakref` over an explicit world |
| `Batch` | batch.dfy | `_iter_subjects` and `run` of the download command |
| `Catalog` | catalog.dfy | `iter_components` |
| `Categories` | categories.dfy | `normalize_category`, `make_ref`, and the `by_cat` / `cat_counter` loop |
| `Query` | query.dfy | `_write_file` and `run` of the query command |

The file system, the directory listings and the network are an explicit value:
- **Files** are a map from path to contents.
- **Listings** are a map from directory to its entries.
- **The network** is the sequence of answers it will give, consumed one per request, plus a log of the URLs requested.

Loops are Dafny methods, each proved equal to a reference function. The properties the tool promises are proved about those functions.

## Model

| member | source | states |
|---|---|---|
| Text.Strip | src/fhtoolkit/download.py:26 | the result has no leading or trailing Python whitespace |
| Text.StripPadded | src/fhtoolkit/download.py:26 | stripping text surrounded by whitespace gives back exactly that text |
| Text.StripStripped | src/fhtoolkit/query.py:61 | stripping an already stripped string changes nothing |
| Text.Remove | src/fhtoolkit/query.py:61 | `replace(c, "")` leaves no `c`; it is the identity on strings without `c`; it keeps the first and last characters when they are not `c` |
| Text.RemoveCounts | src/fhtoolkit/query.py:61 | `replace(c, "")` deletes every `c` and keeps every other character as often as it occurred |
| Text.RemoveAppend | src/fhtoolkit/query.py:61 | `replace(c, "")` works piece by piece: on a concatenation it gives the concatenation of the two results, so the kept characters stay in their order |
| Text.Split | src/fhtoolkit/query.py:33 | the pieces contain no separator, and joining them with it gives the input back |
| Text.SplitJoin | src/fhtoolkit/query.py:33 | splitting a join of separator-free pieces gives the pieces back |
| Text.Lines | src/fhtoolkit/download.py:24-25 | a non-empty file yields at least one line |
| Text.LinesConcat | src/fhtoolkit/download.py:24-25 | iterating a file's lines loses nothing: the lines put back together are the file |
| Text.LinesShaped | src/fhtoolkit/download.py:24-25 | every line is non-empty and holds "\n" only as its last character, and every line but the last ends in "\n" |
| Text.TrimLeft | src/fhtoolkit/download.py:15 | what the leading `\s*` leaves does not start with whitespace |
| Text.TrimLeftPadded | src/fhtoolkit/download.py:15 | the leading `\s*` takes away exactly the whitespace in front of text that does not start with whitespace |
| Text.LinesRender | src/fhtoolkit/download.py:24-25 | reading back, line by line, a file written one `"\n"`-terminated line at a time gives each line with its `"\n"` |
| Order.SortSet | src/fhtoolkit/download.py:116 | `sorted` of a set: the set's members, each once, strictly ascending in code-point order |
| Order.SortedUnique | src/fhtoolkit/download.py:116 | two strictly ascending lists with the same members are equal, so `sorted(set)` is determined |
| Order.SortedDistinct | src/fhtoolkit/query.py:69 | `sorted(set(lines))`: the distinct lines in ascending order |
| Order.SortList | src/fhtoolkit/download.py:87 | `sorted` of a list: a non-descending permutation of its input |
| Order.SortedListUnique | src/fhtoolkit/download.py:87 | two non-descending permutations of the same entries are equal |
| Paths.JoinShape | src/fhtoolkit/download.py:93 | `join(a, b)` ends with `b`; unless `b` is absolute it starts with `a`, and a '/' separates a non-empty `a` from a non-empty `b` |
| Paths.StripExtension | src/fhtoolkit/download.py:92 | `splitext(p)[0]` is a prefix of `p`; what it removes starts with '.' and holds neither '/' nor a further '.'; StripNamedExtension and StripKept fix the value for every '/'-free name |
| Paths.Subject | src/fhtoolkit/download.py:92 | the subject of a refs path contains no '/'; SubjectOfNamedFile and SubjectOfPlainFile give its value for every base name |
| Paths.Basename | src/fhtoolkit/download.py:92 | the base name is the slash-free tail of the path, preceded by '/' unless it is the whole path |
| Paths.SubjectOfNamedFile | src/fhtoolkit/download.py:92 | the subject of `<dir>/<name>.<ext>` is `<name>` for any extension without '.' or '/' (".refs", ".REFS", ".txt"), when the name is not all dots |
| Paths.SubjectOfPlainFile | src/fhtoolkit/download.py:92 | a file name with no '.', or with only dots before its last '.', is its own subject |
| Paths.StripNamedExtension | src/fhtoolkit/download.py:92 | `splitext("<name>.<ext>")[0]` is `<name>` for a name that is not all dots and an extension without '.' or '/' |
| Paths.StripKept | src/fhtoolkit/download.py:92 | `splitext` removes nothing from a name with no '.', or with only dots before its last '.' (".bashrc", "..refs") |
| Paths.BasenameOfJoin | src/fhtoolkit/download.py:86 | the base name of `join(dir, file)` is `file` |
| Paths.JoinInjective | src/fhtoolkit/query.py:110 | joining relative names onto one directory never sends two names to the same path string |
| Refs.MatchRefLine | src/fhtoolkit/download.py:15 | a match means that the line, without leading whitespace, is exactly `app/A/B/C` with three non-empty slash-free fields |
| Refs.MatchRefLineComplete | src/fhtoolkit/download.py:15 | every `app/A/B/C` line with such fields, after any whitespace, matches with those three groups |
| Refs.ParseLine | src/fhtoolkit/download.py:26-35 | an accepted line yields a dotted identifier |
| Refs.ParseLineSkips | src/fhtoolkit/download.py:27-28 | blank lines and `#` comments yield nothing |
| Refs.ParseLineSound | src/fhtoolkit/download.py:26-35 | a line yields `a` only if its stripped form is `app/a/<arch>/<branch>` and `a` is dotted |
| Refs.ParseLineComplete | src/fhtoolkit/download.py:26-35 | every line whose stripped form is such a ref with a dotted identifier yields that identifier |
| Refs.RefIds | src/fhtoolkit/download.py:22-36 | every identifier collected from a file is dotted |
| Refs.RefIdsSource | src/fhtoolkit/download.py:22-36 | every identifier collected comes from some line of the file |
| Refs.RefIdsHas | src/fhtoolkit/download.py:22-36 | the identifier of every accepted line is collected |
| Refs.RefIdsBound | src/fhtoolkit/download.py:22-36 | there are at most as many identifiers as accepted lines |
| Refs.RefIdsRepeat | src/fhtoolkit/download.py:22-36 | repeating a line adds nothing, because the identifiers form a set |
| Refs.ParseRefsFile | src/fhtoolkit/download.py:22-36 | a missing file raises; otherwise the result is the set its lines give |
| Refs.UnionIds | src/fhtoolkit/download.py:72-79 | every collected identifier is dotted |
| Refs.UnionIdsMembers | src/fhtoolkit/download.py:72-79 | an identifier is collected iff some existing refs file among those given holds it; missing files are passed over |
| Refs.CollectAppIds | src/fhtoolkit/download.py:72-79 | the result is the sorted union over the files |
| Refs.IsRefsName | src/fhtoolkit/download.py:85 | a name ending in ".refs" is accepted whatever its case elsewhere, and an accepted name has a '.' five characters from its end |
| Refs.RefsPaths | src/fhtoolkit/download.py:84-86 | a path is listed iff it is `join(dir, name)` for an entry whose lower-cased name ends in ".refs" |
| Refs.FindRefsInDir | src/fhtoolkit/download.py:82-87 | a missing directory raises; otherwise the result is the sorted list of those paths |
| Fetch.RetrieveEffect | src/fhtoolkit/download.py:39-44 | one request logs its URL and consumes the next answer (a refusal once none is left); a delivery writes its payload to the destination, a refusal leaves the files unchanged, and the listings never change |
| Fetch.OutPathName | src/fhtoolkit/download.py:49 | for an identifier without '/', the file's base name is `<app_id>.flatpakref` |
| Fetch.UrlsDiffer | src/fhtoolkit/download.py:12-13 | the primary and fallback URLs of an identifier are different |
| Fetch.Download | src/fhtoolkit/download.py:47-69 | see the list after this table |
| Fetch.DownloadFallback | src/fhtoolkit/download.py:54-68 | see the list after this table |
| Fetch.DownloadPrimary | src/fhtoolkit/download.py:59-62 | a delivered primary answer ends the call after one request, with that payload written to the path |
| Fetch.DownloadIdempotent | src/fhtoolkit/download.py:51-52 | after a successful call leaves a non-empty file, a second call with skipping on returns the same path with no request and no change |
| Fetch.DownloadFlatpakref | src/fhtoolkit/download.py:47-69 | the loop over the two URLs, with its remembered last error, computes `Download` |
| Batch.IterSubject | src/fhtoolkit/download.py:90-93 | the subject has no '/', the path is passed on, and the output directory is `join(out, subject)`; IterSubjectOfNamedFile and IterSubjectOfPlainFile give the subject's value |
| Batch.IterSubjectOfNamedFile | src/fhtoolkit/download.py:90-93 | `<dir>/<name>.<ext>` yields the subject `<name>` and the directory `<out>/<name>`, for any extension without '.' or '/' |
| Batch.IterSubjectOfPlainFile | src/fhtoolkit/download.py:90-93 | `<dir>/<file>` with no extension yields the subject `<file>` and the directory `<out>/<file>` |
| Batch.Unsaved | src/fhtoolkit/download.py:131-133 | an identifier remains iff it is listed and its (subject, identifier) pair is not saved yet; the list keeps a sorted input sorted |
| Batch.UnsavedIgnores | src/fhtoolkit/download.py:131-133 | saving a pair for an identifier outside the list changes nothing about which of the list remain |
| Batch.AttemptsAll | src/fhtoolkit/download.py:127-133 | without a limit, the report gains exactly one attempt per identifier not yet saved for the subject, in sorted order, and nothing else |
| Batch.LimitBound | src/fhtoolkit/download.py:128-129 | when no attempt starts at the limit, the successes never exceed a positive limit |
| Batch.BatchSchedule | src/fhtoolkit/download.py:114-154 | without a limit, the report goes through the refs files in order; a missing file adds nothing, and an existing one adds exactly its sorted identifiers not yet saved for its subject (pairs saved by earlier files are passed over) |
| Batch.BatchLimited | src/fhtoolkit/download.py:127-154 | a positive limit only cuts the run short: its attempts are the first attempts of the same run without a limit; the two runs are identical when fewer successes than the limit were made, and a shorter run stopped with exactly the limit reached |
| Batch.BatchProperties | src/fhtoolkit/download.py:96-159 | see the list after this table |
| Batch.TrySubject | src/fhtoolkit/download.py:127-151 | the inner loop computes the reference `Attempts` |
| Batch.GatherRefs | src/fhtoolkit/download.py:97-104 | the refs files: a missing `--refs-dir` gives `None`; otherwise its sorted ".refs" entries come first, and the `--refs-file` paths, unchanged, come last |
| Batch.Run | src/fhtoolkit/download.py:96-159 | see the list after this table |
| Catalog.LocalName | src/fhtoolkit/query.py:33 | the local name of a tag contains no '}' |
| Catalog.LocalNameIsLastPiece | src/fhtoolkit/query.py:33 | the local name is the last piece of `tag.split("}")` |
| Catalog.Components | src/fhtoolkit/query.py:24-57 | every yielded record has a type, a stripped id if any, and stripped non-empty categories |
| Catalog.IterComponents | src/fhtoolkit/query.py:24-57 | see the list after this table |
| Catalog.ComponentsBound | src/fhtoolkit/query.py:35-56 | records, plus the component still open, never outnumber the component starts |
| Catalog.CloseYields | src/fhtoolkit/query.py:52-56 | a component close inside a component yields exactly the record of that component's body and leaves the component |
| Catalog.OrphanCloseIgnored | src/fhtoolkit/query.py:41-42 | a component close outside any component yields nothing |
| Catalog.StartResets | src/fhtoolkit/query.py:35-39 | a component start opens a fresh record holding only its type, whatever came before |
| Categories.NormalizeCategory | src/fhtoolkit/query.py:60-61 | a normalised category contains no space and has no leading or trailing whitespace |
| Categories.NormalizeIdempotent | src/fhtoolkit/query.py:60-61 | normalising twice is the same as normalising once |
| Categories.MakeRef | src/fhtoolkit/query.py:64-65 | splitting a ref at '/' gives back `app`, the identifier, the arch and the branch, when none of them holds a '/' |
| Categories.MakeRefRoundTrip | src/fhtoolkit/query.py:64-65 | a `make_ref` line, with or without its newline, is parsed back by the download side as the same identifier (dotted, non-empty slash-free fields, a branch not all whitespace; trailing whitespace of the branch is stripped away on reading) |
| Categories.AppIdOf | src/fhtoolkit/query.py:88 | the identifier has no leading or trailing whitespace |
| Categories.Eligible | src/fhtoolkit/query.py:91-92 | a record that is filed has a non-empty, stripped identifier |
| Categories.Filings | src/fhtoolkit/query.py:87-92 | at most one filing per record, each with a dotted identifier |
| Categories.FilingsMembers | src/fhtoolkit/query.py:87-92 | a filing exists iff it comes from a record whose stripped id is dotted |
| Categories.Aggregate | src/fhtoolkit/query.py:84-97 | the loop computes `by_cat` and `cat_counter` as the reference index and counts of the records |
| Categories.FileCategories | src/fhtoolkit/query.py:94-97 | the inner loop files one identifier under each normalised category and counts each occurrence |
| Categories.Snoc | src/fhtoolkit/query.py:94-97 | one more filing adds its identifier under exactly its categories, and adds each category's multiplicity to its count |
| Categories.KeysCounted | src/fhtoolkit/query.py:96-97 | a category is a key of the index iff its count is positive |
| Categories.CatIdsFiled | src/fhtoolkit/query.py:97 | an identifier filed under a category comes from some filing, and that category is a key |
| Categories.CountBound | src/fhtoolkit/query.py:96-97 | a category holds no more identifiers than its occurrence count |
| Categories.CatIdsMembers | src/fhtoolkit/query.py:94-97 | an identifier is filed under a category iff some filing has that identifier and that category |
| Categories.ByCatMembers | src/fhtoolkit/query.py:87-97 | `a in by_cat[k]` iff some record with a dotted stripped id `a` lists a category that normalises to `k` |
| Categories.IneligibleIgnored | src/fhtoolkit/query.py:91-92 | a record with an empty or undotted id changes neither the index nor the counts |
| Categories.IndexProperties | src/fhtoolkit/query.py:84-97 | the index and the counter have the same keys; each count is positive and at least the key's number of identifiers; every filed identifier is dotted |
| Query.WriteFile | src/fhtoolkit/query.py:68-74 | the file becomes the distinct lines, sorted, each followed by "\n"; the count reported is the number of distinct lines |
| Query.FileOfLines | src/fhtoolkit/query.py:69-73 | read back, a written file gives its distinct lines in strictly ascending order, one per input value |
| Query.RefsOf | src/fhtoolkit/query.py:109-126 | there are no refs exactly when there are no identifiers |
| Query.RefsOfUnion | src/fhtoolkit/query.py:120-121 | the refs of a union are the union of the refs |
| Query.RefList | src/fhtoolkit/query.py:126 | the list holds exactly the refs of the identifiers, and is empty iff there are none |
| Query.RefsFileRoundTrip | src/fhtoolkit/query.py:64-74 | a refs file written for a set of identifiers is read back by `parse_refs_file` as exactly that set (given the field restrictions of `MakeRefRoundTrip` and no "\n") |
| Query.MergeRefs | src/fhtoolkit/query.py:119-121 | the merged list holds exactly the refs of the union of the selected categories' identifiers |
| Query.UnionMembers | src/fhtoolkit/query.py:120-121 | an identifier is merged iff it is filed under some selected category |
| Query.Missing | src/fhtoolkit/query.py:114 | a category is listed iff it is selected and not a key of the index; the list is no longer than the selection |
| Query.Empties | src/fhtoolkit/query.py:125-128 | a category is noted iff it is selected and has no identifiers; the list is no longer than the selection |
| Query.MissingOf | src/fhtoolkit/query.py:114 | the unknown categories are the selected ones missing from the index, in order |
| Query.WriteSelected | src/fhtoolkit/query.py:125-129 | one refs file per selected category, in order; the "0 refs" notes are exactly the selected categories with no identifiers |
| Query.WriteCategories | src/fhtoolkit/query.py:108-110 | one refs file per index key, in sorted order |
| Query.ApplyUntouched | src/fhtoolkit/query.py:108-110 | a path that no write names keeps its contents, or stays absent |
| Query.ApplyWritten | src/fhtoolkit/query.py:108-110 | a path written, always with the same contents, ends with those contents |
| Query.CategoryFiles | src/fhtoolkit/query.py:107-130 | each category's file holds exactly that category's refs, and every other path is unchanged |
| Query.AllModeFiles | src/fhtoolkit/query.py:107-111 | with `--all`, every index key's file holds the refs of exactly its identifiers, and the exit code is 0 |
| Query.SelectedModeFiles | src/fhtoolkit/query.py:113-130 | each selected category gets its file, which is empty when the category is unknown |
| Query.EmptiesAreMissing | src/fhtoolkit/query.py:114-128 | under the index `run` builds, "had 0 refs" is noted exactly for the categories reported as having no matches |
| Query.Run | src/fhtoolkit/query.py:77-130 | see the list after this table |

What the longer contracts state:

- **Fetch.Download**
  - A success names `<out_dir>/<app_id>.flatpakref`.
  - When skipping applies, nothing at all changes.
  - Otherwise one or two requests are made: the primary first, then the fallback.
  - A failure means both were requested and no file changed.
- **Fetch.DownloadFallback**
  - A refused primary is followed by the fallback.
  - If the fallback delivers, its payload is saved.
  - If both are refused, the fallback's error is raised.
- **Batch.BatchProperties**
  - Exit code 2 comes exactly when there are no refs files, and then nothing happens.
  - Otherwise the code is 0 iff something was saved, and 1 iff nothing was.
  - The counters count the attempts.
  - No attempt starts at the limit, so a positive limit bounds the successes.
  - A saved pair is never tried again.
  - Each attempt fetches a dotted identifier into its subject's directory.
  - Each attempt gets what `download_flatpakref` gives on the world at that moment.
- **Batch.Run**
  - The loop computes the reference `Batch`.
  - The counters add up to the attempts.
  - A positive limit bounds the successes.
  - The codes are 0, 1, or 2 with nothing done.
  - No saved pair is retried.
- **Catalog.IterComponents**
  - An empty event stream is a parse error.
  - Otherwise the records are those the events after the root define.
- **Query.Run**
  - The method computes the reference `Spec`.
  - With no mode it returns 2 and touches nothing.
  - A failure comes only from an empty catalogue.
  - Dump mode writes no file.

## Left out

- Network I/O is abstracted. This covers `urlretrieve`'s request header, timeout and payload reading. Each request consumes the next supplied answer, a delivery or a refusal carrying its message. When the supplied answers run out, a request is refused with a fixed message.
- `fetch_appstream` (the HTTP request and gzip) and the XML tokenizer are not part of this model. `run` of the query command is given the parser's events directly, and the first event stands for the root element. `root.clear()` only frees memory and is left out.
- Directory creation (`os.makedirs`) is left out. Writing a path does not require its directory, and `isdir` / `listdir` read a fixed listing map.
- The `time.sleep` throttle is left out, because it has no observable effect on the model.
- Printed output is left out. The "most common first" order of the dump listing is not modelled: the counts are returned as a map.
- Argument parsing (`configure_parser`, `main`) is left out. Options arrive as values. An absent `-c` list is `[]` and an absent `--merge-to` is `""`, which `run` treats exactly as it treats absent values.
- `str.lower` is modelled for ASCII letters only. Text files are read as already-decoded strings split after each "\n". Universal-newline translation and UTF-8 decoding errors are not modelled.
- `download_flatpakref`'s final `RuntimeError` is not modelled. It cannot be reached, because each of the two attempts either returns or records an error.
- Set iteration order is not modelled. The download loop iterates sorted identifiers, as the source does. The query side writes sorted files, so the order in which a set is visited does not matter.
- `FileNotFoundError` is modelled as a path missing from the files map. The other I/O errors (permissions, a path that is a directory) are not modelled.
- Query.AllModeFiles and Query.SelectedModeFiles require category names that do not start with '/'. `os.path.join` would let such a name escape the output directory, and then two categories could write the same path.
- Query.RefsFileRoundTrip requires identifiers, architecture and branch to be non-empty and free of '/' and "\n", and the branch not to be all whitespace. Such refs are not read back as written. A '/' or an empty field breaks the `app/A/B/C` shape, a "\n" splits the line in two, and an all-whitespace branch is stripped away before matching. A branch that merely ends in whitespace is read back, because `strip()` removes that whitespace first.
- Batch deduplication follows the code. The `seen` set holds only the pairs that were saved, so a pair whose download failed is tried again if a later refs file with the same subject lists it.
- Paths are compared as strings. There is no normalisation and no aliasing: "out/a.refs" and "out/./a.refs", `..` segments, symbolic links and case-insensitive file systems are not modelled. For example, `-c a -c ./a` ends with out/a.refs empty in the source, because the second write goes to the same file. In the model the two paths are different keys.
- Paths.JoinInjective and the per-category file lemmas speak of path strings, for the reason above.
- Paths.Join, Fetch.Retrieve, Fetch.OutPath and Query.Union carry no postconditions of their own, to keep the proofs that use them small. Their properties are stated by Paths.JoinShape, Fetch.RetrieveEffect, Fetch.OutPathName and Query.UnionMembers.
- Fetch.Present is the plain test `exists and getsize > 0`, and has no contract.
- The exit code follows the code. A run whose refs files are all missing exits with 1 (nothing saved), not 2.
