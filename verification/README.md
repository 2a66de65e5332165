# kfilesystem_rust, modelled in Dafny

kfilesystem_rust is a small in-memory shell. A `KfileSystem` session holds
two things: a tree of `Knode`s and a working-path string. Folders own a map
from child name to node; files hold text. The session understands `ls`,
`pwd`, `mkdir` and `cd`. Every command argument is first made absolute
against the working path (`to_abs_path`). It is then reduced to canonical
segments by a purely lexical canonicaliser (`sanitize`), which trims the
string, splits it on '/', drops empty and "." segments, and cancels a
segment against a later "..".

This project models that core. It has one module per part of the source.

- `Wrappers`: Rust's `Option` and `Result`.
- `Text`: the pieces of Rust's `str` API the path code relies on, namely
  `trim`, `split` on one character and `join` with one character. It proves
  that split and join are inverse to each other.
- `Order`: Rust's `Ord` on `String` as a strict total order, and the unique
  ascending listing of a set of names, which is what `v.sort()` produces.
- `Node`: `Knode`, `Kfolder` and `Kfile` from src/node.rs, as values.
- `Paths`: `sanitize`, `sanitize_str` and `to_abs_path`. `sanitize` is a
  loop (`Paths.Sanitize`) proved equal to the recursive `Paths.Canonical`.
- `PathExamples`: the canonicaliser on the concrete strings of the tests.
- `Tree`:
  - lookup of a node by segments;
  - replacement of the node at a path, which is how an update through a
    `&mut` cursor shows on a tree held as a value;
  - `mkdir -p` as a recursive function, with its properties.
- `FileSystem`: the session as a class `KfileSystem` with fields `root` and
  `pwd`. It is imperative where the source is:
  - `get`, `get_mut` and `mkdir` are loops proved against the functions
    above;
  - `mkdir` and `cd` change the fields in place.

The session keeps the invariant `Valid()`. The root is a folder, the working
path has no whitespace, and the working path names a node. Arguments reach
the session through a whitespace tokenizer, so they never contain
whitespace. That assumption is stated where it is used: `cd` preserves
`Valid()` for whitespace-free arguments.

## Model

| member | source | states |
|---|---|---|
| Text.TrimIsInfix | src/file_system.rs:19 | `trim` keeps one contiguous run of its input and drops only whitespace on either side of it. |
| Text.Trim | src/file_system.rs:19 | `trim` leaves no whitespace at either edge. It returns an already trimmed string unchanged, and keeps only characters of its input. |
| Text.TrimStartDropsWhitespace | src/file_system.rs:19 | Everything `trim_start` drops is whitespace, so it removes the longest whitespace prefix. |
| Text.TrimEndDropsWhitespace | src/file_system.rs:19 | Everything `trim_end` drops is whitespace. |
| Text.Split | src/file_system.rs:19 | Splitting always yields at least one piece, even for the empty string. |
| Text.SplitThenJoin | src/file_system.rs:19 | Joining the pieces of a split with the separator gives the string back. |
| Text.SplitNoSeparator | src/file_system.rs:19 | No piece of a split contains the separator. |
| Text.Join | src/file_system.rs:43 | `join` with one separator character. It has no contract of its own; JoinThenSplit and SplitThenJoin state what it means. |
| Text.JoinThenSplit | src/file_system.rs:43 | Splitting a join of separator-free parts gives the parts back. |
| Text.JoinAppend | src/file_system.rs:43 | Joining two non-empty runs puts one separator between their joins. |
| Text.JoinChars | src/file_system.rs:43 | Every character of a join is the separator or a character of some part. |
| Text.SplitChars | src/file_system.rs:19 | Every character of a piece occurs in the split string. |
| Text.JoinEdges | src/file_system.rs:43 | A join of non-empty parts starts with the first part's first character and ends with the last part's last character. |
| Order.Less | src/node.rs:86 | The order `sort` uses on names, one character at a time, is exactly lexicographic order: a proper prefix comes first, and otherwise the smaller character at the first difference decides. |
| Order.LessIrreflexive | src/node.rs:86 | No name sorts before itself. |
| Order.LessAsymmetric | src/node.rs:86 | Two names are never each before the other. |
| Order.LessTransitive | src/node.rs:86 | The string order is transitive. |
| Order.LessTotal | src/node.rs:86 | Any two distinct names are ordered one way or the other. |
| Order.LeastExists | src/node.rs:84-86 | A non-empty set of names has a least name. |
| Order.SortedKeys | src/node.rs:84-86 | The sorted vector of keys lists exactly the keys, strictly ascending, each once. |
| Order.SortedListingUnique | src/node.rs:84-86 | A set has only one strictly ascending listing, so the result does not depend on the hash map's iteration order. |
| Node.Knode.NewKfolder | src/node.rs:9-11 | `new_kfolder` is a folder node with no children, and `as_kfolder` on it gives `Kfolder::new()`. |
| Node.Knode.NewKfile | src/node.rs:12-14 | `new_kfile` is a file node with empty text, and `as_kfile` on it gives `Kfile::new()`. |
| Node.Knode.IsKfolder | src/node.rs:16-21 | As written, `is_kfolder` answers true for every node, files included. |
| Node.Knode.IsKfile | src/node.rs:22-27 | As written, `is_kfile` answers true for every node, folders included. |
| Node.Knode.AsKfolder | src/node.rs:43-48 | `as_kfolder` (and `as_kfolder_mut` at lines 29-34) give a value exactly for a folder node, and that value is the node's folder. |
| Node.Knode.AsKfile | src/node.rs:50-55 | `as_kfile` (and `as_kfile_mut` at lines 36-41) give a value exactly for a file node, and that value is the node's file. |
| Node.Kfile.New | src/node.rs:63-69 | A new file has empty text. |
| Node.Kfolder.New | src/node.rs:77-81 | A new folder has no children. |
| Node.NewLsEmpty | src/node.rs:77-88 | An empty folder lists as the empty string. |
| Node.Kfolder.Insert | src/node.rs:90-96 | The answer is true exactly when the key was absent. The key set gains exactly the key. An absent key gets the given node. A present key keeps its node even when the new node is of the other kind. Every other child is unchanged. |
| Node.InsertTwice | src/node.rs:90-96 | A second insert of the same key answers false and changes nothing, whatever node it brings. |
| Node.Kfolder.Ls | src/node.rs:83-88 | `ls` is the space-join of some strictly ascending listing of exactly the child names. |
| Node.LsIsSortedListing | src/node.rs:83-88 | Any strictly ascending listing of the child names, space-joined, is `ls`, so that listing is unique and insertion order cannot matter. |
| Node.LsDependsOnlyOnNames | src/node.rs:83-88 | Two folders with the same child names list the same, whatever the children hold. |
| Node.InsertScenario | src/node.rs:104-112 | For any three distinct names, the inserts of `test_insert` answer true, true, false, false, true. The folder ends with exactly those three names, and the repeated name keeps its first node. |
| Node.InsertLsScenario | src/node.rs:114-123 | The inserts of `test_ls` answer as the test asserts, and the folder lists as "bau miao zio". |
| Node.LsScenario | src/node.rs:122 | A folder holding "bau", "zio" and "miao" lists as "bau miao zio". |
| Paths.CancelBackward | src/file_system.rs:23-36 | The backward walk of `sanitize` never keeps "", "." or "..". |
| Paths.CancelBackwardSubsequence | src/file_system.rs:23-36 | The kept segments are a subsequence of the pieces: none is new, and they keep their order. |
| Paths.SubsequenceBounds | src/file_system.rs:23-36 | A subsequence is no longer than its sequence and holds only its elements. |
| Paths.BackwardIsForward | src/file_system.rs:23-36 | The backward walk with a pending count equals the forward stack walk (where ".." pops, and does nothing at the root) with the last `pending` results dropped. So surplus ".." are clamped at the root. |
| Paths.CancelBackwardFixes | src/file_system.rs:28-33 | Segments that all survive come back unchanged. |
| Paths.CancelBackwardNoSurvivors | src/file_system.rs:25-27 | Segments that are all "", "." or ".." cancel to nothing, however many ".." are pending. |
| Paths.CancelBackwardAfterNoSurvivors | src/file_system.rs:23-36 | Surviving segments after non-surviving ones come back unchanged. |
| Paths.CancelBackwardUpCancels | src/file_system.rs:27-30 | A surviving segment directly followed by ".." cancels out, wherever the pair stands. |
| Paths.CancelBackwardLeadingEmpty | src/file_system.rs:25 | A leading empty piece, as from a leading '/', changes nothing. |
| Paths.CancelBackwardNoSlash | src/file_system.rs:19-36 | The kept pieces of a split on '/' contain no '/'. |
| Paths.Canonical | src/file_system.rs:18-39 | Every canonical segment is non-empty, not "." or "..", and free of '/'. |
| Paths.CanonicalKeepsOrder | src/file_system.rs:19-36 | The output of `sanitize` is a subsequence of the '/'-pieces of the trimmed input: no more segments, each one of the pieces, in input order. |
| Paths.CancelBackwardPop | src/file_system.rs:23-35 | One turn of the loop keeps "what is still to walk, then what is kept" unchanged. |
| Paths.Sanitize | src/file_system.rs:18-39 | The `pop_back`/`push_front` loop returns exactly the canonical segments. |
| Paths.SanitizeStr | src/file_system.rs:41-44 | The `sanitize_str` result neither starts nor ends with '/'. |
| Paths.SanitizeStrIdempotent | src/file_system.rs:41-44 | Re-sanitising a `sanitize_str` result gives back the same segments, provided no segment begins or ends with whitespace (line 19 trims the whole string before splitting). |
| Paths.CanonicalOfJoin | src/file_system.rs:19-43 | Canonical segments with trimmed edges, joined with '/', canonicalise to themselves. |
| Paths.CanonicalOfBlank | src/file_system.rs:19 | A string that is empty once trimmed names the root. |
| Paths.TrimNoWhitespace | src/file_system.rs:19 | `trim` leaves a whitespace-free string alone. |
| Paths.CanonicalNoWhitespace | src/file_system.rs:19-36 | A whitespace-free string yields whitespace-free segments. |
| Paths.JoinNoWhitespace | src/file_system.rs:43 | Whitespace-free segments join to a whitespace-free string. |
| Paths.CanonicalSlashPrefix | src/file_system.rs:134-137 | A leading '/' does not change the segments of a whitespace-free string. |
| Paths.ToAbsPath | src/file_system.rs:129-139 | An argument starting with '/' comes back verbatim, whatever the working path and however many "." or ".." it holds. Any other result has no leading '/'. |
| Paths.ToAbsPathNoWhitespace | src/file_system.rs:129-139 | Whitespace-free input gives a whitespace-free result. |
| Paths.ToAbsPathOfNothing | src/file_system.rs:137 | With no argument the result names the same segments as the stored working path. |
| Paths.ToAbsPathRelative | src/file_system.rs:134 | A relative argument names the segments of "/" + pwd + "/" + arg. |
| Paths.ToAbsPathStable | src/file_system.rs:122-137 | A path stored by `cd` later resolves, with no argument, to what it resolved to when `cd` stored it. |
| Paths.ToAbsPathRoot | src/file_system.rs:137 | The empty working path with no argument names the root. |
| Paths.ToAbsPathRooted | src/file_system.rs:224-229 | Corrected `to_abs_path`: every result starts with '/', and an absolute argument still comes back verbatim. |
| Paths.ToAbsPathRootedSameSegments | src/file_system.rs:129-139 | The corrected and the as-written `to_abs_path` name the same segments. |
| PathExamples.SplitOfJoin | src/file_system.rs:19 | A trimmed string that is the '/'-join of '/'-free parts splits back into those parts. |
| PathExamples.SanitizeMiao | src/file_system.rs:207-210 | "/../../pera/aieie/../asa/../.././miao" sanitises to ["miao"]. |
| PathExamples.MiaoFirstHalf | src/file_system.rs:208 | "pera" and "aieie" are cancelled by the ".." after them, and the two leading ".." are lost at the root. |
| PathExamples.SanitizeRootEmpty | src/file_system.rs:211 | "" sanitises to no segments. |
| PathExamples.SanitizeRootDot | src/file_system.rs:212 | "." sanitises to no segments. |
| PathExamples.SanitizeRootDotDot | src/file_system.rs:213 | "./." sanitises to no segments. |
| PathExamples.SanitizeRootDotUpDotUp | src/file_system.rs:214 | "./.././.." sanitises to no segments. |
| PathExamples.SanitizeRootUp | src/file_system.rs:215 | ".." sanitises to no segments. |
| PathExamples.SanitizeRootUpUpUp | src/file_system.rs:216 | "../../.." sanitises to no segments. |
| PathExamples.NothingSurvives | src/file_system.rs:25-27 | Segments that are all "." or ".." name the root. |
| PathExamples.ToAbsPathLine224 | src/file_system.rs:222-224 | As written, with working path "/miao/bau", `to_abs_path("one/two")` is "miao/bau/one/two". The test expects a leading '/'. |
| PathExamples.ToAbsPathLine229 | src/file_system.rs:228-229 | As written, with the empty working path, `to_abs_path("bau")` is "bau". The test expects "/bau". |
| PathExamples.ToAbsPathRootedLine224 | src/file_system.rs:224 | The corrected `to_abs_path` gives "/miao/bau/one/two", as the test expects. |
| PathExamples.ToAbsPathRootedLine229 | src/file_system.rs:229 | The corrected `to_abs_path` gives "/bau", as the test expects. |
| PathExamples.SanitizeStrNotIdempotent | src/file_system.rs:41-44 | For "x/../ b": `sanitize` gives [" b"], `sanitize_str` gives " b", and re-sanitising gives ["b"]. |
| Tree.Lookup | src/file_system.rs:65-71 | The walk of `get` and `get_mut` as a function. A non-empty path finds something only when the start is a folder holding its first segment. |
| Tree.LookupParent | src/file_system.rs:65-71 | Whatever a non-empty path names lies inside the folder that the path without its last segment names. |
| Tree.LookupAppend | src/file_system.rs:61-74 | Walking `p + q` is walking `p`, then `q` from where that leads. |
| Tree.StepInto | src/file_system.rs:66-67 | One step of the walk from a folder goes to the named child, or to nothing when it is missing. |
| Tree.WalkStopped | src/file_system.rs:65-70 | A walk that meets a file or a missing name before its end finds nothing. |
| Tree.LookupThroughFile | src/file_system.rs:68-69 | A path that goes on past a file names nothing. |
| Tree.LookupThroughMissing | src/file_system.rs:67 | A path that goes on past a missing name names nothing. |
| Tree.GraftLookup | src/file_system.rs:102 | After replacing the node at a path, the path names the new node. |
| Tree.GraftSelf | src/file_system.rs:104 | Putting back the node a path already names changes nothing. |
| Tree.GraftGraft | src/file_system.rs:102-106 | A replacement below `p` inside a replacement at `p` is one replacement at `p`. |
| Tree.GraftGrows | src/node.rs:90-96 | Replacing a node by one that keeps all of it keeps all of the tree. |
| Tree.InsertGrows | src/node.rs:90-96 | `Kfolder::insert` keeps every node below the folder. |
| Tree.MakeDirs | src/file_system.rs:91-113 | After `mkdir` the root is still a folder. |
| Tree.MakeDirsGrows | src/file_system.rs:97-104 | `mkdir` only adds. No node is removed, no file changes, and no folder becomes a file. |
| Tree.MakeDirsFrame | src/file_system.rs:95-110 | `mkdir` changes nothing off its path. Any path that is not a prefix of the segments names the same node, or nothing, before and after, whether `mkdir` succeeds or stops at a file. |
| Tree.MakeDirsOkIff | src/file_system.rs:95-112 | `mkdir` succeeds exactly when no prefix of the path names a file. |
| Tree.MakeDirsBuildsPath | src/file_system.rs:95-112 | After a successful `mkdir`, every prefix of the path names a folder. |
| Tree.MakeDirsExisting | src/file_system.rs:104-106 | On a path of folders, `mkdir` succeeds and leaves the tree as it was. |
| Tree.MakeDirsIdempotent | src/file_system.rs:91-113 | A second `mkdir` of the same path succeeds and changes nothing. |
| Tree.MakeDirsConflict | src/file_system.rs:97-100 | At the first prefix that names a file, `mkdir` fails with "File '<segment>' exists!". The file is untouched, and the folders created before it remain: there is no rollback. |
| Tree.EmptyFolderNoFile | src/file_system.rs:102 | Nothing below a freshly created folder is a file. |
| Tree.MakeDirsAtDone | src/file_system.rs:95-112 | With no segment left, the loop's tree is the answer and the result is `Ok`. |
| Tree.MakeDirsAtConflict | src/file_system.rs:98-99 | A segment naming a file ends the walk with the tree as it stands. |
| Tree.MakeDirsAtStep | src/file_system.rs:96-106 | One turn of the loop (create if missing, then move the cursor in) keeps the cursor on a folder and does not change how the walk ends. |
| Tree.MakeDirsAtCreate | src/file_system.rs:101-102 | Creating the missing folder first does not change how the walk ends. |
| Tree.MakeDirsAtInto | src/file_system.rs:104-106 | Moving the cursor into an existing folder does not change how the walk ends. |
| Tree.MakeDirsFirst | src/file_system.rs:96-106 | `mkdir` whose first segment is not a file recurses into that child, created if missing. |
| FileSystem.KfileSystem.constructor | src/file_system.rs:11-16 | A new session has an empty root folder and an empty working path, and is valid. |
| FileSystem.KfileSystem.ResolvePath | src/file_system.rs:47 | `sanitize(to_abs_path(s))` gives exactly the segments the argument names. |
| FileSystem.KfileSystem.Get | src/file_system.rs:61-74 | The walk returns exactly the node that the argument's segments name from the root. The empty path names the root; a file or a missing name on the way gives nothing. |
| FileSystem.KfileSystem.GetMut | src/file_system.rs:46-59 | The walk gives a place exactly when the argument names a node, and that place is the argument's segments. |
| FileSystem.KfileSystem.InsertAt | src/node.rs:90-96 | Inserting through a `get_mut` place answers whether the key was absent. The tree changes only at that place, by `Kfolder::insert`, and the session stays valid. |
| FileSystem.KfileSystem.Pwd | src/file_system.rs:76-79 | `pwd` never fails; its answer is "/" followed by the stored string. |
| FileSystem.KfileSystem.Ls | src/file_system.rs:81-89 | On a path (the working path by default) that names a folder, the answer is that folder's listing. |
| FileSystem.KfileSystem.Mkdir | src/file_system.rs:91-113 | The loop with its in-place insert leaves the tree and answer of `MakeDirs` on the argument's segments. The working path is unchanged and validity is kept. |
| FileSystem.KfileSystem.Cd | src/file_system.rs:115-127 | `cd` never changes the tree. With no argument it clears the working path. With an argument naming any node, folder or file, it stores `to_abs_path` of it. Otherwise it answers "cd: '<arg>': No such file or directory" and changes nothing. Validity is kept for whitespace-free arguments. |
| FileSystem.KfileSystem.MkdirKeepsCwd | src/file_system.rs:91-113 | After `mkdir`, the working path still names a node. |

## Left out

- src/main.rs, the read–print loop, is not part of this model. It is standard input and output only.
- `call`, `call_none` and `call_string` are not modelled. They dispatch by command name and print results and errors to the terminal. Their argument-count check becomes the precondition of `Mkdir` (`|args| >= 2`) and of `Cd` (`|args| >= 1`). `Ls` needs no argument.
- `tokenize` is not modelled; it relies on the standard library's Unicode whitespace splitting. What the session needs from it, that no argument contains whitespace, appears as the `NoWhitespace` hypotheses.
- The `HashMap` is a Dafny `map`, so there is no hashing and no iteration order. `ls` sorts, and `Order.SortedListingUnique` shows that order cannot matter.
- `Kfile.text` is carried but never read or written after construction, as in the source.
- Node.Kfolder.Insert: a function returning the new folder and the answer. A folder lives by value inside the tree, so its in-place update is modelled one level up: `FileSystem.KfileSystem.InsertAt` and `Mkdir` replace the folder at its path in `root`. Aliasing of `&mut` references is not modelled because the tree has no sharing.
- FileSystem.KfileSystem.GetMut: returns the path of the node rather than a mutable reference. Changes through it are made by `InsertAt`.
- FileSystem.KfileSystem.Ls: requires that the path names a folder. On anything else the source panics (`unreachable!`), and the model does not model the panic.
- FileSystem.KfileSystem.Mkdir: requires the root to be a folder. The proved invariant that the cursor is always a folder stands in for the unreachable panic at line 108.
- FileSystem.KfileSystem.Cd: validity is proved only for whitespace-free arguments, which is what `tokenize` delivers.
- Paths.CancelBackward: the pending ".." counter `n` (src/file_system.rs:22) is an `i32` in the source and an unbounded `nat` here. The two differ only for a path with more than 2^31 - 1 ".." segments, where the source would overflow.
- Paths.SanitizeStrIdempotent: requires that no segment begin or end with whitespace. Without that proviso the claim is false (`PathExamples.SanitizeStrNotIdempotent`).
- `test_tokenize` (src/file_system.rs:232-244) is left out together with `tokenize`; nothing in the model states its answers.
- `test_get_mut` is not restated as a scenario. Its lookups follow from the contracts of `Get` and `GetMut` and the `Tree.Lookup` lemmas. Its inserts go through `HashMap::insert`, which overwrites a present key, while `InsertAt` models `Kfolder::insert`, which does not; the two agree there only because every key the test inserts is absent.
- Unicode handling is limited to `trim`. `char::is_whitespace` is written out as the Unicode White_Space set; there is no normalisation, and strings are sequences of characters, not UTF-8 bytes.

Behaviour of the source that the model keeps as written:
- `cd` with an absolute argument stores it verbatim, "." and ".." included. After `cd /a`, `pwd` answers "//a".
- `cd` into a file is accepted.

## Findings

| source | as written | input that shows it | evidently intended | confidence | as-written member | corrected member |
|---|---|---|---|---|---|---|
| src/file_system.rs:129-139, 224, 229 | For a relative argument `to_abs_path` returns the canonical path without a leading '/'. | working path "/miao/bau", argument "one/two" gives "miao/bau/one/two" where the test expects "/miao/bau/one/two"; empty working path, argument "bau" gives "bau" where the test expects "/bau" | every result is rooted, naming the same segments | high (not executed) | PathExamples.ToAbsPathLine224, PathExamples.ToAbsPathLine229 | Paths.ToAbsPathRooted, PathExamples.ToAbsPathRootedLine224, PathExamples.ToAbsPathRootedLine229, Paths.ToAbsPathRootedSameSegments |

The session keeps the as-written `to_abs_path`, because its result is what `cd` stores and `pwd` prints. Every lookup goes through the canonical segments, and `Paths.ToAbsPathRootedSameSegments` proves that the corrected and as-written functions name the same segments. So, for whitespace-free arguments and working paths, which is all `tokenize` delivers, `get`, `mkdir`, `ls` and `cd`'s existence check behave the same with either. An argument with leading whitespace can tell them apart, because `sanitize` trims the string before splitting.
