# Taxonomy term resolution, modelled in Dafny

This project models `TaxonomyTermProcessor`, the part of the WooCommerce
taxonomy importer that turns one CSV cell into one taxonomy term. A cell either
names a term directly (`Red`) or gives a path from a top-level term down to the
wanted one (`Clothes > Shirts > Long sleeve`). The processor returns the
resolved term, or `false`. Every failure adds one message to an error map keyed
by error kind (`terms_not_found`, `hierarchy_mismatch`, `duplicate_terms`).

Modules:

- `Options`: the `Option` type. `None` stands for PHP's `false`/`null`.
- `PhpStrings`: the PHP built-ins the processor uses, on `seq<char>`. They are
  `empty` on a string, `strpos`, `explode`, `implode`, `trim` and integer-to-string.
  `explode` is pinned down exactly: `IsExplode` states what its result must be
  (the pieces join back, the last has no separator, every other piece ends at the
  leftmost separator), and `SplitCharacterised` proves that `Split` is the only
  sequence meeting it. `trim` is fixed as the unique infix between trimmable
  characters. An id renders as digits with no leading zero and reads back as itself.
- `TermStore`: one taxonomy's terms as an immutable `seq<Term>` in catalog
  order. `Term(id, name, parent)` uses parent `0` for a top-level term. The
  model stands in for WordPress's three lookups:
  - `get_terms` becomes the order-preserving filters `TermsNamed` and `ChildrenNamed`.
  - `get_term` becomes `TermById`.
  - `get_term_by('name', …)` is the picker `Store.byName`. `Valid` only requires
    it to return some term with the name, or none exactly when no term has it, so
    the tie-break stays open.
- `ErrorLedger`: the error map, `map<string, seq<string>>`, with `add_error`,
  `get_errors`, `clear_errors`, `has_errors` and `get_errors_by_type`. A replay
  of an arbitrary sequence of adds and clears serves as the reference that the
  accessors are proved against.
- `TermProcessor`: `process_term`, `find_single_term` and
  `process_hierarchical_term`. Each returns an `Outcome`, which pairs the term or
  `false` with the updated error map. The `foreach` over the levels is the
  recursive `Walk`. The ghost `Trace` lists the terms the walk resolves before
  its first failing level. `IsPath` is the declarative definition of a correctly
  parented chain, and it serves as the independent reference for the walk.

Notes on behaviour, taken from the PHP code:

- "Empty" means PHP `empty()`, so both `""` and `"0"` are skipped silently. The
  processor does no trimming of its own before this test.
- A bare name is not trimmed. Only path levels are trimmed, each with PHP's
  default `trim` characters.
- Messages are the code's own Russian strings. The expected parent of a
  mismatch is named through `get_term`, or `корень` ("root") at the top level.
- Inside a path, when the picked term has the wrong parent, the first child of
  the expected parent with that name is used, with no duplicate check. The walk
  is greedy and never backtracks. If a name repeats under one parent, a path
  that does exist can be missed. `GreedyWalkMissesPath` shows a concrete case.
  The code only assumes that a parent has no two children with the same name
  (its comment says such duplicates should not exist); it does not check this,
  and WordPress does not rule it out in every case (a distinct explicit slug or
  a rename can produce such a pair). The model states the assumption as
  `SiblingNamesUnique`. `WalkFindsPath`, `WalkIgnoresTieBreak` and
  `ProcessTermFindsPath` hold under it. When it fails, the case
  `GreedyWalkMissesPath` describes can occur.

## Model

| member | source | states |
|---|---|---|
| `PhpStrings.IsEmptyValue` | TaxonomyTermProcessor.php:22 | PHP `empty()` on a string holds for exactly `""` and `"0"` |
| `PhpStrings.IndexOf` | TaxonomyTermProcessor.php:27 | `strpos` returns the leftmost occurrence of the separator, and returns none exactly when the separator does not occur |
| `PhpStrings.Split` | TaxonomyTermProcessor.php:42 | `explode` always yields at least one piece; `SplitCharacterised` fixes which pieces |
| `PhpStrings.Join` | TaxonomyTermProcessor.php:104 | `implode` starts with the first piece, followed by the separator when there is a second piece |
| `PhpStrings.JoinSplit` | TaxonomyTermProcessor.php:42 | joining the pieces of `explode` with the separator rebuilds the original value |
| `PhpStrings.SplitPiecesAreFree` | TaxonomyTermProcessor.php:42 | no piece of `explode` contains the separator |
| `PhpStrings.SplitCutsLeftmost` | TaxonomyTermProcessor.php:42 | every piece of `explode` but the last ends at the leftmost separator after its start, so an overlapping separator such as `x > > y` is cut at its first occurrence |
| `PhpStrings.SplitCharacterised` | TaxonomyTermProcessor.php:42 | a sequence of pieces is `explode`'s result exactly when it joins back to the value, its last piece holds no separator, and every other piece ends at the leftmost separator |
| `PhpStrings.SplitHasManyPieces` | TaxonomyTermProcessor.php:27-42 | `explode` yields two or more pieces exactly when the separator occurs in the value |
| `PhpStrings.SplitJoin` | TaxonomyTermProcessor.php:103-104 | splitting an `implode` result gives the pieces back, when no piece contains the separator's first character |
| `PhpStrings.Trim` | TaxonomyTermProcessor.php:42 | `trim` returns an infix with only trimmable characters around it, and the infix neither starts nor ends with one |
| `PhpStrings.TrimIdempotent` | TaxonomyTermProcessor.php:42 | trimming a trimmed level changes nothing |
| `PhpStrings.NatToString` | TaxonomyTermProcessor.php:103-104 | an id renders as a non-empty string of decimal digits with no leading zero; it starts with `0` exactly when the id is 0 |
| `PhpStrings.ParseNatToString` | TaxonomyTermProcessor.php:103-104 | reading a rendered id back gives the id |
| `TermStore.TermsNamed` | TaxonomyTermProcessor.php:95-99 | the name query contains exactly the stored terms with that name, and is empty exactly when no term has the name. Its count is stated by `TermsNamedCounts`, its order by `TermsNamedAppend` and its first element by `TermsNamedStartsWithFirst` |
| `TermStore.ChildrenNamed` | TaxonomyTermProcessor.php:59-64 | the parent-filtered query contains exactly the stored terms with that name and that parent. Its count is stated by `ChildrenNamedCounts`, its order by `ChildrenNamedAppend` and its first element by `ChildrenNamedStartsWithFirst` |
| `TermStore.TermsNamedCounts` | TaxonomyTermProcessor.php:95-101 | the name query holds every stored copy of each term with the name and no other term, so its length is the number of stored terms with the name that `count(...) > 1` tests |
| `TermStore.TermsNamedStartsWithFirst` | TaxonomyTermProcessor.php:95-104 | the name query starts with the earliest stored term with the name |
| `TermStore.ChildrenNamedCounts` | TaxonomyTermProcessor.php:59-66 | the parent-filtered query holds every stored copy of each child of the parent with the name and no other term |
| `TermStore.ChildrenNamedStartsWithFirst` | TaxonomyTermProcessor.php:59-73 | the parent-filtered query starts with the earliest stored child of the parent with the name, which is the term the walk takes in place of a mis-parented pick |
| `TermStore.TermsNamedAppend` | TaxonomyTermProcessor.php:95-104 | the name query over two concatenated catalogs is the query over the first followed by the query over the second, so matches keep their catalog order, which is the order the duplicate message lists ids in |
| `TermStore.ChildrenNamedAppend` | TaxonomyTermProcessor.php:59-73 | the parent-filtered query over two concatenated catalogs is the query over the first followed by the query over the second, so children keep their catalog order |
| `TermStore.ChildrenAreNamedSubsequence` | TaxonomyTermProcessor.php:59-64 | the parent-filtered query is the name query narrowed by parent, in the same order |
| `TermStore.TermById` | TaxonomyTermProcessor.php:67 | `get_term` returns a stored term with that id, or none exactly when no stored term has it |
| `TermStore.IsNameLookup` | TaxonomyTermProcessor.php:48-50 | an answer of `get_term_by` for a name is a stored term with that name, or none exactly when no stored term has the name; which of several same-named terms comes back is left open |
| `TermStore.Valid` | TaxonomyTermProcessor.php:48-50 | the store's lookup answers as `get_term_by` may for every name, the lookup used at :48 and :87 |
| `TermStore.FirstNamedIsLookup` | TaxonomyTermProcessor.php:48 | taking the first term with the name is one admissible `get_term_by` |
| `ErrorLedger.ErrorsByType` | TaxonomyTermProcessor.php:145-147 | an absent kind reads as an empty list, and a present kind reads as its stored list |
| `ErrorLedger.AddError` | TaxonomyTermProcessor.php:114-119 | the message goes to the end of its kind's list, the kind becomes present, and every other kind is unchanged |
| `ErrorLedger.AddErrorChanges` | TaxonomyTermProcessor.php:114-119 | an added error always changes the map |
| `ErrorLedger.Errors` | TaxonomyTermProcessor.php:124-126 | `get_errors` has the same kinds, each answering as `get_errors_by_type` does |
| `ErrorLedger.ClearErrors` | TaxonomyTermProcessor.php:131-133 | after a clear every kind reads as empty |
| `ErrorLedger.HasErrors` | TaxonomyTermProcessor.php:138-140 | `has_errors` tests that the map is not empty; its meaning is stated by `HasErrorsMeansMessages` and `ReplayHasErrors` |
| `ErrorLedger.HasErrorsMeansMessages` | TaxonomyTermProcessor.php:138-140 | on a well-formed map, `has_errors` holds exactly when some kind holds a message |
| `ErrorLedger.ReplayWellFormed` | TaxonomyTermProcessor.php:114-133 | any sequence of adds and clears leaves every present kind non-empty |
| `ErrorLedger.ReplayByType` | TaxonomyTermProcessor.php:114-147 | after any sequence of adds and clears, each kind lists exactly the messages added under it since the last clear, in insertion order |
| `ErrorLedger.ReplayHasErrors` | TaxonomyTermProcessor.php:131-140 | `has_errors` holds exactly when some add happened since construction or the last clear |
| `TermProcessor.IdListRoundTrip` | TaxonomyTermProcessor.php:103-104 | the id list, which `DuplicateMessage` places in the message, reads back as exactly the matched ids, in query order |
| `TermProcessor.NotFoundMessage` | TaxonomyTermProcessor.php:90 | the message for a missing bare name begins with the taxonomy and a colon and contains the name in double quotes |
| `TermProcessor.DuplicateMessage` | TaxonomyTermProcessor.php:104 | the message for an ambiguous name begins with the not-found text for that name and contains ` (IDs: ` followed by every matched id, comma-separated, and `)` |
| `TermProcessor.LevelNotFoundMessage` | TaxonomyTermProcessor.php:52 | the message for a missing path level begins with the not-found text for that level and contains both the level and the full value in double quotes |
| `TermProcessor.MismatchMessage` | TaxonomyTermProcessor.php:68 | the message for a misplaced path level begins with the taxonomy and a colon and contains the level, the expected parent's name and the full value, each in double quotes |
| `TermProcessor.ParentName` | TaxonomyTermProcessor.php:67 | the expected parent is named `корень` for id 0, by the stored term with that id when ids are unique, and `""` when no stored term has the id |
| `TermProcessor.Levels` | TaxonomyTermProcessor.php:42 | a value has one level per `explode` piece, and at least one; `LevelsArePieces` states each level's contents |
| `TermProcessor.LevelsArePieces` | TaxonomyTermProcessor.php:42 | level i is piece i of `explode` on " > ", trimmed |
| `TermProcessor.LevelsAreTrimmed` | TaxonomyTermProcessor.php:42 | no level starts or ends with a character `trim` strips |
| `TermProcessor.LevelsOfPath` | TaxonomyTermProcessor.php:27-42 | a value that holds " > " yields at least two levels |
| `TermProcessor.ResolveLevel` | TaxonomyTermProcessor.php:48-74 | one level is missing exactly when no term has the name. It is misplaced exactly when the name exists but no child of the expected parent has it. Otherwise it resolves to a stored term with that name under the expected parent. A picked term already under the expected parent is returned as is. Otherwise it is replaced by the first parent-filtered child |
| `TermProcessor.ResolveLevelUniqueChild` | TaxonomyTermProcessor.php:57-76 | when exactly one child of the parent has the name, the level resolves to it, whatever term the name lookup picked |
| `TermProcessor.LevelError` | TaxonomyTermProcessor.php:50-69 | a missing level is logged as `terms_not_found` with the level-not-found message for that level and value. A misplaced one is logged as `hierarchy_mismatch` with the mismatch message naming the expected parent as `ParentName` does |
| `TermProcessor.Walk` | TaxonomyTermProcessor.php:42-80 | a non-empty walk succeeds exactly when the map is unchanged. On success it returns a stored term named after the last level. On failure it adds exactly one `terms_not_found` or `hierarchy_mismatch` entry |
| `TermProcessor.Trace` | TaxonomyTermProcessor.php:43-78 | the terms resolved before the first failure form a correctly parented chain from the starting parent. If the trace stops early, the next level does not resolve |
| `TermProcessor.WalkSuccess` | TaxonomyTermProcessor.php:76-80 | when no level fails, the walk returns the last level's term (the leaf) and adds nothing |
| `TermProcessor.WalkFailure` | TaxonomyTermProcessor.php:48-70 | when level k fails, the walk returns `false` and adds exactly the entry for level k under its expected parent |
| `TermProcessor.WalkFailFast` | TaxonomyTermProcessor.php:50-70 | once a walk fails, levels appended after it change neither the result nor the map, so later levels are never consulted |
| `TermProcessor.WalkFindsPath` | TaxonomyTermProcessor.php:42-80 | with unique sibling names, any correctly parented chain for the levels is exactly the chain the walk follows |
| `TermProcessor.WalkIgnoresTieBreak` | TaxonomyTermProcessor.php:48-73 | with unique sibling names, the walk's outcome does not depend on how `get_term_by` breaks ties |
| `TermProcessor.GreedyWalkMissesPath` | TaxonomyTermProcessor.php:57-73 | with two top-level terms of the same name, a correctly parented path can exist while the walk fails |
| `TermProcessor.FindSingleTerm` | TaxonomyTermProcessor.php:86-109 | no match gives `false` plus one `terms_not_found` message `taxonomy: "name"`. More than one match in the name query gives `false` plus one `duplicate_terms` message listing every id in query order. Exactly one match returns that term and leaves the map unchanged. The outcome is the same for every tie-break |
| `TermProcessor.WalkFromRoot` | TaxonomyTermProcessor.php:40-81 | the walk from the root over the trimmed levels behaves as its trace says: the leaf with no entry, or `false` with the entry of the first failing level |
| `TermProcessor.ProcessHierarchicalTerm` | TaxonomyTermProcessor.php:40-81 | a path resolves to the leaf of a correctly parented chain from the root and adds nothing. Otherwise it returns `false` with exactly the first failing level's entry |
| `TermProcessor.ProcessTerm` | TaxonomyTermProcessor.php:21-34 | `""` and `"0"` return `false` with the map unchanged. A value without " > " is resolved as a bare name. A value with it is resolved as a path |
| `TermProcessor.ProcessTermRecordsAtMostOne` | TaxonomyTermProcessor.php:21-109 | every call either returns a stored term and records nothing, or returns `false` and records at most one entry |
| `TermProcessor.ProcessTermFindsPath` | TaxonomyTermProcessor.php:21-80 | with unique sibling names, a path value with a correctly parented chain resolves to the chain's last term |
| `TermProcessor.MismatchNamesParent` | TaxonomyTermProcessor.php:66-69 | on a store with proper ids, a mismatch message names `корень` at the first level, and otherwise names the term resolved for the previous level |

## Left out

- The WP-CLI import commands (taxonomy-import.php and its Russian twin taxonomy-import-rus.php) are not modelled. They cover argument parsing, file and encoding checks, CSV reading, product lookups by SKU, `wp_set_object_terms` writes, progress bars, timing and log files. All of it is I/O and orchestration around the processor.
- The data-preparation helper in подготовка_массива_данных.php is not modelled, for the same reason.
- The `$verbose` flag is not modelled. It is stored by the constructor and never read.
- WordPress's lookups are not modelled beyond the abstract store. Their SQL, caching, name sanitising, `WP_Error` returns and the `taxonomy` argument are left out. The store passed in stands for the named taxonomy's terms.
- `get_term_by` refusing an empty name is not modelled. A level that trims to `""` is looked up like any other name.
- Idempotence of `process_term` holds by construction. Every operation is a pure function of the store, the value and the map, so two calls on the same inputs give the same outcome. No separate lemma states it.
- ErrorLedger.Errors: the order of the kinds is not modelled. PHP's `get_errors` returns an array whose kinds appear in the order each was first added since the last clear; a Dafny `map` has no key order. Only the order of the messages within each kind is modelled and proved.
- PHP's loose `!=` between a term's parent and the running parent id compares two integers here, so it is modelled as plain inequality.
