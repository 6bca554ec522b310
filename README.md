# greengenes2 taxonomy merge: a Dafny model

greengenes2 builds a reference phylogeny by grafting the LTP (Living Tree
Project) taxonomy onto the GTDB backbone. This project models the core of
that merge, and proves what the merge promises about its results:

- `gg2/backbone_taxonomy.py`:
  - parsing rank-prefixed lineages (`d__…; p__…; … s__…`);
  - the two polyphyly regexes and polyphyly detection;
  - the LTP adjustment (`adjust_ltp`): explicit overrides, rewrite rules
    derived against an NCBI-to-GTDB index, their ordering by specificity
    and application, and the final drop of records;
  - the two GTDB indexes the adjustment uses;
  - the two table validators;
  - the grafting of LTP clades onto the GTDB tree (`prep_trees`,
    `graft_from_other`).
- `gg2/tree_map.py`: the passes that reshape a named tree. These are
  cutting at a rank, coverage flags, pruning uncovered clades, lineage
  accumulation and making shared name components unique.
- `gg2/species_report.py`: label normalisation, de-duplication of WOL
  (Web of Life) genome records, and the match count of a pairwise
  alignment.

Modules:

| module | file | what it holds |
|---|---|---|
| `Wrappers` | wrappers.dfy | `Option`, `Result`, and the Python exceptions raised (`ValueError`, `IndexError`, `TypeError`, `ZeroDivisionError`) |
| `PyStr` | pystr.dfy | the Python `str` operations the source relies on: `in`, `find`, `split`, `join`, `strip`, `replace`, `count` |
| `Dicts` | dicts.dfy | a Python dict as a sequence of key/value pairs in insertion order |
| `Groups` | groups.dfy | `defaultdict(set)` grouping, as used by `groupby(...).unique()` and the species index |
| `Lineage` | lineage.dfy | `LEVELS`, `parse_lineage`, `strip_ranks`, `format_name` |
| `Labels` | labels.dfy | character-level parsers for the label regexes, with soundness and completeness against a rendering function |
| `Polyphyly` | polyphyly.dfy | `get_polyphyletic`, `ids_of_ambiguity_from_polyphyletic` |
| `Rewrite` | rewrite.dfy | `adjust_ltp` |
| `Mappings` | mappings.dfy | `ncbi_to_gtdb_mappings`, `gtdb_unique_species_mappings` |
| `Validate` | validate.dfy | `check_overlap`, `check_consistent_parents` |
| `Forest` | forest.dfy | a tree as child lists and parent links; postorder, preorder and ancestry |
| `TreeHeap` | heap.dfy | the `Heap` class holding every tree node; detaching a node; the bottom-up "any child flagged" pass |
| `Graft` | graft.dfy | `prep_trees`, `node.copy()`, `graft_from_other` |
| `TreeMap` | tree_map.dfy | everything in `gg2/tree_map.py` except the numeric functions |
| `SpeciesReport` | species_report.dfy | `extract_species`, `extract_label`, `parse_full_length`, `seq_id` |

## How the model is built

**Trees.** scikit-bio `TreeNode` objects are linked in place. The model
keeps all nodes of all trees in one `Heap` object, with these fields:

- `parent: seq<Option<nat>>`
- `kids: seq<seq<nat>>`
- `attrs: seq<Attrs>`, holding name, rank, `keepable`, `species_cover`,
  `genome_cover` and `lineage`.

Nodes are referred to by handle. New nodes (the copies made while grafting)
are appended. Every child handle is larger than its parent's handle. That
invariant (`Forest.Linked`) makes every tree acyclic and gives recursion
over subtrees its termination measure. Traversals (`Forest.Post`,
`Forest.Pre`) and ancestry (`Forest.Below`) are functions on the field
values. The passes over a tree are methods with loops over a snapshot of a
traversal, as in the source.

**Regexes.** Each regex is an explicit parser. Its soundness and
completeness are proved against a rendering function, so that "the regex
matches s with groups g" becomes "s renders from g". Python's `$` also
matches before one final newline, and the parsers model that (`Labels.AtEnd`).

**Tables.** A pandas frame is a sequence of records; a dict is a sequence of
pairs with last-write-wins lookup. The curated literal tables
(`MANUAL_REMAPPINGS`, `INCERTAE_SEDIS_MAPPINGS`, `LTP_RENAMES`,
`LTP_TO_DROP`) are parameters.

## Behaviour worth noting

- `parse_lineage` ignores parts beyond the seventh; the species field is the
  seventh part alone (`Lineage.ParseJoinedLineage`).
- `check_consistent_parents` raises `ValueError` when a label in either
  table, LTP or GTDB, has two different parent labels
  (`Validate.CheckConsistentParents`).
- `get_polyphyletic` reports the base of every label that carries an
  uppercase suffix, whether or not another variant of that base occurs
  (`Polyphyly.LabelPolyIff`).
- Applying the sorted rewrite rules a second time can change a lineage
  again. `Rewrite.RewriteNotIdempotent` gives two rules and a lineage that
  show it.
- The LTP half of `check_overlap` can never raise; see Findings.

## Model

| member | source | states |
|---|---|---|
| `Lineage.RankPrefix` | gg2/backbone_taxonomy.py:1347-1348 | the prefix of a rank is its letter followed by `__`, and the letter is never `_` |
| `Lineage.ParseJoinedLineage` | gg2/backbone_taxonomy.py:388-397 | field i of the parsed lineage is the i-th `;`-part with surrounding whitespace stripped, or `""` when there are fewer parts; parts beyond the seventh are ignored |
| `Lineage.ParseFormatRoundTrip` | gg2/backbone_taxonomy.py:388-397 | joining seven stripped, `;`-free names with `;` and parsing them gives them back |
| `Lineage.ParseSpacedRoundTrip` | gg2/backbone_taxonomy.py:388-397 | a lineage written with `"; "` between ranks, names free of `;` and surrounding whitespace, parses back to exactly its seven names (the strip removes the space after each `;`) |
| `Lineage.StripRanks` | gg2/backbone_taxonomy.py:400-402 | succeeds iff every field contains `__`, and then each field is what follows its first `__` |
| `Lineage.AfterFirstPrefix` | gg2/backbone_taxonomy.py:402 | `split('__', 1)[1]` of `x__rest` is `rest` |
| `Lineage.StripFormat` | gg2/backbone_taxonomy.py:1347-1348 | stripping the rank from a formatted name gives the name back |
| `Lineage.FormatStrip` | gg2/backbone_taxonomy.py:400-402 | a label starting with its rank's prefix strips to its tail, and formatting that tail rebuilds the label |
| `PyStr.ContainsIff` | gg2/backbone_taxonomy.py:1276 | `sub in s` iff sub occurs at some index of s |
| `PyStr.Find` | gg2/backbone_taxonomy.py:402 | the result is an occurrence and no occurrence lies before it |
| `PyStr.JoinSplit` | gg2/tree_map.py:28-32 | joining the pieces of a split with the separator rebuilds the string |
| `PyStr.SplitPiecesFree` | gg2/tree_map.py:107 | no piece of a split contains the separator |
| `PyStr.SplitJoin` | gg2/tree_map.py:85-90 | splitting a join of separator-free pieces gives the pieces back |
| `PyStr.StripShape` | gg2/backbone_taxonomy.py:394 | `strip()` removes exactly the leading and trailing whitespace, leaving a slice whose ends are not whitespace |
| `PyStr.StripTrimmed` | gg2/backbone_taxonomy.py:394 | `strip()` leaves a string without outer whitespace unchanged |
| `PyStr.ReplaceAbsent` | gg2/backbone_taxonomy.py:1275-1278 | replacing a pattern that does not occur leaves the string unchanged |
| `PyStr.ReplaceSame` | gg2/backbone_taxonomy.py:1277 | replacing a pattern by itself changes nothing |
| `PyStr.ReplaceLeftmost` | gg2/backbone_taxonomy.py:1277 | replace rewrites the leftmost occurrence and continues after it |
| `PyStr.ReplaceIntroduces` | gg2/tree_map.py:112 | replacing a pattern that occurs puts the replacement into the result |
| `PyStr.AfterFirstSpec` | gg2/backbone_taxonomy.py:402 | `split(sep, 1)[1]` fails iff sep does not occur, and is otherwise the text after its first occurrence |
| `PyStr.CountJoin` | gg2/backbone_taxonomy.py:1259 | a join of k pieces free of c with separator c contains k-1 c's |
| `PyStr.ReplaceDeletesChar` | gg2/backbone_taxonomy.py:1163-1165 | `replace('"', '')` leaves no `"` |
| `PyStr.DecimalRoundTrip` | gg2/tree_map.py:112 | the decimal rendering of an index reads back as that index and has no leading zero |
| `Dicts.LookupAbsent` | gg2/backbone_taxonomy.py:1156-1157 | a key never written is absent |
| `Dicts.LookupAt` | gg2/backbone_taxonomy.py:1225-1227 | in a dict without duplicate keys, the lookup of an entry's key is its value |
| `Dicts.PutSpec` | gg2/backbone_taxonomy.py:1157 | after `d[k] = v` the lookup of k is v, other lookups are unchanged, and keys stay unique |
| `Dicts.PutKeys` | gg2/species_report.py:54 | assigning an existing key keeps the key order; a new key is appended |
| `Groups.GroupBy` | gg2/backbone_taxonomy.py:1419-1425 | each key maps to exactly the set of values paired with it, and only keys that occur are present |
| `Groups.TheOne` | gg2/backbone_taxonomy.py:1428 | `list(v)[0]` of a one-element set is its element |
| `Groups.SingletonIff` | gg2/backbone_taxonomy.py:1428 | a key's group has one element iff every occurrence of the key carries the same value, which is then that element |
| `Labels.BaseRunSpec` | gg2/backbone_taxonomy.py:329-330 | the base run is a maximal run of `[a-zA-Z0-9-]` |
| `Labels.ClassRunSpec` | gg2/species_report.py:12-13 | a suffix run is a maximal run of its character class |
| `Labels.ParseSegmentSound` | gg2/backbone_taxonomy.py:329-330 | a parsed segment is valid and renders to exactly the text it consumed |
| `Labels.ParseSegmentComplete` | gg2/backbone_taxonomy.py:329-330 | a valid segment followed by a boundary parses back to itself |
| `Labels.MatchLabelSound` | gg2/backbone_taxonomy.py:329 | a label match is valid and the name is its rendering, possibly with one final newline |
| `Labels.MatchLabelComplete` | gg2/backbone_taxonomy.py:329 | the rendering of a valid label, with or without a final newline, matches back to it |
| `Labels.MatchLabelIff` | gg2/backbone_taxonomy.py:329 | the label regex matches with groups m iff the name is the rendering of valid m |
| `Labels.MatchBinomialSound` | gg2/backbone_taxonomy.py:330 | a binomial match is valid and the name is its rendering |
| `Labels.MatchBinomialComplete` | gg2/backbone_taxonomy.py:330 | the rendering of a valid binomial matches back to it |
| `Labels.MatchBinomialIff` | gg2/backbone_taxonomy.py:330 | the species regex matches with groups b iff the name is the rendering of valid b |
| `Polyphyly.PolyBaseIsSplit` | gg2/backbone_taxonomy.py:350 | `label.split('__', 1)[1]` of a matched label is its base |
| `Polyphyly.LabelPolyIff` | gg2/backbone_taxonomy.py:341-351 | above species, a label is reported with base x iff it parses as `r__x` with an uppercase suffix |
| `Polyphyly.SpeciesPolyIff` | gg2/backbone_taxonomy.py:360-371 | a species is reported as `genus epithet` iff it parses as a binomial with an uppercase suffix on either half |
| `Polyphyly.LabelErrIff` | gg2/backbone_taxonomy.py:341-343 | a label above species raises iff it is the rendering of no valid label |
| `Polyphyly.SpeciesErrIff` | gg2/backbone_taxonomy.py:360-362 | a species raises iff it is the rendering of no valid binomial |
| `Polyphyly.CollectBases` | gg2/backbone_taxonomy.py:337-351 | the loop over one column fails iff some non-bare name fails to parse, with the error of the first such name; otherwise it collects exactly the reported bases |
| `Polyphyly.CollectLevel` | gg2/backbone_taxonomy.py:334-371 | for one rank: succeeds iff no row fails, then holds exactly the bases its rows report; on failure the error is the first failing row's |
| `Polyphyly.GetPolyphyletic` | gg2/backbone_taxonomy.py:331-373 | seven sets, the rank's set holding exactly the bases reported at that rank; raises iff some row fails, with the error of the first failure in rank-then-row order |
| `Polyphyly.IdsOfAmbiguity` | gg2/backbone_taxonomy.py:375-383 | an id is returned iff a record with that id is not explicitly set and carries at some rank a label in that rank's set |
| `Polyphyly.PolyPhylumExample` | gg2/backbone_taxonomy.py:341-351 | `p__X_A` is reported as `X` |
| `Polyphyly.PlainPhylumExample` | gg2/backbone_taxonomy.py:341-351 | `p__foo-A` parses and is not reported |
| `Polyphyly.PolyGenusHalfExample` | gg2/backbone_taxonomy.py:360-371 | `s__X_A X` is reported as `X X` |
| `Polyphyly.PolyEpithetHalfExample` | gg2/backbone_taxonomy.py:360-371 | `s__Y X_A` is reported as `Y X` |
| `Polyphyly.PlainSpeciesExample` | gg2/backbone_taxonomy.py:360-371 | `s__X X` parses and is not reported |
| `Polyphyly.SpacedLabelExample` | gg2/backbone_taxonomy.py:341-343 | `p__foo bar` raises |
| `Polyphyly.TrinomialExample` | gg2/backbone_taxonomy.py:360-362 | `s__foo bar baz` raises |
| `Rewrite.BuildMappings` | gg2/backbone_taxonomy.py:1152-1160 | each id maps to its incertae sedis lineage if any, else to the GTDB lineage of the last record whose species is unique in GTDB, else to its manual remapping |
| `Rewrite.PreparedLineage` | gg2/backbone_taxonomy.py:1163-1170 | the lineage with the species appended has no `"` and one more `;` than its two parts together |
| `Rewrite.EnlargedIds` | gg2/backbone_taxonomy.py:1225-1227 | a row that `.loc` assignment appends has an id of the mappings that was not in the table, and is explicitly set |
| `Rewrite.ApplyOverrides` | gg2/backbone_taxonomy.py:1222-1227 | each existing record takes its mapped lineage and becomes explicitly set when it has one, else stays as it was; mapped ids missing from the table are appended |
| `Rewrite.AddRule` | gg2/backbone_taxonomy.py:1254 | adding to the rule set adds exactly that rule and keeps the rules distinct |
| `Rewrite.RowRules` | gg2/backbone_taxonomy.py:1235-1254 | one lineage: raises `ValueError` iff some level yields a Bacteria-to-Archaea rule; otherwise the rule set grows by exactly the rules of its levels |
| `Rewrite.DeriveRules` | gg2/backbone_taxonomy.py:1233-1254 | raises iff some lineage has a fatal rule; otherwise holds, without repetition, exactly the rules some lineage yields at some level |
| `Rewrite.DerivedRuleDepth` | gg2/backbone_taxonomy.py:1242-1259 | a rule from level l has l+1 `;` below species and 6 at species |
| `Rewrite.DerivedRulePrefix` | gg2/backbone_taxonomy.py:1242-1248 | the current side of a derived rule is a prefix of the lineage it came from |
| `Rewrite.DerivedRuleRewritesOrigin` | gg2/backbone_taxonomy.py:1273-1278 | a derived rule rewrites its own lineage at the start and continues after the prefix |
| `Rewrite.InsertAtDepth` | gg2/backbone_taxonomy.py:1264 | inserting into a sorted list appends the rule to its depth class and leaves the other classes alone |
| `Rewrite.SortSorted` | gg2/backbone_taxonomy.py:1264 | the sorted rules are in non-increasing `;` count and are a permutation of the input |
| `Rewrite.SortStable` | gg2/backbone_taxonomy.py:1264 | the sort is stable: rules of equal depth keep their relative order |
| `Rewrite.ApplyRuleIsReplace` | gg2/backbone_taxonomy.py:1275-1278 | the guarded rename is exactly `str.replace` |
| `Rewrite.RewriteAllConcat` | gg2/backbone_taxonomy.py:1274 | applying `a + b` is applying a and then b, so derived rules all act before the curated ones |
| `Rewrite.RewriteNotIdempotent` | gg2/backbone_taxonomy.py:1273-1280 | two sorted rules whose second application changes a lineage again |
| `Rewrite.ApplyRules` | gg2/backbone_taxonomy.py:1273-1280 | every record's lineage is rewritten by all rules in order and nothing else changes |
| `Rewrite.Kept` | gg2/backbone_taxonomy.py:1283 | exactly the records whose id is not to be dropped remain |
| `Rewrite.EnlargedRows` | gg2/backbone_taxonomy.py:1225-1227 | the rows `.loc` assignment appends are exactly the mapping entries whose id is not in the table, each explicitly set to its mapped lineage |
| `Rewrite.AddedRow` | gg2/backbone_taxonomy.py:1222-1227 | a row past the input records has an id with an explicit lineage that no input record carries, and that lineage |
| `Rewrite.AddedIdRow` | gg2/backbone_taxonomy.py:1222-1227 | every id with an explicit lineage that no input record carries becomes a row past the input records, with that lineage |
| `Rewrite.OverriddenFatal` | gg2/backbone_taxonomy.py:1222-1254 | the table after the overrides has a lineage with a fatal rule iff some input record's lineage after its override, or some added id's explicit lineage, has one |
| `Rewrite.AdjustLtp` | gg2/backbone_taxonomy.py:1151-1286 | raises `ValueError` iff some lineage after the overrides (an input record's, or an added row's) yields a Bacteria-to-Archaea rule at some level, so a table with no such lineage succeeds; on success no dropped id remains, every other input id is present, and a record is explicitly set iff its id has an explicit lineage |
| `Mappings.ContribsIff` | gg2/backbone_taxonomy.py:1486-1507 | a (key, prefix) pair is offered iff some trusted row offers it at some level |
| `Mappings.NcbiToGtdb` | gg2/backbone_taxonomy.py:1467-1512 | a key is kept iff every trusted row offering it offers the same GTDB prefix, and its value is one of those offers |
| `Mappings.AllOfSpec` | gg2/backbone_taxonomy.py:1421-1424 | mapping a partial function over a list succeeds iff it succeeds on each element, giving the element-wise results |
| `Mappings.StripNamesSpec` | gg2/backbone_taxonomy.py:1423-1424 | the LTP-style names exist iff every name contains `__`, and are the stripped tails |
| `Mappings.SpeciesColumn` | gg2/backbone_taxonomy.py:1417-1418 | the `ncbi_species` column exists iff every row's last NCBI name contains `__`, else `IndexError` |
| `Mappings.LineageColumn` | gg2/backbone_taxonomy.py:1420-1425 | the LTP-style lineage column exists iff every GTDB name contains `__`, else `IndexError` |
| `Mappings.UniqueSpec` | gg2/backbone_taxonomy.py:1428 | a species is kept iff all its rows share one lineage, which is then its value |
| `Mappings.GtdbUniqueSpecies` | gg2/backbone_taxonomy.py:1413-1428 | fails with `IndexError` iff some row lacks a rank separator; otherwise keeps exactly the species with one LTP-style lineage, each mapped to the lineage of all its rows |
| `Validate.NoOverlapIff` | gg2/backbone_taxonomy.py:1296-1304 | no disallowed overlap iff every name used at two different ranks is empty or permissible |
| `Validate.CheckOverlap` | gg2/backbone_taxonomy.py:1289-1321 | as written: raises iff the GTDB table has a disallowed overlap; the LTP table is never checked |
| `Validate.CheckOverlapBoth` | gg2/backbone_taxonomy.py:1289-1321 | corrected: raises iff either table has a disallowed overlap |
| `Validate.LtpOverlapMissed` | gg2/backbone_taxonomy.py:1303-1321 | a clean GTDB table with an LTP table that reuses a name at two ranks |
| `Validate.SingletonsAgree` | gg2/backbone_taxonomy.py:1332-1344 | every non-skipped group having one parent label is the same as the rank agreeing with its parents |
| `Validate.ParentsUnique` | gg2/backbone_taxonomy.py:1332-1344 | the groupby test at one rank passes iff all rows sharing a non-skipped label share its parent label |
| `Validate.CheckConsistentParents` | gg2/backbone_taxonomy.py:1329-1344 | raises `ValueError` iff at some rank from phylum down, GTDB (bare `x__` skipped) or LTP (`""` skipped) has a label with two parent labels |
| `Validate.AncestryDetermined` | gg2/backbone_taxonomy.py:1329-1344 | in a consistent table, two rows with the same named label at a rank agree on every rank above it |
| `Forest.PostRange` | gg2/tree_map.py:23 | the postorder of v contains v and only handles at or after it |
| `Forest.PreSamePost` | gg2/tree_map.py:48 | preorder and postorder visit the same nodes |
| `Forest.BelowBound` | gg2/tree_map.py:57 | an ancestor's handle is never larger than its descendant's |
| `Forest.BelowChain` | gg2/tree_map.py:57 | two ancestors of one node are ancestor and descendant of each other |
| `Forest.PostBelow` | gg2/tree_map.py:57 | every node of v's postorder is below v |
| `Forest.BelowInPost` | gg2/tree_map.py:57 | every node below v is in v's postorder |
| `Forest.PostIff` | gg2/tree_map.py:57 | a node is in v's traversal, postorder or preorder, iff it is below v |
| `Forest.SiblingsApart` | gg2/tree_map.py:57 | the subtrees of two different children share no node |
| `Forest.PostDistinct` | gg2/tree_map.py:23 | postorder visits each node once |
| `Forest.PreDistinct` | gg2/tree_map.py:48 | preorder visits each node once |
| `Forest.PostChildrenFirst` | gg2/tree_map.py:37-45 | postorder visits every child before its parent |
| `Forest.PreParentFirst` | gg2/tree_map.py:84-85 | preorder visits every parent before its child |
| `TreeHeap.RemoveFirstDistinct` | gg2/tree_map.py:17 | removing a child from a duplicate-free list removes exactly it |
| `TreeHeap.DetachLinked` | gg2/tree_map.py:55-56 | detaching a node keeps the forest well formed and changes only its former parent's child list |
| `TreeHeap.DetachBelow` | gg2/tree_map.py:55-57 | after detaching c, u is below r iff it was and the path from u to r did not pass through c |
| `TreeHeap.NextInPostorder` | gg2/tree_map.py:37-45 | when a postorder pass reaches a node, all its children are done |
| `TreeHeap.FlaggedIff` | gg2/tree_map.py:37-45 | a node's bottom-up "any child" flag is set iff some tip of its subtree is marked |
| `TreeHeap.Heap.Detach` | gg2/tree_map.py:55-56 | c loses its parent and its parent's child list loses c; nothing else changes |
| `TreeHeap.FlagPass` | gg2/tree_map.py:37-45 | the postorder flag pass fails with `TypeError` iff some tip of the subtree has no mark; otherwise every node of the subtree gets its "some marked tip below" flag and others keep theirs |
| `TreeHeap.NodeFlag` | gg2/tree_map.py:38-45 | one node's flag: its mark if it is a tip, else the OR of its children's flags |
| `Graft.LevelAt` | gg2/backbone_taxonomy.py:1357 | `LEVELS[rank]` exists iff -7 <= rank < 7, and is the rank counted modulo 7 |
| `Graft.Prepped` | gg2/backbone_taxonomy.py:1352-1357 | a tip becomes keepable; an inner node becomes not keepable with its name prefixed by its rank letter, or raises `IndexError` on a bad rank; nothing else changes |
| `Graft.PrepLtp` | gg2/backbone_taxonomy.py:1352-1357 | succeeds iff every inner non-root LTP node has a valid rank, and then every such node is prepped; on `IndexError` at preorder position i, the nodes before i are prepped, the failing inner node (rank outside `LEVELS`) has `keepable` set to False, and every other node is unchanged |
| `Graft.PrepAll` | gg2/backbone_taxonomy.py:1352 | the preorder without its root visits exactly the non-root nodes of the tree |
| `Graft.MarkTips` | gg2/backbone_taxonomy.py:1359-1361 | exactly the GTDB tips become keepable |
| `Graft.PrepTrees` | gg2/backbone_taxonomy.py:1351-1365 | the LTP pass followed by the GTDB tip pass, with the LTP failure stopping before the GTDB pass and leaving the state `Graft.PrepLtp` describes, including the failing node made not keepable |
| `Graft.CopySubtree` | gg2/backbone_taxonomy.py:1386 | the copy is appended under fresh handles, in preorder, with the same shape and attributes |
| `Graft.CopyLinked` | gg2/backbone_taxonomy.py:1386 | appending the copy keeps the forest well formed |
| `Graft.Recompute` | gg2/backbone_taxonomy.py:1387-1389 | every inner node of the subtree gets keepable iff some tip below it is keepable; tips and other nodes are untouched |
| `Graft.WithoutRemove` | gg2/backbone_taxonomy.py:1391-1393 | removing one more child from a filtered list equals filtering by the larger set |
| `Graft.Prune` | gg2/backbone_taxonomy.py:1391-1393 | the non-keepable nodes of the subtree are detached, and the resulting links are the old ones without them |
| `Graft.DroppedAll` | gg2/backbone_taxonomy.py:1391-1393 | the nodes the snapshot loop removes are exactly the non-keepable descendants |
| `Graft.MoveLinked` | gg2/backbone_taxonomy.py:1395-1396 | moving all children of y to the end of g's list keeps the forest well formed |
| `Graft.MoveChildren` | gg2/backbone_taxonomy.py:1395-1396 | `extend`: y's children move, in order, to the end of g's children, and now have g as parent |
| `Graft.CopyForGraft` | gg2/backbone_taxonomy.py:1386 | the copy leaves old nodes alone, is a detached tree, and node y + k copies the k-th preorder node of x |
| `Graft.RecomputeCopy` | gg2/backbone_taxonomy.py:1387-1389 | after recomputing, every node of the copy has keepable consistent with the keepable tips below it |
| `Graft.PruneCopy` | gg2/backbone_taxonomy.py:1391-1393 | a non-root copy stays attached iff it is keepable, and old nodes are untouched |
| `Graft.PruneAndMove` | gg2/backbone_taxonomy.py:1391-1396 | pruning then extending: old nodes are untouched except g, whose list grows by new handles only |
| `Graft.CopyAndTrim` | gg2/backbone_taxonomy.py:1386-1396 | copy, recompute, prune and extend, with copies carrying their origins' attributes |
| `Graft.GraftNode` | gg2/backbone_taxonomy.py:1384-1396 | only x, its parent and g change among old nodes: x is detached and g gains new children; copies carry their origins' attributes, a non-root copy stays attached iff keepable, and the copy root is left childless |
| `Graft.CopiesOrigin` | gg2/backbone_taxonomy.py:1386-1389 | recomputing keepable keeps every other attribute of the copies |
| `Graft.CopiesOfSamePre` | gg2/backbone_taxonomy.py:1385-1386 | detaching x does not change what its copy copies |
| `Graft.GraftedAll` | gg2/backbone_taxonomy.py:1378-1396 | the nodes grafted by the loop over the postorder snapshot are exactly the non-root nodes that are named in the lookup and still have an ungrafted child when visited |
| `Graft.TipAtVisit` | gg2/backbone_taxonomy.py:1379-1380 | a node is a tip when visited iff each of its children was grafted earlier |
| `Graft.GraftInvStep` | gg2/backbone_taxonomy.py:1382-1396 | grafting one more node keeps the loop invariant that relates the heap to the original trees |
| `Graft.GraftAt` | gg2/backbone_taxonomy.py:1382-1396 | one graft step preserves the loop invariant |
| `Graft.GraftVisit` | gg2/backbone_taxonomy.py:1378-1396 | one loop iteration, graft or skip, preserves the loop invariant |
| `Graft.GraftFromOther` | gg2/backbone_taxonomy.py:1373-1396 | old attributes are unchanged; exactly the grafted nodes lose their parent; every non-target child list loses exactly the grafted nodes; each target's list grows only by new nodes; every attached new node is keepable |
| `TreeMap.Cut` | gg2/tree_map.py:5-19 | a node whose only child is a tip hands its name to that child, which is returned; otherwise all children are detached and the node is returned; either way the result is a tip with the node's old name |
| `TreeMap.DetachChildren` | gg2/tree_map.py:16-18 | the node's children list becomes empty and each former child loses its parent |
| `TreeMap.TruncateName` | gg2/tree_map.py:27-32 | the truncated name, as the specification function `Truncated` defines it |
| `TreeMap.TruncatedParts` | gg2/tree_map.py:28-32 | the truncated name's parts are the parts up to and including the first that starts with the rank prefix, or all parts if none does |
| `TreeMap.TruncatedKeeps` | gg2/tree_map.py:25-32 | truncating keeps the mention of the rank |
| `TreeMap.ChopNameKeeps` | gg2/tree_map.py:27-32 | the chopped name (truncated after the first part starting with `rank__` when it has a `;`, otherwise unchanged) still mentions the rank |
| `TreeMap.ChopNode` | gg2/tree_map.py:24-32 | one iteration: a node that does not mention the rank changes nothing; one that does either hands its chopped name to its only tip child and becomes nameless, or loses its children and takes the chopped name; nothing else outside it and its children changes |
| `TreeMap.CutChopStep` | gg2/tree_map.py:26-32 | a cut followed by giving the returned node the chopped name of the cut node is one chop step, with that exact name on the child or on the node |
| `TreeMap.ChopInvStep` | gg2/tree_map.py:23-32 | processing a node whose children are done, and which is no child of a node done, extends the chopped region, including the final name of every processed node |
| `TreeMap.NameChoppedStep` | gg2/tree_map.py:23-32 | a processed node keeps its final name across a later step, except the only tip child of the node processed, which receives that node's chopped name |
| `TreeMap.ChopToSpecies` | gg2/tree_map.py:21-32 | every node of the tree that mentioned the rank is a tip still mentioning it or is nameless with a single tip child that does; each node ends with its own name (not mentioning the rank), its chopped name, no name with its tip child holding its chopped name, or its parent's chopped name as that parent's only child; no node mentions the rank without being a tip; only names and child lists inside the tree change |
| `TreeMap.GenomeIdShapes` | gg2/tree_map.py:67 | the genome pattern accepts `G`, then `0` or `9`, then eight digits, optionally with one final newline; its character class also lists the bar character, which it therefore admits as the second character; one digit more or less is rejected |
| `TreeMap.SpeciesCover` | gg2/tree_map.py:34-45 | raises `TypeError` iff a tip is unnamed; otherwise a node is covered iff some tip below it names the rank |
| `TreeMap.GenomeRepresented` | gg2/tree_map.py:66-78 | raises `TypeError` iff a tip is unnamed; otherwise a node is flagged iff some tip below it is a genome id |
| `TreeMap.CutInvDone` | gg2/tree_map.py:50-57 | once every node is visited, a node is still below the root iff every node on its path is covered |
| `TreeMap.CutUncoveredSpecies` | gg2/tree_map.py:47-57 | only parent links are removed, and a node remains below the root iff every node between it and the root is covered |
| `TreeMap.MarkedTipCovered` | gg2/tree_map.py:37-57 | a node above a marked tip has a covered path to the root |
| `TreeMap.FinalTipMarked` | gg2/tree_map.py:60-63 | a tip left after cutting was a tip before, and its name mentions the rank |
| `TreeMap.ToSpeciesAsTips` | gg2/tree_map.py:60-63 | the chop state is as `TreeMap.ChopToSpecies` states; raises `TypeError` iff a tip of the chopped tree has no name, leaving the chopped tree; otherwise the cover flags are exact, a node stays under the root iff its path was covered, every tip named with `rank__` after the chop stays, and every remaining tip mentions the rank |
| `TreeMap.LineageExtends` | gg2/tree_map.py:83-87 | a node's lineage extends each ancestor's lineage |
| `TreeMap.LineageRoundTrip` | gg2/tree_map.py:87-90 | the joined lineage column splits back into the rank columns |
| `TreeMap.AccumulateLineages` | gg2/tree_map.py:83-87 | every node below the root gets the concatenation of the `; `-parts of the names of its non-root ancestors and itself, top down; nothing else changes |
| `TreeMap.TipsBelow` | gg2/tree_map.py:89 | `t.tips()` lists exactly the tips below the root |
| `TreeMap.MdFromTree` | gg2/tree_map.py:80-90 | lineages accumulated as above, and one detail row per tip with its name, joined lineage, genome flag and rank columns |
| `TreeMap.DetailRows` | gg2/tree_map.py:89-90 | one detail row per tip, in tip order |
| `TreeMap.AddToEntry` | gg2/tree_map.py:108 | appending to a `defaultdict(list)` adds the node to that name's list only, and keeps the key order |
| `TreeMap.GroupedEntries` | gg2/tree_map.py:104-108 | the grouped dict lists, for each name, exactly its tips in order of occurrence |
| `TreeMap.OccurrencesNamed` | gg2/tree_map.py:105-108 | every recorded pair is a named tip and one of the `; `-parts of its name |
| `TreeMap.NameNode` | gg2/tree_map.py:104-108 | the `name_node` dict is the grouping of all (part, tip) occurrences |
| `TreeMap.RenameListOnce` | gg2/tree_map.py:111-112 | the k-th node of a shared name's list has that name replaced by `name-k` |
| `TreeMap.RenameListSuffixes` | gg2/tree_map.py:111-112 | after its rename, the k-th node's name contains `name-k` |
| `TreeMap.RenamedFrame` | gg2/tree_map.py:109-112 | renaming changes only names, keeps names present, and leaves alone a node in no shared list |
| `TreeMap.RenameShared` | gg2/tree_map.py:109-112 | the second loop computes the renaming over every shared list in dict order |
| `TreeMap.Uniqify` | gg2/tree_map.py:103-112 | the names are the renaming of the grouped occurrences; only names change; a node none of whose name parts is listed more than once among the tips' parts is unchanged |
| `TreeMap.LaterPassLosesSuffix` | gg2/tree_map.py:109-112 | with two tips both named `a; -`, the pass for `-` rewrites the first tip's `a-0` into `a--00`, so its final name no longer contains `a-0` |
| `TreeMap.RenameReachesOtherParts` | gg2/tree_map.py:112 | `str.replace` also rewrites other parts containing the shared part: `c; cd` becomes `c-0; c-0d` |
| `SpeciesReport.ExtractSpeciesMatch` | gg2/species_report.py:14-21 | a matching binomial gives `s__genus epithet` without the suffixes of either half |
| `SpeciesReport.ExtractSpeciesFallback` | gg2/species_report.py:15-17 | the result is `s__` iff the name does not match |
| `SpeciesReport.ExtractSpeciesEmpty` | gg2/species_report.py:15-17 | `s__` itself gives `s__` |
| `SpeciesReport.ExtractSpeciesStable` | gg2/species_report.py:14-21 | the result starts with `s__` and extracting again changes nothing |
| `SpeciesReport.ExtractLabelIdempotent` | gg2/species_report.py:24-33 | extracting a label twice gives what extracting once gives |
| `SpeciesReport.ExtractLabelMatch` | gg2/species_report.py:28-33 | a matching non-species label loses its suffixes and keeps its rank prefix and base |
| `SpeciesReport.WolBaseSound` | gg2/species_report.py:8 | a WOL match is a `G[09]` id of ten characters followed by `_` and digits to the end |
| `SpeciesReport.WolBaseComplete` | gg2/species_report.py:8 | every such id matches with that base |
| `SpeciesReport.StoredNone` | gg2/species_report.py:40-54 | an id of `limit` absent from the result is the key of no record read so far |
| `SpeciesReport.ParseFullLength` | gg2/species_report.py:36-56 | keys are unique and in `limit`; each key holds the sequence the loop stores for it, the first record of each WOL base; keys appear in order of their first record |
| `SpeciesReport.AgreementsBound` | gg2/species_report.py:59-62 | at most every column agrees, and all agree iff the rows are equal |
| `SpeciesReport.AgreementsExample` | gg2/species_report.py:59-62 | `AATTGGCC` against `AAAAGGCC` agrees in 6 of 8 columns |
| `SpeciesReport.SeqId` | gg2/species_report.py:59-62 | for non-empty rows, the agreeing column count and the length; an empty alignment raises `ZeroDivisionError` |

## Left out

- Reading files and writing them: FASTA, TSV and tree files, the
  `rewrite_rules` dump (gg2/backbone_taxonomy.py:1267-1271), and every
  `print`. The model starts from parsed records and trees.
- The per-record patches of `adjust_ltp` (gg2/backbone_taxonomy.py:1173-1220).
  They are one-off edits keyed by record id.
- The curated literal tables. They are parameters of `Rewrite.AdjustLtp`.
  The `check_overlap` allow-list is the one exception and is written out as
  `Validate.Permissible`.
- `check_species_labels`: it assigns into a copy of a row and leaves the
  table unchanged.
- NCBI name lookups (`names_to_taxid`), `preprocess_ltp`, `preprocess_gtdb`,
  `gtdb_taxids_from_metadata`, `non_wol_taxa_in_gtdb`, `gtdb_failed_names`,
  the `harmonize` command and the `scripts/` programs. They are lookups in
  external services and file plumbing.
- The consensus-tree builder. It comes from a package that is not part of
  this model.
- Floating point and numerical work:
  - the percentage of `seq_id` (the model returns the count and the length);
  - `row_mins` and `collapse_species_by_distance`;
  - the pandas frame and top-10 columns of `md_from_tree` (the model returns
    the detail rows);
  - `check_alignment`, which wraps an external aligner.
- `clean_tree`: it deletes a cached lookup attribute, and the model has no
  caches. `cut`'s `invalidate_caches` is left out for the same reason.
- Python set iteration order. The rule set is a duplicate-free sequence in
  order of first derivation. The final drop keeps table order. Each
  `get_polyphyletic` column is iterated row by row instead of over
  `unique()`, which gives the same sets and the same first failure.
- `Rewrite.AdjustLtp`: its contract says when it raises, which records
  survive and which are explicitly set. The lineage each record ends with is stated by
  `Rewrite.ApplyOverrides` and `Rewrite.ApplyRules` rather than end to end.
- `Mappings.NcbiToGtdb`: rows arrive with both taxonomies already split and
  stripped of rank prefixes, so the `IndexError` of a name without `__` in
  that function is not modelled.
- `TreeMap.SpeciesCover`: on `TypeError` the model leaves every flag as it
  was. The source has already set the flags of the nodes it visited before
  the unnamed tip. `TreeMap.GenomeRepresented` and `TreeMap.ToSpeciesAsTips`
  share this simplification.
- `TreeMap.Uniqify`: the contract does not claim that components occurring
  in a single tip are unchanged. That claim is false as written, because
  `str.replace` also rewrites longer components containing the shared one
  (`TreeMap.RenameReachesOtherParts`). The contract claims only that a tip
  none of whose components is listed more than once is unchanged. Nor does it
  claim that the k-th tip of a shared component ends with `component-k` in
  its name: that holds right after that component's pass
  (`TreeMap.RenameListSuffixes`), but a later pass can rewrite it
  (`TreeMap.LaterPassLosesSuffix`).
- `TreeMap.CutUncoveredSpecies`: its rank argument is unused, as in the
  source.
- `Graft.GraftFromOther`: the lookup targets must lie outside the LTP tree
  being walked, as they do when the lookup maps into the GTDB tree. The
  contract says the targets' child lists grow only by new, keepable nodes. It
  does not restate which copies those are in terms of the original clade;
  `Graft.GraftNode` does that for each single graft.
- `Graft.GraftNode`: a copy's keepable flag is tied to the keepable tips
  below it by `Graft.RecomputeCopy`, not restated in terms of the tips of
  the original clade.
- Sequences are strings. The DNA type and the metadata of FASTA records are
  not modelled.

## Findings

| source | as written | input that shows it | evidently intended | confidence | as-written member | corrected member |
|---|---|---|---|---|---|---|
| gg2/backbone_taxonomy.py:1303-1321 | for each pair of ranks, `continue` when the GTDB overlap is allowed, otherwise raise; the LTP check below is never reached, so an LTP name reused at two ranks passes | an empty GTDB table with one LTP row whose domain is `d__X`, whose phylum and class are both `Dup`, and whose lower ranks are empty | raise `ValueError` when either table reuses a non-permissible name at two ranks | not executed | `Validate.CheckOverlap` (with `Validate.LtpOverlapMissed`) | `Validate.CheckOverlapBoth` |
