# Vision Zero warrant scripts: a Dafny model

Four batch scripts of the Los Angeles Vision Zero "autowarrant" project use ArcGIS tables to
find street locations that qualify for a safety treatment. Underneath the geoprocessing calls,
each script is a small, deterministic counting or matching rule over records. This project
models those rules in Dafny and proves what they compute.

- **Centerline cleaning** (`centerline.dfy`, module `CenterlineCleaning`).
  - Every intersection row's FROM/TO street names are upper-cased and put in order.
  - For rows sorted by FEAT_SEQ, one pass joins the ASSETIDs and CL_NODE_IDs of each adjacent
    pair of rows with the same FEAT_SEQ into `cur_prev` identifiers. Each identifier is
    emitted twice.
  - The identifiers are then written back to the rows by index.
- **Road-diet benefit estimate** (`road_diet.dfy`, module `RoadDiet`).
  - The corridor tables are grouped by corridor id.
  - `PartyFilter` classifies a collision as discarded (None) or as code 0, 3 or 4, and adds a
    speeding flag.
  - `SegmentQuery` sorts the classified collisions of each corridor into seven exclusive
    counters and two speeding counters. It also extends the corridor's linking list with
    the CASE_IDs a road diet targets.
- **New-signal warrant** (`signal_warrant.dfy`, module `SignalWarrant`).
  - `PartyFilter` accepts a collision when the first two parties that remain after the
    excluded movements travel on crossing axes.
  - `SignalWarrantSearch` builds, per unsignalised intersection, a map from CASE_ID to date
    for accepted collisions and a bike/ped KSI count (KSI: killed or severely injured).
  - `CountByYear` keeps intersections with at least 5 collisions, sorts their collisions by
    date and counts each one-year window. It writes a row when some window holds 5 or more.
- **Protected-left tally** (`protected_left.dfy`, module `ProtectedLeft`).
  - For each signalised intersection, the left- and U-turn collisions are counted by the
    turning party's direction (N, S, E, W and everything else).
  - The five counts are written into the intersection's row in place.

`common.dfy` holds the shared `Option` type, Python's `list.index` and `max`, and the
collision and party records (module `Switrs`).

The model works as follows:
- Every database cursor is an input sequence of records.
- The party rows of a collision are the `parties` field of its record.
- A where clause is a predicate over the records, and the selection keeps table order.
- Dates are day numbers, so `timedelta(days=365)` is `+ 365`.
- Where Python's dict or set order decides what happens, the methods pick keys with `:|`. They
  return the order they picked as a ghost out-parameter, and the contracts hold for every
  order.
- Loops stay loops. Each method is proved against a specification function, and the lemmas
  next to it state what the scripts promise about that function.

## Model

| member | source | states |
|---|---|---|
| Common.IndexOf | visionzero-autowarrant-la/SafetyBenefitEstimation/ArcPy_RoadDietCalc.py:216 | `list.index(x)`: a position holding x, with no earlier position holding it |
| Common.Max | visionzero-autowarrant-la/NewSignals/SigWarrantSearch.py:134 | `max(list)`: an element of the list that no element exceeds |
| CenterlineCleaning.Upper | visionzero-autowarrant-la/CenterlineCleaning/ArcPy_boe_Int.py:61-66 | `upper()` keeps the length, maps each character to its upper-case form, yields an upper-case string, and leaves an upper-case string unchanged |
| CenterlineCleaning.LexLess | visionzero-autowarrant-la/CenterlineCleaning/ArcPy_boe_Int.py:61 | Python's `<` on strings: compared character by character by code, and a proper prefix is smaller |
| CenterlineCleaning.LexLessAsymmetric | visionzero-autowarrant-la/CenterlineCleaning/ArcPy_boe_Int.py:61 | never both a < b and b < a, so at most one branch of the test can describe a pair |
| CenterlineCleaning.LexLessTotal | visionzero-autowarrant-la/CenterlineCleaning/ArcPy_boe_Int.py:61 | of two different strings one is smaller, so the else branch takes the case To <= From |
| CenterlineCleaning.OrderedFacts | visionzero-autowarrant-la/CenterlineCleaning/ArcPy_boe_Int.py:59-66 | the normalised pair is in lexicographic order (smaller or equal first), holds exactly the two upper-cased names as a multiset, and both are upper-case |
| CenterlineCleaning.OrderedIdempotent | visionzero-autowarrant-la/CenterlineCleaning/ArcPy_boe_Int.py:61-66 | normalising an already normalised pair changes nothing |
| CenterlineCleaning.CollectNames | visionzero-autowarrant-la/CenterlineCleaning/ArcPy_boe_Int.py:54-67 | one (From_St, To_St) entry per row, in row order, each the normalised names of that row |
| CenterlineCleaning.WriteNames | visionzero-autowarrant-la/CenterlineCleaning/ArcPy_boe_Int.py:69-74 | entry i is written into row i, and only the names change; the pass completes exactly when both lists are long enough, and otherwise rows past the lists keep their names |
| CenterlineCleaning.NormaliseNames | visionzero-autowarrant-la/CenterlineCleaning/ArcPy_boe_Int.py:54-75 | after both loops every row carries its own normalised names and nothing else in the row changes |
| CenterlineCleaning.ParseDecimalInverse | visionzero-autowarrant-la/CenterlineCleaning/ArcPy_boe_Int.py:124-127 | `int(str(n)) == n`, for the decimal spelling the identifiers are made of |
| CenterlineCleaning.JoinIds | visionzero-autowarrant-la/CenterlineCleaning/ArcPy_boe_Int.py:124-127 | the identifier of a pair: the current row's canonical decimal spelling `str(int(...))`, an underscore, then the previous row's |
| CenterlineCleaning.JoinIdsInjective | visionzero-autowarrant-la/CenterlineCleaning/ArcPy_boe_Int.py:124-127 | a `cur_prev` identifier determines both numbers it was made from, the current one first |
| CenterlineCleaning.PairIndicesShared | visionzero-autowarrant-la/CenterlineCleaning/ArcPy_boe_Int.py:112-122 | every row that emits an identifier has index at least 1 and shares the previous row's FEAT_SEQ, so the first row never emits one |
| CenterlineCleaning.PairIndicesIncreasing | visionzero-autowarrant-la/CenterlineCleaning/ArcPy_boe_Int.py:117-129 | the emitting rows come in cursor order |
| CenterlineCleaning.PairIndicesComplete | visionzero-autowarrant-la/CenterlineCleaning/ArcPy_boe_Int.py:117-129 | every row that shares the previous row's FEAT_SEQ emits an identifier |
| CenterlineCleaning.ConcatenateIds | visionzero-autowarrant-la/CenterlineCleaning/ArcPy_boe_Int.py:110-130 | Asset_IDs and Node_IDs have length twice the number of adjacent equal-FEAT_SEQ pairs; positions 2k and 2k+1 both hold the identifier of the k-th pair, current row first |
| CenterlineCleaning.WriteIds | visionzero-autowarrant-la/CenterlineCleaning/ArcPy_boe_Int.py:132-137 | entry i of both lists goes to row i and the rest of the row is kept; the pass completes exactly when both lists cover the table |
| CenterlineCleaning.MergeDuplicateIds | visionzero-autowarrant-la/CenterlineCleaning/ArcPy_boe_Int.py:110-137 | the write-back completes exactly when the table has at most twice as many rows as pairs; rows 2k and 2k+1 receive the identifiers of the k-th pair, and later rows are unchanged |
| CenterlineCleaning.InPairsIndices | visionzero-autowarrant-la/CenterlineCleaning/ArcPy_boe_Int.py:122-136 | when every FEAT_SEQ group has exactly two rows, there are exactly as many identifiers as rows and the k-th pair is rows (2k, 2k+1), so each row receives its own pair's identifier |
| RoadDiet.SplitOn | visionzero-autowarrant-la/SafetyBenefitEstimation/ArcPy_RoadDietCalc.py:84 | `split(',')`: the pieces between commas, at least one, an empty string giving one empty piece |
| RoadDiet.JoinSplit | visionzero-autowarrant-la/SafetyBenefitEstimation/ArcPy_RoadDietCalc.py:84 | joining the pieces of `split(',')` with commas gives the string back |
| RoadDiet.SplitJoin | visionzero-autowarrant-la/SafetyBenefitEstimation/ArcPy_RoadDietCalc.py:84 | splitting a comma join of comma-free pieces gives the pieces back |
| RoadDiet.GroupingAppend | visionzero-autowarrant-la/SafetyBenefitEstimation/ArcPy_RoadDietCalc.py:28-34 | the grouping keeps file order: a table read in two parts gives each corridor its ids from the first part followed by those from the second |
| RoadDiet.GroupingMembership | visionzero-autowarrant-la/SafetyBenefitEstimation/ArcPy_RoadDietCalc.py:28-34 | a corridor's segment and direction lists have equal length, and a segment id is listed exactly when some row of that corridor names it |
| RoadDiet.ReadSegments | visionzero-autowarrant-la/SafetyBenefitEstimation/ArcPy_RoadDietCalc.py:26-34 | the keys are the corridors named in the table; each corridor's segment ids and directions are its rows' values in file order |
| RoadDiet.ReadIntersections | visionzero-autowarrant-la/SafetyBenefitEstimation/ArcPy_RoadDietCalc.py:36-43 | the keys are the corridors named in the table; each corridor's intersection ids are its rows' values in file order |
| RoadDiet.DirectionList | visionzero-autowarrant-la/SafetyBenefitEstimation/ArcPy_RoadDietCalc.py:83-84 | direction_f is the split at commas of the concatenation, in some order, of each distinct direction entry exactly once |
| RoadDiet.DirectionListOfOneEntry | visionzero-autowarrant-la/SafetyBenefitEstimation/ArcPy_RoadDietCalc.py:83-84 | when all segments carry the same direction entry, direction_f is that entry split at commas, whatever the set order |
| RoadDiet.Keeps | visionzero-autowarrant-la/SafetyBenefitEstimation/ArcPy_RoadDietCalc.py:182-196 | the party test: a driver (type 1) whose direction is one of the corridor's, any pedestrian (type 2), any bicyclist (type 4) |
| RoadDiet.Kept | visionzero-autowarrant-la/SafetyBenefitEstimation/ArcPy_RoadDietCalc.py:174-196 | the parties the loop appends to the two lists, in cursor order; never more than the collision has |
| RoadDiet.KeptMembership | visionzero-autowarrant-la/SafetyBenefitEstimation/ArcPy_RoadDietCalc.py:182-196 | a party is kept exactly when it is a driver whose direction is a corridor direction, a pedestrian or a bicyclist |
| RoadDiet.LeftTurnCode | visionzero-autowarrant-la/SafetyBenefitEstimation/ArcPy_RoadDietCalc.py:213-247 | the code under the gate: 3 exactly when no kept party turned left ('E'); otherwise 4 or 0, decided by the first left-turner's direction |
| RoadDiet.Code | visionzero-autowarrant-la/SafetyBenefitEstimation/ArcPy_RoadDietCalc.py:170-255 | the code is always 0, 3 or 4 |
| RoadDiet.PartyFilter | visionzero-autowarrant-la/SafetyBenefitEstimation/ArcPy_RoadDietCalc.py:158-263 | the party loop and decision return None when no party is kept; otherwise they return the code of the kept parties and a flag that is true exactly when some party, kept or not, is cited under section 22350 |
| RoadDiet.FilterNoneIff | visionzero-autowarrant-la/SafetyBenefitEstimation/ArcPy_RoadDietCalc.py:174-259 | the result is None exactly when no party passes the keep test |
| RoadDiet.CodeThreeIff | visionzero-autowarrant-la/SafetyBenefitEstimation/ArcPy_RoadDietCalc.py:201-251 | code 3 exactly when at least two parties are kept, alcohol is not 'Y', the PCF is in the category list and no kept party was turning left ('E') |
| RoadDiet.CodeFourIff | visionzero-autowarrant-la/SafetyBenefitEstimation/ArcPy_RoadDietCalc.py:213-243 | code 4 exactly when the same gate holds and the first kept left-turner's direction has its opposite (N/S, E/W) among the kept directions |
| RoadDiet.OnCorridor | visionzero-autowarrant-la/SafetyBenefitEstimation/ArcPy_RoadDietCalc.py:94 | the where clause: SegID among the corridor's segments, or IntID among its intersections at DISTANCE 0; a NULL field matches nothing |
| RoadDiet.CorridorCollisionsMembership | visionzero-autowarrant-la/SafetyBenefitEstimation/ArcPy_RoadDietCalc.py:94-98 | the cursor yields exactly the collisions on a corridor segment, or at a corridor intersection at distance 0 |
| RoadDiet.CategoryOf | visionzero-autowarrant-la/SafetyBenefitEstimation/ArcPy_RoadDietCalc.py:110-134 | the counter a collision goes to: none when PartyFilter discards it, non-road-diet exactly for code 0; otherwise pedestrian before bicycle before sideswipe, then left turn exactly for code 4 and rear end exactly for code 3 with type 'C' |
| RoadDiet.CategoriesPartition | visionzero-autowarrant-la/SafetyBenefitEstimation/ArcPy_RoadDietCalc.py:110-143 | the seven counters sum to the number of collisions PartyFilter keeps, so total_col counts every such collision once |
| RoadDiet.SpeedingCountsBounded | visionzero-autowarrant-la/SafetyBenefitEstimation/ArcPy_RoadDietCalc.py:136-140 | primary plus secondary 22350 counts never exceed the number of collisions PartyFilter keeps |
| RoadDiet.QualifyingEntriesCount | visionzero-autowarrant-la/SafetyBenefitEstimation/ArcPy_RoadDietCalc.py:110-134 | the linking list gains one CASE_ID for every kept collision that is not in the non-road-diet counter |
| RoadDiet.CorridorTally | visionzero-autowarrant-la/SafetyBenefitEstimation/ArcPy_RoadDietCalc.py:98-143 | the collision loop yields every counter over the corridor's collisions, and appends the targeted CASE_IDs to the linking list in cursor order |
| RoadDiet.SegmentQuery | visionzero-autowarrant-la/SafetyBenefitEstimation/ArcPy_RoadDietCalc.py:50-155 | every corridor gets its extended linking list and counters, over the collisions its where clause selects and the directions of some set order |
| RoadDiet.CsvTableToList | visionzero-autowarrant-la/SafetyBenefitEstimation/ArcPy_RoadDietCalc.py:19-47 | reading both tables and querying gives each corridor of the segment table the outcome over its file-order segments, directions and intersections |
| SignalWarrant.PartyFilter | visionzero-autowarrant-la/NewSignals/SigWarrantSearch.py:76-101 | accepts exactly when at least two parties remain after the excluded movements and the first two travel on crossing axes |
| SignalWarrant.Accepts | visionzero-autowarrant-la/NewSignals/SigWarrantSearch.py:90-101 | the verdict: at least two remaining parties, and the first two on crossing axes (one N or S, the other E or W) |
| SignalWarrant.RemainingAppend | visionzero-autowarrant-la/NewSignals/SigWarrantSearch.py:90-92 | the filtered direction list keeps cursor order |
| SignalWarrant.RemainingMembership | visionzero-autowarrant-la/NewSignals/SigWarrantSearch.py:85-92 | a direction is in the filtered list exactly when some party with a movement outside A, C, K, N, O, Q (or NULL) travels in it |
| SignalWarrant.LaterPartiesIgnored | visionzero-autowarrant-la/NewSignals/SigWarrantSearch.py:95-101 | once two parties remain, further parties do not change the verdict |
| SignalWarrant.SwapFirstTwo | visionzero-autowarrant-la/NewSignals/SigWarrantSearch.py:95-101 | the test is symmetric in the first two remaining parties |
| SignalWarrant.AtIntersection | visionzero-autowarrant-la/NewSignals/SigWarrantSearch.py:53 | the where clause: IntID equals the intersection, DISTANCE at most 100, ALCOHOL_INVOLVED NULL |
| SignalWarrant.AcceptedDatesKeys | visionzero-autowarrant-la/NewSignals/SigWarrantSearch.py:57-60 | the collision map holds exactly the CASE_IDs of accepted collisions |
| SignalWarrant.AcceptedDatesValue | visionzero-autowarrant-la/NewSignals/SigWarrantSearch.py:59-60 | with distinct CASE_IDs, each accepted collision is mapped to its own date |
| SignalWarrant.KsiCount | visionzero-autowarrant-la/NewSignals/SigWarrantSearch.py:62-66 | the bike/ped KSI count never exceeds the number of selected collisions |
| SignalWarrant.CollectIntersection | visionzero-autowarrant-la/NewSignals/SigWarrantSearch.py:57-66 | the collision loop builds the accepted CASE_ID-to-date map; it counts bike/ped KSI collisions over every selected collision, the filter notwithstanding |
| SignalWarrant.CollectAll | visionzero-autowarrant-la/NewSignals/SigWarrantSearch.py:35-69 | every intersection gets an entry in both dictionaries, computed over the collisions its where clause selects |
| SignalWarrant.Items | visionzero-autowarrant-la/NewSignals/SigWarrantSearch.py:114 | `items()` lists every key of the map once with its value |
| SignalWarrant.SortByDate | visionzero-autowarrant-la/NewSignals/SigWarrantSearch.py:114 | `sorted(..., key=itemgetter(1))`, an insertion sort by date keeping equal dates in input order; same length as its input |
| SignalWarrant.InsertByDateSorted | visionzero-autowarrant-la/NewSignals/SigWarrantSearch.py:114 | inserting into a date-sorted list keeps it sorted and adds exactly the new pair |
| SignalWarrant.SortByDateSorted | visionzero-autowarrant-la/NewSignals/SigWarrantSearch.py:114 | sorting by date yields a date-ordered permutation of the pairs |
| SignalWarrant.Windows | visionzero-autowarrant-la/NewSignals/SigWarrantSearch.py:119-131 | lenslist: one count per date, the number of dates in the inclusive range [d, d + 365] |
| SignalWarrant.WindowCountBounds | visionzero-autowarrant-la/NewSignals/SigWarrantSearch.py:119-131 | every window count is between 1 and the number of collisions |
| SignalWarrant.CountWindows | visionzero-autowarrant-la/NewSignals/SigWarrantSearch.py:119-131 | all_dates are the sorted dates; lenslist[i] is the number of dates in the inclusive range [d_i, d_i + 365] |
| SignalWarrant.LatestQualifying | visionzero-autowarrant-la/NewSignals/SigWarrantSearch.py:136-145 | the latest window whose count reaches 5: it qualifies and no later one does |
| SignalWarrant.SelectAsWritten | visionzero-autowarrant-la/NewSignals/SigWarrantSearch.py:140-144 | `max(greater_than_five)`: the largest of the first positions `lenslist.index(v)` of the qualifying counts v |
| SignalWarrant.AsWrittenStartIndex | visionzero-autowarrant-la/NewSignals/SigWarrantSearch.py:140-144 | the selection loop as written gives the maximum, over qualifying counts v, of the first index holding v |
| SignalWarrant.AsWrittenQualifies | visionzero-autowarrant-la/NewSignals/SigWarrantSearch.py:140-145 | the index the script reports starts a window of at least 5 |
| SignalWarrant.AsWrittenNoLaterThanLatest | visionzero-autowarrant-la/NewSignals/SigWarrantSearch.py:140-145 | that index is never later than the latest qualifying window |
| SignalWarrant.AsWrittenMissesLatestWindow | visionzero-autowarrant-la/NewSignals/SigWarrantSearch.py:140-145 | for dates 0, 1, 2, 3, 4, 366 the script reports day 0, while the latest qualifying window starts at day 1 |
| SignalWarrant.LatestStartIndex | visionzero-autowarrant-la/NewSignals/SigWarrantSearch.py:140-145 | the corrected selection loop returns the latest qualifying index |
| SignalWarrant.Outcome | visionzero-autowarrant-la/NewSignals/SigWarrantSearch.py:110-151 | with the corrected selection: a written row has at least 5 collisions, the intersection's id and its sorted pairs, and its start date is that of a window holding at least 5 after which no window does |
| SignalWarrant.OutcomeAsWritten | visionzero-autowarrant-la/NewSignals/SigWarrantSearch.py:110-151 | the row the script writes: the same gate and fields, with a start date whose window holds at least 5, taken at `max(greater_than_five)` |
| SignalWarrant.OutcomeAsWrittenAgrees | visionzero-autowarrant-la/NewSignals/SigWarrantSearch.py:136-151 | the script and the corrected selection write rows for the same intersections, equal except for the start date, and the script's date is never the later one |
| SignalWarrant.AsWrittenRowExample | visionzero-autowarrant-la/NewSignals/SigWarrantSearch.py:140-151 | for collisions on days 0, 1, 2, 3, 4 and 366 the script's row starts on day 0, the corrected row on day 1 |
| SignalWarrant.OutcomeNoneIff | visionzero-autowarrant-la/NewSignals/SigWarrantSearch.py:110-138 | no row exactly when there are fewer than 5 collisions or no window reaches 5 |
| SignalWarrant.EvaluateIntersection | visionzero-autowarrant-la/NewSignals/SigWarrantSearch.py:109-151 | the body of the intersection loop, with the corrected selection, yields the outcome of its date-sorted pairs, for the item order it used |
| SignalWarrant.EvaluateIntersectionAsWritten | visionzero-autowarrant-la/NewSignals/SigWarrantSearch.py:109-151 | the body of the intersection loop as written yields the script's row for its date-sorted pairs |
| SignalWarrant.CountByYear | visionzero-autowarrant-la/NewSignals/SigWarrantSearch.py:104-151 | every written row is its intersection's outcome and every qualifying intersection is written, once each, whatever the dictionary order |
| SignalWarrant.SignalWarrantSearch | visionzero-autowarrant-la/NewSignals/SigWarrantSearch.py:23-72 | the rows written are, for each intersection, the outcome over its accepted collisions' dates and its KSI count |
| ProtectedLeft.HeadingOf | visionzero-autowarrant-la/ProtectedLeft/ProtLWarrantSearch.py:47-56 | a direction goes to N, S, E or W exactly when it is that one-letter string; anything else, NULL included, is not stated |
| ProtectedLeft.At | visionzero-autowarrant-la/ProtectedLeft/ProtLWarrantSearch.py:46 | the collisions the test `row2[1] == row[0]` admits, in table order, never more than the table holds |
| ProtectedLeft.Count | visionzero-autowarrant-la/ProtectedLeft/ProtLWarrantSearch.py:45-56 | the five counts a scan of the whole table gives: each admitted collision raises the counter of its heading by one |
| ProtectedLeft.AtMembership | visionzero-autowarrant-la/ProtectedLeft/ProtLWarrantSearch.py:46 | the collisions counted for an intersection are exactly those whose IntID equals its ASSETID (NULL equal to NULL, as Python's `==` has it) |
| ProtectedLeft.CountTotal | visionzero-autowarrant-la/ProtectedLeft/ProtLWarrantSearch.py:45-56 | N + S + E + W + NotStated equals the number of collisions at the intersection |
| ProtectedLeft.OtherIntersectionsIgnored | visionzero-autowarrant-la/ProtectedLeft/ProtLWarrantSearch.py:46 | a collision whose IntID differs from the ASSETID (another intersection, or a NULL IntID against a non-NULL ASSETID) leaves the counts unchanged wherever it stands in the table |
| ProtectedLeft.CountOnlyAt | visionzero-autowarrant-la/ProtectedLeft/ProtLWarrantSearch.py:45-56 | the counts depend only on the collisions at the intersection |
| ProtectedLeft.CountByHeading | visionzero-autowarrant-la/ProtectedLeft/ProtLWarrantSearch.py:45-56 | each counter in closed form: N, S, E and W are the numbers of the intersection's collisions travelling exactly that way, NotStated the number of the rest |
| ProtectedLeft.CountDirections | visionzero-autowarrant-la/ProtectedLeft/ProtLWarrantSearch.py:37-56 | the inner loop's five counters are the intersection's counts over the whole collision table |
| ProtectedLeft.Updated | visionzero-autowarrant-la/ProtectedLeft/ProtLWarrantSearch.py:60-69 | the updated row keeps its ASSETID; each of its five fields is the number of the intersection's collisions with that heading, and they sum to the number of collisions at it |
| ProtectedLeft.ProtectedLeftSearch | visionzero-autowarrant-la/ProtectedLeft/ProtLWarrantSearch.py:22-74 | every row's count fields are overwritten in place with its counts and its ASSETID is kept; Collision_Table gets one such row per intersection in cursor order; ct ends at the number of intersections |

## Left out

- The arcpy geoprocessing: field mappings, feature-class conversion, selection and row deletion, FindIdentical with its 200-foot tolerance, JoinField, Integrate and DeleteIdentical. `ArcPy_boe_Int.py` lines 9-51, 80-106 and 139-151 are foreign spatial operations. The model starts from the rows those operations leave behind: the cleaned intersection layer, and the duplicate layer in FEAT_SEQ order.
- File and console I/O: opening and writing the CSV files, the `print` statements, `ListFields`, the workspace paths, and the `ct % 10` progress counter of `SigWarrantSearch.py`. `CountByYear` returns its rows instead of writing them with `writerow`.
- Where clauses are predicates over the records, not SQL strings. These are `OnCorridor`, `AtIntersection` and the CASE_ID party query. An empty `IN ()` list, which is malformed SQL, selects nothing here. The road-diet intersection ids are integers, whereas the script reads them as strings from the CSV. The IntID test of `ProtLWarrantSearch.py` is a Python comparison inside the loop, and the model keeps it as the loop test of `CountDirections`.
- `datetime`: dates are integer day numbers, and `timedelta(days=365)` adds 365. Distances are `real`.
- `int()` on malformed input, which raises `ValueError` in the scripts, is not modelled. `ConcatenateIds` and `MergeDuplicateIds` require identifiers that are decimal digit strings. Several values are taken as already parsed: `int(row[0])` of the corridor tables, `int(collision[0])` (the CASE_ID, `Collision.caseId`, in both `ArcPy_RoadDietCalc.py` and `SigWarrantSearch.py`), and `int(party[4])` (the OAF section, `Party.oafSection`).
- Python dict and set order is the runtime's. `Items`, `DirectionList`, `SegmentQuery` and `CountByYear` pick an arbitrary order, and their contracts hold for every order. Output row order is not modelled.
- Upper-casing is ASCII only. Python's Unicode case mapping is not modelled.
- Defects that stop the scripts before the modelled logic runs are not modelled. These are the commented-out `arcpy` import and the undefined `shp` in `ArcPy_boe_Int.py`, and the missing `datetime` import in `SigWarrantSearch.py`. The model follows the rule logic the code spells out.
- SegmentQuery: the linking lists it extends in place are returned as a new map.
- CountByYear: requires every key of the collision dictionary to be a key of the KSI dictionary. `SignalWarrantSearch` always fills both, and otherwise the script raises `KeyError`.
- SortByDateSorted: proves the result is date-ordered and a permutation, but does not prove that `sorted` is stable. Only ties between equal dates would differ, and the window counts, which depend only on the dates, are the same either way.
- WriteNames and WriteIds: the `IndexError` of running past the lists is the `ok` result, and the rows before the failing index are updated. The update cursor's `updateRow` is an array write.
- PartyFilter (SigWarrantSearch.py): the script returns `True` or falls through to `None`. The model returns `true` or `false`.
- Outcome: reports the corrected start date, the latest qualifying window, not the script's (see Findings). `OutcomeAsWritten` is the script's row, and `OutcomeAsWrittenAgrees` relates the two.
- EvaluateIntersection: uses the corrected selection. `EvaluateIntersectionAsWritten` is the loop body as written.
- CountByYear: writes the rows of `Outcome`, with the corrected start date. The script's rows differ only in that date, as `OutcomeAsWrittenAgrees` states.
- SignalWarrantSearch: returns the rows of `CountByYear`, so also with the corrected start date.

## Findings

| source | as written | input that shows it | evidently intended | confidence | as-written member | corrected member |
|---|---|---|---|---|---|---|
| visionzero-autowarrant-la/NewSignals/SigWarrantSearch.py:140-145 | `latest_qualifying_period_index` is the maximum of `lenslist.index(length)` over qualifying counts. `index` returns the FIRST position holding that count, so a later window with a repeated count is never chosen | collision dates on days 0, 1, 2, 3, 4 and 366 give window counts [5, 5, 4, 3, 2, 1]; both fives are recorded as index 0, so the reported start is day 0 | the latest window whose count is at least 5: index 1, day 1 | not executed | SignalWarrant.AsWrittenMissesLatestWindow | SignalWarrant.LatestQualifying |
