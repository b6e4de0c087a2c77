# canada-votes table logic in Dafny

This project models the table logic of the canada-votes package. That logic runs
before and after the geometry work. The model has four parts:

- **Riding map** (`utils.py`). The name-to-number riding map is built from the
  first row of each per-riding results file, with `"` stripped from the name
  and the last write winning. The model also covers:
  - its inverse;
  - translating riding names to numbers (`apply_riding_map`);
  - keeping the known names (`validate_ridings`);
  - the provinces a list of ridings spans, read from the two-digit prefix of
    the riding number (`provs_from_ridings`);
  - the zero-filled party difference over a keyed index (`party_difference`).
- **Poll-id numbers** (`get_int_part`). The id is stripped, matched against
  `[a-zA-Z]*[0-9]+`, and the match is converted with `int()`. There are three
  outcomes:
  - an integer;
  - Python's `None`;
  - the `ValueError` that `int()` raises when the match starts with letters.
- **Federal vote tables** (`votes.py`). The model covers:
  - reading a province archive;
  - dropping "S/R" (special voting rules) rows;
  - `TotalVotes` per (district, poll), attached by a left merge;
  - `PD_NUM`;
  - the riding filter of `load_vote_data`;
  - the election-day back-fill of `add_eday_votes`, a group sum left-merged
    onto the advance-poll rows.
- **Ontario tables** (`ontario.py`). The model covers:
  - dropping by-election rows;
  - normalising district names (em-dash to `--`, and the four-character prefix
    of the return table);
  - the riding filter;
  - the party-code merge with the "IND"/"Independent" default;
  - `Independent-NN` labels for districts with several Independents;
  - `PD_NUM` (0 for advance polls);
  - `make_candidate_map`.
- **Province codes** (`constants.py`). The fixed province-code table.

Tables are sequences of row datatypes. pandas operations are generic functions
in the module `Frames`:

- `Column`;
- `groupby(...).sum()` as `GroupSum` and `SumWhere`;
- `merge(how="left")` as `LeftJoin`.

`drop_duplicates` is `Seqs.Distinct`. The sorted key order in which `groupby`
visits its groups is `StringOrder.SortedKeys`, built on Python's string `<`.

File contents are given as values:

- a stored riding map;
- a map from province code to the files of that province's archive;
- the data rows of the Ontario tables.

Some functions appear inside others as parameters: `get_int_part`, the
`Independent-{k:02d}` format, a province loader and the per-poll PD_NUM.
The properties are proved for every such parameter. Top-level members bind
each parameter to the real function: `LoadOntarioVoteData` (PD_NUM),
`IndependentRenames` (the label format), `LoadVoteDataProv` (`get_int_part`)
and `LoadFederalVoteData` (the province loader `load_vote_data_prov`).

Two behaviours of the code are worth stating directly:

- **Poll ids without a number.**
  - The federal loader fails when `astype("int")` meets a `None`
    (`Votes.PollNumbers`, error `MissingPollNumber`).
  - Both loaders fail when a letter-led id makes `int()` raise.
  - The Ontario loader keeps a `None` as a missing `PD_NUM`.
- **Independent labels.** The rename map is keyed by the candidate name
  alone. A name that is an Independent in two districts therefore takes the
  label of the district visited last. The model keeps that overwrite
  (`Ontario.RenameMap`), so the distinctness lemmas require that the name
  stands in no other district.

## Model

| member | source | states |
|---|---|---|
| Constants.ProvCodesCount | constants.py:12-26 | the table has exactly thirteen provinces and territories |
| Constants.ProvCodesInjective | constants.py:13-25 | no two provinces share a code |
| Constants.ProvCodesTwoDigit | constants.py:13-25 | every code is between 10 and 62, and Ontario is 35 |
| Constants.CodeProvs | constants.py:12-26 | the code-to-province table inverts the province table in both directions |
| Utils.MatchLettersDigits | utils.py:29 | `re.match` gives the longest prefix in the language of `[a-zA-Z]*[0-9]+`, and nothing exactly when no prefix is in that language |
| Utils.IntPartOfStripped | utils.py:29-32 | on a stripped id there are three outcomes. A value comes exactly when the id starts with a digit, and it is the value of the leading digit run. `None` comes exactly when no prefix matches. An error comes exactly when a letter-led prefix matches |
| Utils.GetIntPartIgnoresPadding | utils.py:29 | whitespace around an id does not change its numeric part |
| Utils.GetIntPartOfNumeral | utils.py:29-31 | a numeral followed by a non-digit ("17A", "17") reads back as its number |
| Utils.GetIntPartNoDigits | utils.py:29-32 | an id without digits ("S/R", "ADV") gives `None` |
| Utils.GetIntPartLettersFirst | utils.py:29-31 | letters before a numeral ("A17") make `int()` fail |
| Utils.RidingProvince | utils.py:186 | a riding number made of a province code and three digits (35104) has that code as its two-digit prefix and maps back to its province |
| Utils.FoldRidingFiles | utils.py:116-125 | folding a province's files into the map succeeds exactly when every matching file has a data row. Otherwise it fails naming the first such file. On success the keys are the old keys plus the stored names, a name not stored keeps its number, and a stored name has the number of the last file naming it |
| Utils.UpdateRidingMapFile | utils.py:98-125 | an unknown province and a missing archive fail with their own errors. Otherwise the update is the fold of that province's files into the stored map, or into an empty map when none is stored |
| Utils.LastWriteWins | utils.py:117-125 | a file whose name no later file repeats leaves its own number under its stripped name |
| Utils.StoredNamesQuoteFree | utils.py:124 | after the update no stored name starts or ends with `"`, if none did before |
| Utils.RebuildIdempotent | utils.py:116-125 | rebuilding from the same files gives the same map |
| Utils.InvRidingMap | utils.py:161-162 | the inverse contains every item's number. Each of its entries is an item. A number no later item repeats maps to its item's name |
| Utils.InverseRoundTrip | utils.py:161-162 | for an injective map, `inv[m[n]] == n` for every name `n` |
| Utils.InverseKeys | utils.py:161-162 | the inverse's keys are exactly the map's values |
| Utils.InverseSound | utils.py:161-162 | every number of the inverse is the map's number for the name it gives |
| Utils.ApplyRidingMap | utils.py:228-229 | this succeeds exactly when every name is known. On success it keeps the length and gives `map[ridings[i]]` at position `i`. On failure it names the first unknown riding |
| Utils.ValidateRidings | utils.py:248-250 | the known names form an order-preserving subsequence of the input, keeping each known name's multiplicity |
| Utils.ValidateIdempotent | utils.py:250 | validating a validated list changes nothing |
| Utils.ValidateThenApply | utils.py:228-250 | a validated list can always be looked up. A list passes validation unchanged exactly when it can be looked up |
| Utils.ApplyThenInvert | utils.py:161-162 | for an injective map, looking names up and then inverting gives back the names |
| Utils.ProvsFromRidings | utils.py:181-189 | this fails exactly when a name is unknown, naming the first such name. On success it gives the two-digit prefixes of the ridings, each once, covering every riding, in first-appearance order |
| Utils.PartySlice | utils.py:300-306 | the cross-section holds exactly the index entries of that party, with their values |
| Utils.PartyDifference | utils.py:299-327 | this fails exactly when a party has no rows. On success the index is the union of both parties' indexes. A missing value counts as 0 and each entry is the first party's value minus the second's |
| Utils.PartyDifferenceAntisymmetric | utils.py:311-325 | swapping the parties negates every difference over the same index |
| Text.ReplaceCharConcat | ontario.py:84-87 | `replace` rewrites a string piece by piece: each em-dash becomes `--` and every other character stays |
| Text.ContainsAt | votes.py:91 | `sub in s` holds exactly when `sub` occurs at some position of `s` |
| Decimal.Pad2Injective | ontario.py:119 | different counters give different `{k:02d}` numerals |
| Decimal.PrefixOfCode | utils.py:186 | a two-digit code followed by `j` digits has that code as its first two digits |
| Frames.GroupSum | votes.py:94-98 | the grouped table has one row per key present among the rows, each key once, with the sum of the values of that key's rows |
| Frames.GroupSumTotal | votes.py:94-98 | the group sums add up to the column total, so no row is lost or counted twice |
| Frames.LeftJoinRows | votes.py:99 | every merged row pairs a left row with a right row of the same key, or with nothing when no right row has that key. Every left row appears |
| Frames.LeftJoinUniqueKeys | votes.py:99 | on a key unique among the right rows, the merge keeps the left rows' count and order |
| Seqs.DistinctFirstAppearance | ontario.py:110 | `drop_duplicates` lists the elements in order of first appearance |
| StringOrder.SortedKeys | ontario.py:112 | `groupby` visits each district once, in increasing string order |
| StringOrder.SortedUnique | ontario.py:112 | that visiting order is determined by the set of districts alone |
| Votes.ArchiveRows | votes.py:76-82 | the table holds exactly the rows of the archive files whose names match `pollresults.*csv` |
| Votes.ArchiveRowsConcat | votes.py:76-82 | reading two runs of files one after the other concatenates their tables, so the rows keep file order and multiplicity |
| Votes.ArchiveRowsSingle | votes.py:80-82 | one file contributes all its rows, in order, when its name matches `pollresults.*csv`, and nothing otherwise |
| Votes.AttachTotals | votes.py:94-99 | each row keeps its place and gets the sum of Votes over the rows of its (DistrictName, Poll) |
| Votes.PollNumbers | votes.py:103 | this succeeds exactly when every poll id has a number, giving each row's number. It fails at the first id on which `int()` raises. It fails with a missing-number error when no id raises but some id has no number |
| Votes.BuildVoteTable | votes.py:94-103 | the table loads exactly when every poll id has a number. It keeps the rows in order. Every TotalVotes is its poll's sum, and every `PD_NUM` is the id's number |
| Votes.LoadVoteDataProv | votes.py:32-105 | an unknown province and a missing archive fail. An archive without any `pollresults.*csv` file fails too, because dropping the French columns from the empty frame raises. Otherwise the rows are the archive's polling-station rows in order, with no "S/R" row, consistent totals and numeric poll ids |
| Votes.SameTotalAtSamePoll | votes.py:94-99 | rows sharing (DistrictName, Poll) carry the same TotalVotes |
| Votes.VotesWithinTotal | votes.py:94-99 | with non-negative votes, no row has more votes than its poll's total |
| Votes.PollTotalsPartition | votes.py:94-98 | the per-poll totals add up to all the votes of the table |
| Votes.KeepRidings | votes.py:131 | this keeps, in order and with their multiplicity, exactly the rows whose DistrictNumber is requested |
| Votes.LoadProvinces | votes.py:127-132 | the loop succeeds exactly when every province loads |
| Votes.LoadProvincesRows | votes.py:127-132 | the loaded table holds exactly the requested-riding rows of the province tables, each as many times as the loaded provinces hold it |
| Votes.LoadProvincesConcat | votes.py:127-132 | loading two runs of provinces one after the other concatenates their tables, in loop order |
| Votes.LoadProvincesSingle | votes.py:128-132 | one province gives its table's requested-riding rows, in order, or the error of its load |
| Votes.LoadVoteData | votes.py:123-134 | this succeeds exactly when the province of every requested riding loads. Every row is of a requested riding, every requested-riding row of those provinces is present, and each row occurs as many times as the loaded provinces hold it |
| Votes.LoadFederalVoteData | votes.py:32-134 | with every province loaded by `load_vote_data_prov`, this succeeds exactly when the archive of each requested riding's province is present, holds a `pollresults` file and gives every polling-station row a poll number. Every row is then a polling-station row of an archive, of a requested riding, with its poll number as PD_NUM |
| Votes.FederalProvince | votes.py:32-129 | loading one province code through `load_vote_data_prov` succeeds exactly when its archive loads, and then gives only that archive's polling-station rows, each with its poll number |
| Votes.LoadVoteDataCounts | votes.py:123-134 | when each province's table holds only its own ridings, a row of an unrequested riding never occurs, and a row of a requested riding occurs exactly as often as in its province's table |
| Votes.AddEdayVotes | votes.py:180-193 | the back-fill keeps the advance rows. A row has election-day sums exactly when some election-day row has its (DistrictName, Party, PD_NUM), and then the sums are the Votes and TotalVotes over those rows |
| Votes.EdayGroupsPartition | votes.py:180-189 | every election-day row is counted in exactly one group |
| Votes.BackfillCoversRows | votes.py:180-193 | with non-negative votes, a back-filled sum is at least the votes of any matching election-day row |
| Ontario.DropByElections | ontario.py:50-55 | the kept rows are, in order, exactly the rows whose event does not contain "By-elections", each general-election row as many times as in the input |
| Ontario.DropByElectionsConcat | ontario.py:50-55 | the mask works row by row: dropping from two tables stacked is dropping from each |
| Ontario.DropByElectionsSingle | ontario.py:50-55 | a single row is kept exactly when its event does not contain "By-elections" |
| Ontario.DropByElectionsIdempotent | ontario.py:50-55 | dropping by-elections twice is dropping them once |
| Ontario.NormaliseName | ontario.py:84-85 | a normalised name has no em-dash, adds no character but `-`, and leaves a name without em-dash unchanged |
| Ontario.NormaliseIdempotent | ontario.py:84-85 | normalising twice is normalising once |
| Ontario.ReturnNameMatchesCandidateName | ontario.py:84-87 | a return-table name behind a four-character prefix normalises to its candidate-table name |
| Ontario.PrepareCandidates | ontario.py:49-94 | the rows are exactly the renamed general-election candidate rows in the requested ridings. None has an em-dash |
| Ontario.PrepareCandidatesConcat | ontario.py:52-94 | preparing works row by row, so the prepared rows keep the input order and multiplicity |
| Ontario.PrepareCandidatesSingle | ontario.py:52-94 | one row becomes its renamed self when it is of the general election and its normalised district is requested, and nothing otherwise |
| Ontario.PrepareReturns | ontario.py:49-94 | the rows are exactly the renamed general-election return rows in the requested ridings. None has an em-dash |
| Ontario.PrepareReturnsConcat | ontario.py:54-94 | preparing works row by row, so the prepared rows keep the input order and multiplicity |
| Ontario.PrepareReturnsSingle | ontario.py:54-94 | one row becomes its renamed self, with the four-character prefix dropped, when it is of the general election and its normalised district is requested, and nothing otherwise |
| Ontario.AttachParties | ontario.py:97-103 | every merged candidate comes from a candidate row and every candidate row appears. A missing code becomes "IND"/"Independent". Otherwise the party is missing exactly when the code is unknown. With unique codes the row count is kept |
| Ontario.AttachPartiesKeeps | ontario.py:97-103 | the party merge keeps each row's election, district name and riding filter, so merged candidates stay general-election rows of the selected ridings |
| Ontario.IndependentPairs | ontario.py:107-110 | the (district, candidate) pairs of the Independent rows, each once |
| Ontario.IndependentPairsOrder | ontario.py:107-110 | the pairs are in order of first appearance: a pair listed before another has an Independent row before every row of the other |
| Ontario.DistrictIndependents | ontario.py:114 | a district's Independents, each once: exactly the names paired with that district |
| Ontario.DistrictIndependentsOrder | ontario.py:112-114 | a district's Independents are in the order their pairs first appear |
| Ontario.DistrictIndependentsFirstAppearance | ontario.py:107-114 | a district's Independents are in the order of their first Independent row in the candidate table |
| Ontario.IndependentLabelInjective | ontario.py:118-120 | different counters give different `Independent-NN` labels |
| Ontario.LabelFrom | ontario.py:113-120 | the inner loop gives the `i`-th name the label of counter `k + i` and leaves other names alone |
| Ontario.RenameMapKeys | ontario.py:111-120 | a name is renamed exactly when it is an Independent of some district with several |
| Ontario.RenameMapValue | ontario.py:111-120 | a renamed name carries the label of its position in the last district, in visiting order, that relabels it |
| Ontario.ApplyRenames | ontario.py:121-123 | every row whose candidate is renamed gets the label as Party. Nothing else changes |
| Ontario.IndependentLabelled | ontario.py:107-120 | the `n`-th Independent of a district with several is labelled `Independent-{n+1:02d}` when the name stands in no other district |
| Ontario.LabelsFollowFirstAppearance | ontario.py:107-120 | in a district with several Independents, one with an Independent row before any row of another gets the smaller counter, when neither name stands in another district |
| Ontario.LabelsDistinctInDistrict | ontario.py:107-123 | two Independents of one district get different labels when neither name stands in another district |
| Ontario.LoneIndependentKept | ontario.py:115 | a district's only Independent is not relabelled when the name stands in no other district |
| Ontario.ProcessCandidates | ontario.py:49-123 | every returned candidate stands for a prepared candidate row, with the same election, district, number and name, and every prepared row has one. With unique party codes there is exactly one candidate per prepared row. All are of the general election, em-dash free and in the requested ridings |
| Ontario.PdNum | ontario.py:126-132 | an advance poll gets 0. Otherwise the poll gets its number, a missing value when it has none, and an error exactly when `int()` raises |
| Ontario.PdNums | ontario.py:126-132 | this succeeds exactly when every poll number is accepted, and then gives each row its PD_NUM in order |
| Ontario.ProcessReturns | ontario.py:49-132 | the return table holds the prepared rows in order, each with its PD_NUM |
| Ontario.ProcessReturnsOk | ontario.py:126-132 | the return table loads exactly when every prepared poll number is accepted |
| Ontario.ProcessReturnsRows | ontario.py:54-132 | every loaded return row is a renamed general-election row in the requested ridings, with its PD_NUM |
| Ontario.LoadOntarioVoteData | ontario.py:17-137 | the load fails exactly when a prepared poll number makes `int()` raise. The candidate table stands for exactly the prepared candidate rows. The return table holds the prepared return rows in order, each with its PD_NUM. Both are general-election, em-dash free and restricted to the ridings |
| Ontario.CandidateMap | ontario.py:201-205 | the keys are exactly the districts present. For each (district, party) the value is the candidate of the last such row |
| Ontario.LastCandidateSound | ontario.py:201-205 | the map's candidate stands for that party in that district, in a row no later row of the same pair follows |

## Left out

- **Not part of this model:**
  - file, zip, CSV and JSON reading and writing (utils.py:35-78, 99-129);
  - the CSV encodings;
  - the dropping and renaming of French columns;
  - the `[0]` selection of the Ontario archive's files (ontario.py:37-41).

  The contents of all of these are inputs.
- **get_riding_map, area_to_ridings, query_ridings.** `get_riding_map` only
  reads a file, so the map is an input. `area_to_ridings` uses an `areas`
  table. `query_ridings` matches an arbitrary user regular expression.
- **Calling convention of load_vote_data.** `load_vote_data` calls
  `apply_riding_map` with arguments that do not match its signature
  (votes.py:122). `Votes.LoadVoteData` therefore starts from the riding
  numbers.
- **Set order of province codes.** The order of `list(set(...))` at votes.py:123
  is a parameter, constrained only to list each province of the ridings once.
- **compute_vote_fraction and AllVoteFraction** (votes.py:137-161, 196-200):
  floating-point division with NaN filling.
- **The `set_index` at votes.py:202-204.** The back-filled rows keep their key
  fields instead.
- **The geometry-column fill in party_difference** (utils.py:322).
  `Utils.PartyDifference` models one integer column.
- **load_ontario_geometries and the other modules.** This covers
  `load_ontario_geometries` and the modules geometry.py, getdata.py, util.py,
  viz.py, webutils.py and canadavotes.py. They do geometry, downloads,
  plotting or orchestration.
- **pandas missing values:**
  - a missing PartyCode is `None` in an `Option`, and a merge matches `None`
    with `None` as pandas matches NaN with NaN;
  - a missing Ontario `PD_NUM` is `None` rather than a float NaN;
  - `make_candidate_map` treats all missing party names as one key.
- **Integers are unbounded.** pandas' 64-bit vote sums and Python's riding
  numbers cannot overflow here. Riding numbers are non-negative.
- Utils.GetIntPart: has no contract of its own. Its behaviour is stated by
  `Utils.IntPartOfStripped` and by the `GetIntPart...` lemmas. Concrete ids
  such as "17A" or "S/R" appear only as instances of general lemmas.
- Ontario.LabelsDistinctInDistrict: requires that neither name stands as an
  Independent in another district. Without that, the name-keyed rename map
  may give the label of another district.
- Ontario.IndependentLabelled: requires the same, for the same reason.
- Ontario.LoneIndependentKept: requires the same, for the same reason.
- Ontario.LabelsFollowFirstAppearance: requires the same, for the same reason.
- Ontario.ProcessCandidates: states which rows are returned, not their
  order or their Party values. The party facts are stated on
  `Ontario.AttachParties`, `Ontario.ApplyRenames` and the label lemmas, which
  it composes.
- Frames.GroupSum: lists the groups in the order their keys first appear,
  where pandas' `groupby` sorts them by key. The grouped tables are read only
  through left merges on their unique key (`Votes.AttachTotals`,
  `Votes.AddEdayVotes`), whose rows follow the left table, so the difference
  is never visible in the model's results.
- Constants.CodeProvs: `codeprovs` is imported at votes.py:13; constants.py
  defines only `provcodes`. The model takes `codeprovs` to be the exact
  inverse of `provcodes`.
- Ontario.NormaliseName: states which characters can appear, not the exact
  `--` rewriting. `Text.ReplaceCharConcat` states the exact rewriting.
