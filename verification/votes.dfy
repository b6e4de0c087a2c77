/** The federal vote tables of votes.py: loading one province's poll results
    (dropping the special-voting-rules rows, attaching each poll's total vote
    count and its numeric poll id), keeping the requested ridings of several
    provinces, and back-filling advance-poll rows with the election-day votes
    of the polling divisions that vote at them. Archives are given as the
    data rows of their files. */
module Votes {
  import opened Wrappers
  import opened Seqs
  import opened Text
  import opened Frames
  import opened Utils
  import Constants

  /** One data row of a per-riding poll-results file, with the columns the
      table logic reads. */
  datatype PollRow = PollRow(districtNumber: nat, districtName: string, poll: string,
                             party: string, votes: int, electors: int)

  /** One file of a province archive. */
  datatype PollFile = PollFile(fileName: string, rows: seq<PollRow>)

  /** A row of the loaded table: the file row, the total votes cast at its
      poll (`TotalVotes`) and the numeric poll id (`PD_NUM`). */
  datatype VoteRow = VoteRow(row: PollRow, totalVotes: int, pdNum: nat)

  datatype LoadError =
    | UnknownProvince(province: string)   // `provcodes[province]` raises
    | MissingArchive(code: nat)           // the archive of the province is absent
    | PollIdError(poll: string)           // `int()` raises on a letter-led poll id
    | MissingPollNumber                   // `astype("int")` meets a `None`
    | UnknownProvinceCode(code: nat)      // `codeprovs[code]` raises
    | NoPollResults(code: nat)            // no file matched, so dropping the French columns of the empty frame raises

  // ---------------------------------------------------------------------------
  // load_vote_data_prov

  /** The rows of the archive's files whose names match `pollresults.*csv`, in
      archive order. */
  function ArchiveRows(files: seq<PollFile>): (rows: seq<PollRow>)
    ensures forall i, r :: 0 <= i < |files| && IsPollResultsCsv(files[i].fileName) && r in files[i].rows ==> r in rows
    ensures forall r :: r in rows ==> exists i :: 0 <= i < |files| && IsPollResultsCsv(files[i].fileName) && r in files[i].rows
    decreases |files|
  {
    if |files| == 0 then []
    else
      var front := files[..|files| - 1];
      var f := files[|files| - 1];
      assert forall i :: 0 <= i < |front| ==> front[i] == files[i];
      ArchiveRows(front) + if IsPollResultsCsv(f.fileName) then f.rows else []
  }

  /** Reading the archive is `pd.concat` file by file: the rows of two runs of
      files come one run after the other. */
  lemma {:induction false} ArchiveRowsConcat(a: seq<PollFile>, b: seq<PollFile>)
    ensures ArchiveRows(a + b) == ArchiveRows(a) + ArchiveRows(b)
    decreases |b|
  {
    if |b| == 0 {
      assert a + b == a;
    } else {
      var ab := a + b;
      assert ab[..|ab| - 1] == a + b[..|b| - 1];
      assert ab[|ab| - 1] == b[|b| - 1];
      ArchiveRowsConcat(a, b[..|b| - 1]);
    }
  }

  /** One file contributes all of its rows exactly when its name matches. */
  lemma ArchiveRowsSingle(f: PollFile)
    ensures ArchiveRows([f]) == if IsPollResultsCsv(f.fileName) then f.rows else []
  {
    assert [f][..0] == [];
  }

  /** Some file of the archive has a name matching `pollresults.*csv`. */
  predicate HasPollResults(files: seq<PollFile>) {
    exists i :: 0 <= i < |files| && IsPollResultsCsv(files[i].fileName)
  }

  /** A row of the "Special Voting Rules" pseudo-poll. */
  predicate IsSpecialVoting(r: PollRow) {
    Contains(r.poll, "S/R")
  }

  predicate AtPollingStation(r: PollRow) {
    !IsSpecialVoting(r)
  }

  function PollKey(r: PollRow): (string, string) {
    (r.districtName, r.poll)
  }

  function PollVotes(r: PollRow): int {
    r.votes
  }

  function PollId(r: PollRow): string {
    r.poll
  }

  /** Votes summed per (DistrictName, Poll). */
  function PollTotals(): Grouping<PollRow, (string, string), int> {
    IntGrouping(PollKey, PollVotes)
  }

  function TotalOf(m: Option<((string, string), int)>): int {
    if m.Some? then m.value.1 else 0
  }

  /** `df.merge(df_totvotes, on=["DistrictName", "Poll"], how="left")`: each
      row with the sum of the votes of its (DistrictName, Poll) group. */
  function AttachTotals(rows: seq<PollRow>): (out: seq<(PollRow, int)>)
    ensures |out| == |rows|
    ensures forall i :: 0 <= i < |rows| ==> out[i] == (rows[i], SumWhere(rows, PollTotals(), PollKey(rows[i])))
  {
    var totals := GroupSum(rows, PollTotals());
    var joined := LeftJoin(rows, totals, PollKey, GroupKey);
    GroupKeysUnique(rows, PollTotals());
    LeftJoinUniqueKeys(rows, totals, PollKey, GroupKey);
    forall i | 0 <= i < |rows|
      ensures TotalOf(joined[i].1) == SumWhere(rows, PollTotals(), PollKey(rows[i]))
    {
      PollTotalOf(rows, i);
    }
    seq(|joined|, i requires 0 <= i < |joined| => (joined[i].0, TotalOf(joined[i].1)))
  }

  /** Looking up a row's (DistrictName, Poll) among the group sums finds the
      sum of its own group. */
  lemma PollTotalOf(rows: seq<PollRow>, i: nat)
    requires i < |rows|
    ensures TotalOf(Find(GroupSum(rows, PollTotals()), GroupKey, PollKey(rows[i])))
         == SumWhere(rows, PollTotals(), PollKey(rows[i]))
  {
    FindGroup(rows, PollTotals(), PollKey(rows[i]));
    assert Column(rows, PollTotals().key)[i] == PollKey(rows[i]);
  }

  /** `polls[i]` is the first poll id on which `parse` raises. */
  predicate IsFirstParseError(polls: seq<string>, parse: string -> IntPart, i: int) {
    && 0 <= i < |polls|
    && parse(polls[i]).ParseError?
    && forall j :: 0 <= j < i ==> !parse(polls[j]).ParseError?
  }

  /** `df["Poll"].map(get_int_part)` with `parse` standing for `get_int_part`:
      every poll id's numeric part, raising at the first letter-led id. */
  function MapIntParts(polls: seq<string>, parse: string -> IntPart): (r: Result<seq<IntPart>, LoadError>)
    ensures r.Ok? <==> forall i :: 0 <= i < |polls| ==> !parse(polls[i]).ParseError?
    ensures r.Ok? ==> |r.value| == |polls| && forall i :: 0 <= i < |polls| ==> r.value[i] == parse(polls[i])
    ensures r.Err? ==> exists i :: IsFirstParseError(polls, parse, i) && r.error == PollIdError(polls[i])
    decreases |polls|
  {
    if |polls| == 0 then Ok([])
    else if parse(polls[0]).ParseError? then
      assert IsFirstParseError(polls, parse, 0);
      Err(PollIdError(polls[0]))
    else
      match MapIntParts(polls[1..], parse)
      case Err(e) =>
        var i :| IsFirstParseError(polls[1..], parse, i) && e == PollIdError(polls[1..][i]);
        assert IsFirstParseError(polls, parse, i + 1);
        Err(e)
      case Ok(parts) => Ok([parse(polls[0])] + parts)
  }

  /** `.astype("int")`: the integers, failing when any value is `None`. */
  function AsInts(parts: seq<IntPart>): (r: Result<seq<nat>, LoadError>)
    ensures r.Ok? <==> forall i :: 0 <= i < |parts| ==> parts[i].IntValue?
    ensures r.Ok? ==> |r.value| == |parts| && forall i :: 0 <= i < |parts| ==> parts[i] == IntValue(r.value[i])
    ensures r.Err? ==> r.error == MissingPollNumber
    decreases |parts|
  {
    if |parts| == 0 then Ok([])
    else if !parts[0].IntValue? then Err(MissingPollNumber)
    else
      match AsInts(parts[1..])
      case Err(e) => Err(e)
      case Ok(ns) => Ok([parts[0].value] + ns)
  }

  /** `df["Poll"].map(get_int_part).astype("int")` with `parse` standing for
      `get_int_part`: the numeric poll ids, or the first letter-led id, or a
      missing number when some id has no digits. */
  function PollNumbers(polls: seq<string>, parse: string -> IntPart): (r: Result<seq<nat>, LoadError>)
    ensures r.Ok? <==> forall i :: 0 <= i < |polls| ==> parse(polls[i]).IntValue?
    ensures r.Ok? ==> |r.value| == |polls| && forall i :: 0 <= i < |polls| ==> parse(polls[i]) == IntValue(r.value[i])
    ensures r == Err(MissingPollNumber) <==>
              (forall i :: 0 <= i < |polls| ==> !parse(polls[i]).ParseError?) && exists i :: 0 <= i < |polls| && parse(polls[i]).NoMatch?
    ensures r.Err? && r.error != MissingPollNumber ==>
              exists i :: IsFirstParseError(polls, parse, i) && r.error == PollIdError(polls[i])
  {
    match MapIntParts(polls, parse)
    case Err(e) => Err(e)
    case Ok(parts) =>
      var r := AsInts(parts);
      assert r.Err? ==> exists i :: 0 <= i < |polls| && parse(polls[i]).NoMatch? by {
        if r.Err? {
          var i :| 0 <= i < |parts| && !parts[i].IntValue?;
          assert parse(polls[i]) == parts[i];
        }
      }
      r
  }

  /** The rows of a loaded table. */
  function RowsOf(vs: seq<VoteRow>): seq<PollRow> {
    Column(vs, (v: VoteRow) => v.row)
  }

  /** Every row's TotalVotes is the sum of Votes over the rows of its
      (DistrictName, Poll). */
  predicate ConsistentTotals(vs: seq<VoteRow>) {
    forall i :: 0 <= i < |vs| ==> vs[i].totalVotes == SumWhere(RowsOf(vs), PollTotals(), PollKey(vs[i].row))
  }

  /** The rows with their totals and poll numbers side by side. */
  function Assemble(rows: seq<PollRow>, totals: seq<(PollRow, int)>, nums: seq<nat>): (vs: seq<VoteRow>)
    requires |totals| == |rows| && |nums| == |rows|
    ensures |vs| == |rows| && RowsOf(vs) == rows
    ensures forall i :: 0 <= i < |rows| ==> vs[i] == VoteRow(rows[i], totals[i].1, nums[i])
  {
    var vs := seq(|rows|, i requires 0 <= i < |rows| => VoteRow(rows[i], totals[i].1, nums[i]));
    assert RowsOf(vs) == rows;
    vs
  }

  /** The table built from the polling-station rows: TotalVotes from
      `AttachTotals` and PD_NUM from the poll ids, with `parse` standing for
      `get_int_part`. */
  function BuildVoteTable(rows: seq<PollRow>, parse: string -> IntPart): (r: Result<seq<VoteRow>, LoadError>)
    ensures r.Ok? <==> forall i :: 0 <= i < |rows| ==> parse(rows[i].poll).IntValue?
    ensures r.Ok? ==> RowsOf(r.value) == rows
    ensures r.Ok? ==> ConsistentTotals(r.value)
    ensures r.Ok? ==> forall i :: 0 <= i < |r.value| ==> parse(r.value[i].row.poll) == IntValue(r.value[i].pdNum)
  {
    var polls := Column(rows, PollId);
    match PollNumbers(polls, parse)
    case Err(e) =>
      var i :| 0 <= i < |polls| && !parse(polls[i]).IntValue?;
      assert polls[i] == rows[i].poll;
      Err(e)
    case Ok(nums) =>
      var vs := Assemble(rows, AttachTotals(rows), nums);
      TableFacts(rows, polls, nums, vs, parse);
      Ok(vs)
  }

  lemma TableFacts(rows: seq<PollRow>, polls: seq<string>, nums: seq<nat>, vs: seq<VoteRow>, parse: string -> IntPart)
    requires polls == Column(rows, PollId)
    requires |nums| == |polls| && forall i :: 0 <= i < |polls| ==> parse(polls[i]) == IntValue(nums[i])
    requires vs == Assemble(rows, AttachTotals(rows), nums)
    ensures forall i :: 0 <= i < |rows| ==> parse(rows[i].poll).IntValue?
    ensures ConsistentTotals(vs)
    ensures forall i :: 0 <= i < |vs| ==> parse(vs[i].row.poll) == IntValue(vs[i].pdNum)
  {
    var totals := AttachTotals(rows);
    forall i | 0 <= i < |rows|
      ensures parse(rows[i].poll) == IntValue(nums[i])
    {
      assert polls[i] == rows[i].poll;
    }
    assert RowsOf(vs) == rows;
    forall i | 0 <= i < |vs|
      ensures vs[i].totalVotes == SumWhere(RowsOf(vs), PollTotals(), PollKey(vs[i].row))
    {
      assert vs[i] == VoteRow(rows[i], totals[i].1, nums[i]);
    }
  }

  /** `load_vote_data_prov(province)`: read the province's archive, keep the
      rows of actual polling stations, and attach TotalVotes and PD_NUM. An
      archive without any matching file leaves the frame empty, and dropping
      the French columns from it raises. */
  function LoadVoteDataProv(province: string, archives: map<nat, seq<PollFile>>): (r: Result<seq<VoteRow>, LoadError>)
    ensures province !in Constants.ProvCodes ==> r == Err(LoadError.UnknownProvince(province))
    ensures province in Constants.ProvCodes && Constants.ProvCodes[province] !in archives ==>
              r == Err(MissingArchive(Constants.ProvCodes[province]))
    ensures province in Constants.ProvCodes && Constants.ProvCodes[province] in archives
            && !HasPollResults(archives[Constants.ProvCodes[province]]) ==>
              r == Err(NoPollResults(Constants.ProvCodes[province]))
    ensures province in Constants.ProvCodes && Constants.ProvCodes[province] in archives ==>
              var kept := Filter(AtPollingStation, ArchiveRows(archives[Constants.ProvCodes[province]]));
              (r.Ok? <==> HasPollResults(archives[Constants.ProvCodes[province]])
                          && forall i :: 0 <= i < |kept| ==> GetIntPart(kept[i].poll).IntValue?)
    ensures r.Ok? ==> && province in Constants.ProvCodes && Constants.ProvCodes[province] in archives
                      && HasPollResults(archives[Constants.ProvCodes[province]])
                      && RowsOf(r.value) == Filter(AtPollingStation, ArchiveRows(archives[Constants.ProvCodes[province]]))
    ensures r.Ok? ==> forall i :: 0 <= i < |r.value| ==> !IsSpecialVoting(r.value[i].row)
    ensures r.Ok? ==> ConsistentTotals(r.value)
    ensures r.Ok? ==> forall i :: 0 <= i < |r.value| ==> GetIntPart(r.value[i].row.poll) == IntValue(r.value[i].pdNum)
  {
    if province !in Constants.ProvCodes then Err(LoadError.UnknownProvince(province))
    else
      var code := Constants.ProvCodes[province];
      if code !in archives then Err(MissingArchive(code))
      else if !HasPollResults(archives[code]) then Err(NoPollResults(code))
      else
        var kept := Filter(AtPollingStation, ArchiveRows(archives[code]));
        var r := BuildVoteTable(kept, GetIntPart);
        if r.Ok? then
          PollingStationsOnly(ArchiveRows(archives[code]), r.value);
          r
        else r
  }

  lemma PollingStationsOnly(rows: seq<PollRow>, vs: seq<VoteRow>)
    requires RowsOf(vs) == Filter(AtPollingStation, rows)
    ensures forall i :: 0 <= i < |vs| ==> !IsSpecialVoting(vs[i].row)
  {
    forall i | 0 <= i < |vs|
      ensures !IsSpecialVoting(vs[i].row)
    {
      assert RowsOf(vs)[i] == vs[i].row;
      assert vs[i].row in Filter(AtPollingStation, rows);
    }
  }

  /** Rows of the same poll carry the same TotalVotes. */
  lemma SameTotalAtSamePoll(vs: seq<VoteRow>, i: nat, j: nat)
    requires ConsistentTotals(vs)
    requires i < |vs| && j < |vs| && PollKey(vs[i].row) == PollKey(vs[j].row)
    ensures vs[i].totalVotes == vs[j].totalVotes
  {
  }

  /** With non-negative vote counts, no row has more votes than its poll's total. */
  lemma VotesWithinTotal(vs: seq<VoteRow>, i: nat)
    requires ConsistentTotals(vs)
    requires forall j :: 0 <= j < |vs| ==> vs[j].row.votes >= 0
    requires i < |vs|
    ensures 0 <= vs[i].row.votes <= vs[i].totalVotes
  {
    var rows := RowsOf(vs);
    assert forall j :: 0 <= j < |rows| ==> PollVotes(rows[j]) >= 0;
    SumWhereBound(rows, PollKey, PollVotes, i);
  }

  /** The per-poll totals add up to all the votes of the table: every row is
      counted in exactly one poll. */
  lemma PollTotalsPartition(rows: seq<PollRow>)
    ensures SumValues(GroupSum(rows, PollTotals())) == Total(rows, PollVotes)
  {
    GroupSumTotal(rows, PollKey, PollVotes);
  }

  // ---------------------------------------------------------------------------
  // load_vote_data

  /** `temp_df[temp_df["DistrictNumber"].isin(riding_codes)]`. */
  function KeepRidings(vs: seq<VoteRow>, codes: seq<nat>): (kept: seq<VoteRow>)
    ensures IsSubsequence(kept, vs)
    ensures forall v :: v in kept <==> v in vs && v.row.districtNumber in codes
    ensures forall v: VoteRow :: v.row.districtNumber in codes ==> multiset(kept)[v] == multiset(vs)[v]
  {
    var inCodes := (v: VoteRow) => v.row.districtNumber in codes;
    FilterIsSubsequence(inCodes, vs);
    FilterCount(inCodes, vs);
    Filter(inCodes, vs)
  }

  /** `load_vote_data_prov(codeprovs[c])`, raising when `c` names no province. */
  function LoadProvince(load: string -> Result<seq<VoteRow>, LoadError>, c: nat): Result<seq<VoteRow>, LoadError> {
    var provs := Constants.CodeProvs();
    if c in provs then load(provs[c]) else Err(UnknownProvinceCode(c))
  }

  /** Row `v` comes from the table loaded for the `i`-th province code and
      belongs to a requested riding. */
  predicate LoadedRow(order: seq<nat>, codes: seq<nat>, load: string -> Result<seq<VoteRow>, LoadError>, v: VoteRow, i: int) {
    && 0 <= i < |order|
    && LoadProvince(load, order[i]).Ok?
    && v in LoadProvince(load, order[i]).value
    && v.row.districtNumber in codes
  }

  /** How often `v` occurs among the requested-riding rows of the province
      tables of `order` that load. */
  function LoadedCount(codes: seq<nat>, order: seq<nat>, load: string -> Result<seq<VoteRow>, LoadError>, v: VoteRow): nat
    decreases |order|
  {
    if |order| == 0 then 0
    else
      var t := LoadProvince(load, order[0]);
      (if t.Ok? && v.row.districtNumber in codes then multiset(t.value)[v] else 0)
      + LoadedCount(codes, order[1..], load, v)
  }

  /** The loop of `load_vote_data`: load each province in turn and keep its
      requested ridings. */
  function LoadProvinces(codes: seq<nat>, order: seq<nat>, load: string -> Result<seq<VoteRow>, LoadError>): (r: Result<seq<VoteRow>, LoadError>)
    ensures r.Ok? <==> forall i :: 0 <= i < |order| ==> LoadProvince(load, order[i]).Ok?
    decreases |order|
  {
    if |order| == 0 then Ok([])
    else
      match LoadProvince(load, order[0])
      case Err(e) => Err(e)
      case Ok(table) =>
        match LoadProvinces(codes, order[1..], load)
        case Err(e) =>
          assert exists i :: 0 <= i < |order[1..]| && LoadProvince(load, order[1..][i]).Err?;
          Err(e)
        case Ok(rest) => Ok(KeepRidings(table, codes) + rest)
  }

  /** The loop's rows are exactly the requested-riding rows of the province
      tables, each as often as those tables hold it. */
  lemma {:induction false} LoadProvincesRows(codes: seq<nat>, order: seq<nat>, load: string -> Result<seq<VoteRow>, LoadError>)
    requires LoadProvinces(codes, order, load).Ok?
    ensures forall v :: v in LoadProvinces(codes, order, load).value <==> exists i :: LoadedRow(order, codes, load, v, i)
    ensures forall v :: multiset(LoadProvinces(codes, order, load).value)[v] == LoadedCount(codes, order, load, v)
    decreases |order|
  {
    if |order| > 0 {
      var table := LoadProvince(load, order[0]).value;
      var rest := LoadProvinces(codes, order[1..], load);
      assert rest.Ok?;
      LoadProvincesRows(codes, order[1..], load);
      assert LoadProvinces(codes, order, load).value == KeepRidings(table, codes) + rest.value;
      LoadProvincesStep(codes, order, load, table, rest.value);
    }
  }

  lemma LoadProvincesStep(codes: seq<nat>, order: seq<nat>, load: string -> Result<seq<VoteRow>, LoadError>,
                          table: seq<VoteRow>, rest: seq<VoteRow>)
    requires |order| > 0 && LoadProvince(load, order[0]) == Ok(table)
    requires forall v :: v in rest <==> exists i :: LoadedRow(order[1..], codes, load, v, i)
    requires forall v :: multiset(rest)[v] == LoadedCount(codes, order[1..], load, v)
    ensures forall v :: v in KeepRidings(table, codes) + rest <==> exists i :: LoadedRow(order, codes, load, v, i)
    ensures forall v :: multiset(KeepRidings(table, codes) + rest)[v] == LoadedCount(codes, order, load, v)
  {
    var out := KeepRidings(table, codes) + rest;
    forall v
      ensures multiset(out)[v] == LoadedCount(codes, order, load, v)
    {
      assert multiset(out)[v] == multiset(KeepRidings(table, codes))[v] + multiset(rest)[v];
    }
    forall v | v in out
      ensures exists i :: LoadedRow(order, codes, load, v, i)
    {
      if v in KeepRidings(table, codes) {
        assert LoadedRow(order, codes, load, v, 0);
      } else {
        var i :| LoadedRow(order[1..], codes, load, v, i);
        assert LoadedRow(order, codes, load, v, i + 1);
      }
    }
    forall v, i | LoadedRow(order, codes, load, v, i)
      ensures v in out
    {
      if i > 0 {
        assert LoadedRow(order[1..], codes, load, v, i - 1);
      }
    }
  }

  /** The loop concatenates the provinces' kept rows in the order it visits
      them: a run of provinces followed by another gives the first run's rows
      followed by the second's. */
  lemma {:induction false} LoadProvincesConcat(codes: seq<nat>, a: seq<nat>, b: seq<nat>,
                                               load: string -> Result<seq<VoteRow>, LoadError>)
    requires LoadProvinces(codes, a, load).Ok? && LoadProvinces(codes, b, load).Ok?
    ensures LoadProvinces(codes, a + b, load) == Ok(LoadProvinces(codes, a, load).value + LoadProvinces(codes, b, load).value)
    decreases |a|
  {
    var bv := LoadProvinces(codes, b, load).value;
    if |a| == 0 {
      assert a + b == b;
      assert LoadProvinces(codes, a, load).value == [];
      assert [] + bv == bv;
    } else {
      var t := LoadProvince(load, a[0]);
      var restA := LoadProvinces(codes, a[1..], load);
      assert t.Ok? && restA.Ok?;
      var kept := KeepRidings(t.value, codes);
      assert LoadProvinces(codes, a, load).value == kept + restA.value;
      LoadProvincesConcat(codes, a[1..], b, load);
      var ab := a + b;
      ConcatTail(a, b);
      assert LoadProvinces(codes, ab[1..], load) == Ok(restA.value + bv);
      assert kept + (restA.value + bv) == (kept + restA.value) + bv;
    }
  }

  /** One province gives its requested-riding rows, or its error. */
  lemma LoadProvincesSingle(codes: seq<nat>, c: nat, load: string -> Result<seq<VoteRow>, LoadError>)
    ensures LoadProvince(load, c).Ok? ==> LoadProvinces(codes, [c], load) == Ok(KeepRidings(LoadProvince(load, c).value, codes))
    ensures LoadProvince(load, c).Err? ==> LoadProvinces(codes, [c], load) == Err(LoadProvince(load, c).error)
  {
    assert [c][1..] == [];
    assert LoadProvinces(codes, [], load) == Ok([]);
    if LoadProvince(load, c).Ok? {
      var kept := KeepRidings(LoadProvince(load, c).value, codes);
      assert kept + [] == kept;
    }
  }

  /** The province codes of the requested ridings, each once, in the order a
      Python `set` of them happens to iterate. */
  predicate ProvinceOrder(codes: seq<nat>, order: seq<nat>) {
    && NoDup(order)
    && (forall c :: c in order ==> exists i :: 0 <= i < |codes| && RidingProvinceCode(codes[i]) == c)
    && (forall i :: 0 <= i < |codes| ==> RidingProvinceCode(codes[i]) in order)
  }

  /** `load_vote_data` given the riding numbers: every province they span is
      loaded, and exactly the rows of the requested ridings are kept. */
  function LoadVoteData(codes: seq<nat>, order: seq<nat>, load: string -> Result<seq<VoteRow>, LoadError>): (r: Result<seq<VoteRow>, LoadError>)
    requires ProvinceOrder(codes, order)
    ensures r.Ok? <==> forall i :: 0 <= i < |codes| ==> LoadProvince(load, RidingProvinceCode(codes[i])).Ok?
    ensures r.Ok? ==> forall v :: v in r.value ==> v.row.districtNumber in codes
    ensures r.Ok? ==> forall i, v :: (0 <= i < |codes| && v in LoadProvince(load, RidingProvinceCode(codes[i])).value
                                       && v.row.districtNumber in codes) ==> v in r.value
    ensures r.Ok? ==> forall v :: multiset(r.value)[v] == LoadedCount(codes, order, load, v)
  {
    var r := LoadProvinces(codes, order, load);
    LoadVoteDataCovers(codes, order, load, r);
    r
  }

  lemma LoadVoteDataCovers(codes: seq<nat>, order: seq<nat>, load: string -> Result<seq<VoteRow>, LoadError>,
                           r: Result<seq<VoteRow>, LoadError>)
    requires ProvinceOrder(codes, order)
    requires r == LoadProvinces(codes, order, load)
    ensures r.Ok? <==> forall i :: 0 <= i < |codes| ==> LoadProvince(load, RidingProvinceCode(codes[i])).Ok?
    ensures r.Ok? ==> forall v :: v in r.value ==> v.row.districtNumber in codes
    ensures r.Ok? ==> forall i, v :: (0 <= i < |codes| && v in LoadProvince(load, RidingProvinceCode(codes[i])).value
                                       && v.row.districtNumber in codes) ==> v in r.value
    ensures r.Ok? ==> forall v :: multiset(r.value)[v] == LoadedCount(codes, order, load, v)
  {
    if r.Ok? {
      LoadProvincesRows(codes, order, load);
      forall i, v | 0 <= i < |codes| && v in LoadProvince(load, RidingProvinceCode(codes[i])).value && v.row.districtNumber in codes
        ensures v in r.value
      {
        assert RidingProvinceCode(codes[i]) in order;
        var j :| 0 <= j < |order| && order[j] == RidingProvinceCode(codes[i]);
        assert LoadedRow(order, codes, load, v, j);
      }
      forall i | 0 <= i < |codes|
        ensures LoadProvince(load, RidingProvinceCode(codes[i])).Ok?
      {
        assert RidingProvinceCode(codes[i]) in order;
      }
    } else {
      var j :| 0 <= j < |order| && LoadProvince(load, order[j]).Err?;
      assert order[j] in order;
      var i :| 0 <= i < |codes| && RidingProvinceCode(codes[i]) == order[j];
    }
  }

  /** Every row a province's table holds is of a riding of that province, as
      each province archive holds only its own ridings. */
  ghost predicate OwnRidings(load: string -> Result<seq<VoteRow>, LoadError>) {
    forall c, v :: LoadProvince(load, c).Ok? && v in LoadProvince(load, c).value ==> RidingProvinceCode(v.row.districtNumber) == c
  }

  /** Over provinces each listed once, a row of a requested riding is counted
      once, in its own province's table. */
  lemma {:induction false} LoadedCountOwn(codes: seq<nat>, order: seq<nat>, load: string -> Result<seq<VoteRow>, LoadError>, v: VoteRow)
    requires NoDup(order) && OwnRidings(load)
    requires v.row.districtNumber in codes
    ensures RidingProvinceCode(v.row.districtNumber) !in order ==> LoadedCount(codes, order, load, v) == 0
    ensures forall i :: 0 <= i < |order| && order[i] == RidingProvinceCode(v.row.districtNumber) && LoadProvince(load, order[i]).Ok? ==>
              LoadedCount(codes, order, load, v) == multiset(LoadProvince(load, order[i]).value)[v]
    decreases |order|
  {
    if |order| > 0 {
      var c := RidingProvinceCode(v.row.districtNumber);
      var rest := order[1..];
      assert NoDup(rest) by {
        assert forall i :: 0 <= i < |rest| ==> rest[i] == order[i + 1];
      }
      LoadedCountOwn(codes, rest, load, v);
      var t := LoadProvince(load, order[0]);
      if order[0] == c {
        assert c !in rest by {
          assert forall i :: 0 <= i < |rest| ==> rest[i] == order[i + 1];
        }
      } else {
        assert t.Ok? ==> v !in t.value;
        assert forall i :: 0 < i < |order| ==> order[i] == rest[i - 1];
      }
    }
  }

  /** When every province's table holds only its own ridings, each row of a
      requested riding occurs in the result exactly as often as in its
      province's table, and no other row occurs. */
  lemma LoadVoteDataCounts(codes: seq<nat>, order: seq<nat>, load: string -> Result<seq<VoteRow>, LoadError>, v: VoteRow)
    requires ProvinceOrder(codes, order) && OwnRidings(load)
    requires LoadVoteData(codes, order, load).Ok?
    ensures v.row.districtNumber !in codes ==> multiset(LoadVoteData(codes, order, load).value)[v] == 0
    ensures forall i :: 0 <= i < |codes| && codes[i] == v.row.districtNumber ==>
              multiset(LoadVoteData(codes, order, load).value)[v]
              == multiset(LoadProvince(load, RidingProvinceCode(codes[i])).value)[v]
  {
    var r := LoadVoteData(codes, order, load).value;
    if v.row.districtNumber in codes {
      LoadedCountOwn(codes, order, load, v);
      var c := RidingProvinceCode(v.row.districtNumber);
      var i :| 0 <= i < |codes| && codes[i] == v.row.districtNumber;
      assert c in order;
      var j :| 0 <= j < |order| && order[j] == c;
    } else {
      assert v !in r;
    }
  }

  /** `load_vote_data_prov` over the given archives, as `load_vote_data` calls it. */
  function FederalLoader(archives: map<nat, seq<PollFile>>): string -> Result<seq<VoteRow>, LoadError> {
    p => LoadVoteDataProv(p, archives)
  }

  /** Province `c` loads from the archives: it is a known province code, its
      archive is present and holds a `pollresults` file, and every polling
      station row of it has a poll number. */
  predicate ArchiveLoads(c: nat, archives: map<nat, seq<PollFile>>) {
    && c in Constants.CodeProvs()
    && c in archives
    && HasPollResults(archives[c])
    && forall row :: row in Filter(AtPollingStation, ArchiveRows(archives[c])) ==> GetIntPart(row.poll).IntValue?
  }

  /** Loading one province code through `load_vote_data_prov`: it succeeds
      exactly when the archive loads, and then every row is a polling-station
      row of that archive with its poll number. */
  lemma FederalProvince(archives: map<nat, seq<PollFile>>, c: nat)
    ensures LoadProvince(FederalLoader(archives), c).Ok? <==> ArchiveLoads(c, archives)
    ensures LoadProvince(FederalLoader(archives), c).Ok? ==>
              forall v :: v in LoadProvince(FederalLoader(archives), c).value ==>
                && v.row in ArchiveRows(archives[c])
                && !IsSpecialVoting(v.row)
                && GetIntPart(v.row.poll) == IntValue(v.pdNum)
  {
    var provs := Constants.CodeProvs();
    if c in provs {
      assert LoadProvince(FederalLoader(archives), c) == LoadVoteDataProv(provs[c], archives);
      ProvinceArchiveLoads(provs[c], archives, c);
    }
  }

  /** `load_vote_data_prov` of the province with code `c`, in terms of that
      code's archive. */
  lemma ProvinceArchiveLoads(p: string, archives: map<nat, seq<PollFile>>, c: nat)
    requires p in Constants.ProvCodes && Constants.ProvCodes[p] == c
    ensures LoadVoteDataProv(p, archives).Ok? <==> ArchiveLoads(c, archives)
    ensures LoadVoteDataProv(p, archives).Ok? ==>
              forall v :: v in LoadVoteDataProv(p, archives).value ==>
                && v.row in ArchiveRows(archives[c])
                && !IsSpecialVoting(v.row)
                && GetIntPart(v.row.poll) == IntValue(v.pdNum)
  {
    assert c in Constants.CodeProvs();
    var r := LoadVoteDataProv(p, archives);
    if c in archives {
      var kept := Filter(AtPollingStation, ArchiveRows(archives[c]));
      AllNumbered(kept);
      if r.Ok? {
        TableRowsFrom(r.value, kept);
      }
    }
  }

  /** Every row has a poll number exactly when every position does. */
  lemma AllNumbered(rows: seq<PollRow>)
    ensures (forall row :: row in rows ==> GetIntPart(row.poll).IntValue?)
            <==> (forall i :: 0 <= i < |rows| ==> GetIntPart(rows[i].poll).IntValue?)
  {
    if forall i :: 0 <= i < |rows| ==> GetIntPart(rows[i].poll).IntValue? {
      forall row | row in rows
        ensures GetIntPart(row.poll).IntValue?
      {
        var k :| 0 <= k < |rows| && rows[k] == row;
      }
    }
  }

  /** A table built over `rows` holds only rows of `rows`. */
  lemma TableRowsFrom(vs: seq<VoteRow>, rows: seq<PollRow>)
    requires RowsOf(vs) == rows
    ensures forall v :: v in vs ==> v.row in rows
  {
    forall v | v in vs
      ensures v.row in rows
    {
      var k :| 0 <= k < |vs| && vs[k] == v;
      assert RowsOf(vs)[k] == v.row;
    }
  }

  /** `load_vote_data` with every province loaded by `load_vote_data_prov`:
      it succeeds exactly when the archive of every requested riding's
      province loads, and then it holds exactly the polling-station rows of
      those archives that belong to the requested ridings, each with its poll
      number. */
  function LoadFederalVoteData(codes: seq<nat>, order: seq<nat>, archives: map<nat, seq<PollFile>>): (r: Result<seq<VoteRow>, LoadError>)
    requires ProvinceOrder(codes, order)
    ensures r.Ok? <==> forall i :: 0 <= i < |codes| ==> ArchiveLoads(RidingProvinceCode(codes[i]), archives)
    ensures r.Ok? ==> forall v :: v in r.value ==>
              && v.row.districtNumber in codes
              && !IsSpecialVoting(v.row)
              && GetIntPart(v.row.poll) == IntValue(v.pdNum)
              && exists c :: c in archives && v.row in ArchiveRows(archives[c])
  {
    var r := LoadVoteData(codes, order, FederalLoader(archives));
    FederalLoads(codes, order, archives, r);
    r
  }

  lemma FederalLoads(codes: seq<nat>, order: seq<nat>, archives: map<nat, seq<PollFile>>, r: Result<seq<VoteRow>, LoadError>)
    requires ProvinceOrder(codes, order)
    requires r == LoadVoteData(codes, order, FederalLoader(archives))
    ensures r.Ok? <==> forall i :: 0 <= i < |codes| ==> ArchiveLoads(RidingProvinceCode(codes[i]), archives)
    ensures r.Ok? ==> forall v :: v in r.value ==>
              && v.row.districtNumber in codes
              && !IsSpecialVoting(v.row)
              && GetIntPart(v.row.poll) == IntValue(v.pdNum)
              && exists c :: c in archives && v.row in ArchiveRows(archives[c])
  {
    var load := FederalLoader(archives);
    forall i | 0 <= i < |codes|
      ensures LoadProvince(load, RidingProvinceCode(codes[i])).Ok? <==> ArchiveLoads(RidingProvinceCode(codes[i]), archives)
    {
      FederalProvince(archives, RidingProvinceCode(codes[i]));
    }
    if r.Ok? {
      LoadProvincesRows(codes, order, load);
      forall v | v in r.value
        ensures !IsSpecialVoting(v.row) && GetIntPart(v.row.poll) == IntValue(v.pdNum)
        ensures exists c :: c in archives && v.row in ArchiveRows(archives[c])
      {
        var j :| LoadedRow(order, codes, load, v, j);
        FederalProvince(archives, order[j]);
      }
    }
  }

  // ---------------------------------------------------------------------------
  // add_eday_votes

  /** An election-day row together with the advance poll (`ADV_POLL_N`) its
      polling division votes at in advance, as its boundary records it. */
  datatype EdayRow = EdayRow(vote: VoteRow, advPoll: nat)

  /** An advance-poll row with the election-day sums back-filled:
      `ElectionDayVotes` and `TotalElectionDayVotes`, missing when no
      election-day row of its district and party votes at its poll. */
  datatype BackfilledRow = BackfilledRow(advance: VoteRow, edayVotes: Option<int>, totalEdayVotes: Option<int>)

  function EdayKey(e: EdayRow): (string, string, nat) {
    (e.vote.row.districtName, e.vote.row.party, e.advPoll)
  }

  function AdvanceKey(a: VoteRow): (string, string, nat) {
    (a.row.districtName, a.row.party, a.pdNum)
  }

  function EdayVotes(e: EdayRow): int {
    e.vote.row.votes
  }

  function EdayTotal(e: EdayRow): int {
    e.vote.totalVotes
  }

  function Backfill(j: (VoteRow, Option<((string, string, nat), (int, int))>)): BackfilledRow {
    if j.1.Some? then BackfilledRow(j.0, Some(j.1.value.1.0), Some(j.1.value.1.1))
    else BackfilledRow(j.0, None, None)
  }

  /** `add_eday_votes`: sum Votes and TotalVotes of the election-day rows per
      (DistrictName, Party, ADV_POLL_N) and left-join the sums onto the
      advance rows by (DistrictName, Party, PD_NUM). */
  function AddEdayVotes(eday: seq<EdayRow>, advance: seq<VoteRow>): (out: seq<BackfilledRow>)
    ensures |out| == |advance|
    ensures forall i :: 0 <= i < |advance| ==> out[i].advance == advance[i]
    ensures forall i :: 0 <= i < |advance| ==>
              (out[i].edayVotes.Some? <==> AdvanceKey(advance[i]) in Column(eday, EdayKey))
    ensures forall i :: 0 <= i < |advance| ==> (out[i].totalEdayVotes.Some? <==> out[i].edayVotes.Some?)
    ensures forall i :: 0 <= i < |advance| && out[i].edayVotes.Some? ==>
              && out[i].edayVotes.value == SumWhere(eday, IntGrouping(EdayKey, EdayVotes), AdvanceKey(advance[i]))
              && out[i].totalEdayVotes.value == SumWhere(eday, IntGrouping(EdayKey, EdayTotal), AdvanceKey(advance[i]))
  {
    var g := PairGrouping(EdayKey, EdayVotes, EdayTotal);
    var sums := GroupSum(eday, g);
    var joined := LeftJoin(advance, sums, AdvanceKey, GroupKey);
    GroupKeysUnique(eday, g);
    LeftJoinUniqueKeys(advance, sums, AdvanceKey, GroupKey);
    var out := seq(|joined|, i requires 0 <= i < |joined| => Backfill(joined[i]));
    assert forall i :: 0 <= i < |advance| ==> BackfillMatches(eday, advance[i], out[i]) by {
      forall i | 0 <= i < |advance|
        ensures BackfillMatches(eday, advance[i], out[i])
      {
        var k := AdvanceKey(advance[i]);
        FindGroup(eday, g, k);
        SumWherePair(eday, EdayKey, EdayVotes, EdayTotal, k);
      }
    }
    out
  }

  /** `b` is the back-fill of `a`: its sums are those of the election-day
      group of `a`'s key, missing when that group is empty. */
  predicate BackfillMatches(eday: seq<EdayRow>, a: VoteRow, b: BackfilledRow) {
    var k := AdvanceKey(a);
    && b.advance == a
    && (b.edayVotes.Some? <==> k in Column(eday, EdayKey))
    && (b.totalEdayVotes.Some? <==> b.edayVotes.Some?)
    && (b.edayVotes.Some? ==>
          && b.edayVotes.value == SumWhere(eday, IntGrouping(EdayKey, EdayVotes), k)
          && b.totalEdayVotes.value == SumWhere(eday, IntGrouping(EdayKey, EdayTotal), k))
  }

  /** Every election-day row is counted in exactly one group: the group sums
      add up to all election-day votes. */
  lemma EdayGroupsPartition(eday: seq<EdayRow>)
    ensures SumValues(GroupSum(eday, IntGrouping(EdayKey, EdayVotes))) == Total(eday, EdayVotes)
  {
    GroupSumTotal(eday, EdayKey, EdayVotes);
  }

  /** With non-negative election-day votes, a back-filled sum is at least the
      votes of each election-day row of that district, party and advance poll. */
  lemma BackfillCoversRows(eday: seq<EdayRow>, advance: seq<VoteRow>, i: nat, j: nat)
    requires forall k :: 0 <= k < |eday| ==> EdayVotes(eday[k]) >= 0
    requires i < |advance| && j < |eday| && EdayKey(eday[j]) == AdvanceKey(advance[i])
    ensures AddEdayVotes(eday, advance)[i].edayVotes.Some?
    ensures EdayVotes(eday[j]) <= AddEdayVotes(eday, advance)[i].edayVotes.value
  {
    assert Column(eday, EdayKey)[j] == AdvanceKey(advance[i]);
    SumWhereBound(eday, EdayKey, EdayVotes, j);
  }
}
