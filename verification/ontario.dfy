/** The Ontario provincial tables of ontario.py: dropping by-election rows,
    normalising district names, keeping the requested ridings, attaching
    party names to candidates (with "Independent" for candidates without a
    party code), telling apart several Independents of one district, the
    numeric poll id, and the district-to-party-to-candidate map. The three
    tables are given as their data rows. */
module Ontario {
  import opened Wrappers
  import opened Seqs
  import opened Text
  import opened Decimal
  import opened Frames
  import opened Utils
  import opened StringOrder

  /** A row of the "Political Interest" table: a party code and its name. */
  datatype InterestRow = InterestRow(event: string, partyCode: Option<string>, party: string)

  /** A row of the "Valid Votes" table: one candidate of one district. */
  datatype CandidateRow = CandidateRow(event: string, districtName: string, districtNumber: nat,
                                       candidate: string, partyCode: Option<string>)

  /** A row of the "Official Return" table: one candidate's votes at one poll. */
  datatype ReturnRow = ReturnRow(event: string, districtName: string, pollNumber: string,
                                 candidate: string, votes: int)

  /** A candidate with its party code and party name (missing when the code is
      not in the interest table). */
  datatype Candidate = Candidate(event: string, districtName: string, districtNumber: nat,
                                 candidate: string, partyCode: string, party: Option<string>)

  /** A return row with its numeric poll id `PD_NUM` (missing when the poll
      number has no digits). */
  datatype PollReturn = PollReturn(row: ReturnRow, pdNum: Option<nat>)

  datatype OntarioTables = OntarioTables(candidates: seq<Candidate>, votes: seq<PollReturn>)

  datatype OntarioError = PollIdError(poll: string)   // `int()` raises on a letter-led poll number

  // ---------------------------------------------------------------------------
  // By-elections, district names, riding selection

  predicate IsGeneralElection(event: string) {
    !Contains(event, "By-elections")
  }

  /** The row mask `~df["EventNameEnglish"].str.contains("By-elections")`. */
  function GeneralRow<T>(event: T -> string): T -> bool {
    (r: T) => IsGeneralElection(event(r))
  }

  /** `df.loc[~df["EventNameEnglish"].str.contains("By-elections")]`. */
  function DropByElections<T(==,!new)>(rows: seq<T>, event: T -> string): (kept: seq<T>)
    ensures IsSubsequence(kept, rows)
    ensures forall r :: r in kept <==> r in rows && IsGeneralElection(event(r))
    ensures forall r :: multiset(kept)[r] == if IsGeneralElection(event(r)) then multiset(rows)[r] else 0
  {
    FilterIsSubsequence(GeneralRow(event), rows);
    FilterCount(GeneralRow(event), rows);
    Filter(GeneralRow(event), rows)
  }

  /** The mask works row by row: dropping by-elections from two tables stacked
      is dropping them from each. */
  lemma DropByElectionsConcat<T(!new)>(a: seq<T>, b: seq<T>, event: T -> string)
    ensures DropByElections(a + b, event) == DropByElections(a, event) + DropByElections(b, event)
  {
    FilterConcat(GeneralRow(event), a, b);
  }

  /** A single row is kept exactly when it belongs to the general election. */
  lemma DropByElectionsSingle<T(!new)>(r: T, event: T -> string)
    ensures DropByElections([r], event) == if IsGeneralElection(event(r)) then [r] else []
  {
    assert [r][1..] == [];
  }

  /** Dropping by-elections a second time changes nothing. */
  lemma DropByElectionsIdempotent<T(!new)>(rows: seq<T>, event: T -> string)
    ensures DropByElections(DropByElections(rows, event), event) == DropByElections(rows, event)
  {
    FilterIdempotent(GeneralRow(event), rows);
  }

  const EmDash: char := '\U{2014}'

  /** `s.replace("—", "--")`. */
  function NormaliseName(s: string): (r: string)
    ensures EmDash !in r
    ensures forall x :: x in r ==> x in s || x == '-'
    ensures EmDash !in s ==> r == s
  {
    ReplaceChar(s, EmDash, "--")
  }

  /** `s[4:].replace("—", "--")`: return-table names carry a four-character
      district number in front. */
  function NormaliseReturnName(s: string): (r: string)
    ensures EmDash !in r
  {
    NormaliseName(DropPrefix(s, 4))
  }

  /** Normalising twice is normalising once. */
  lemma NormaliseIdempotent(s: string)
    ensures NormaliseName(NormaliseName(s)) == NormaliseName(s)
  {
  }

  /** A return-table name is its candidate-table name behind a four-character
      prefix, so both tables normalise to the same district name. */
  lemma ReturnNameMatchesCandidateName(prefix: string, s: string)
    requires |prefix| == 4
    ensures NormaliseReturnName(prefix + s) == NormaliseName(s)
  {
    assert DropPrefix(prefix + s, 4) == s;
  }

  /** `ridings is None or name in ridings`. */
  predicate InRidings(name: string, ridings: Option<seq<string>>) {
    ridings.None? || name in ridings.value
  }

  /** The riding mask on the candidate table. */
  function CandidateInRidings(ridings: Option<seq<string>>): CandidateRow -> bool {
    (c: CandidateRow) => InRidings(c.districtName, ridings)
  }

  /** The riding mask on the return table. */
  function ReturnInRidings(ridings: Option<seq<string>>): ReturnRow -> bool {
    (v: ReturnRow) => InRidings(v.districtName, ridings)
  }

  function CandidateEvent(r: CandidateRow): string {
    r.event
  }

  function ReturnEvent(r: ReturnRow): string {
    r.event
  }

  function InterestEvent(r: InterestRow): string {
    r.event
  }

  function RenameCandidateDistrict(r: CandidateRow): CandidateRow {
    r.(districtName := NormaliseName(r.districtName))
  }

  function RenameReturnDistrict(r: ReturnRow): ReturnRow {
    r.(districtName := NormaliseReturnName(r.districtName))
  }

  /** `c` is a general-election candidate row of `rows`, renamed, in the
      requested ridings. */
  predicate PreparedCandidate(rows: seq<CandidateRow>, ridings: Option<seq<string>>, c: CandidateRow) {
    exists r :: r in rows && IsGeneralElection(r.event) && c == RenameCandidateDistrict(r) && InRidings(c.districtName, ridings)
  }

  /** `v` is a general-election return row of `rows`, renamed, in the
      requested ridings. */
  predicate PreparedReturn(rows: seq<ReturnRow>, ridings: Option<seq<string>>, v: ReturnRow) {
    exists r :: r in rows && IsGeneralElection(r.event) && v == RenameReturnDistrict(r) && InRidings(v.districtName, ridings)
  }

  /** The candidate rows of the general election, with normalised names, in
      the requested ridings. */
  function PrepareCandidates(rows: seq<CandidateRow>, ridings: Option<seq<string>>): (out: seq<CandidateRow>)
    ensures forall c :: c in out ==> IsGeneralElection(c.event) && EmDash !in c.districtName && InRidings(c.districtName, ridings)
    ensures forall c :: c in out <==> PreparedCandidate(rows, ridings, c)
  {
    var general := DropByElections(rows, CandidateEvent);
    var named := Column(general, RenameCandidateDistrict);
    ColumnMembers(general, RenameCandidateDistrict);
    var out := Filter(CandidateInRidings(ridings), named);
    out
  }

  /** Preparing works row by row: the prepared rows of two tables stacked are
      the prepared rows of each, stacked in the same order. */
  lemma PrepareCandidatesConcat(a: seq<CandidateRow>, b: seq<CandidateRow>, ridings: Option<seq<string>>)
    ensures PrepareCandidates(a + b, ridings) == PrepareCandidates(a, ridings) + PrepareCandidates(b, ridings)
  {
    var ga := DropByElections(a, CandidateEvent);
    var gb := DropByElections(b, CandidateEvent);
    DropByElectionsConcat(a, b, CandidateEvent);
    ColumnConcat(ga, gb, RenameCandidateDistrict);
    FilterConcat(CandidateInRidings(ridings), Column(ga, RenameCandidateDistrict), Column(gb, RenameCandidateDistrict));
  }

  /** One row is prepared into its renamed self when it is of the general
      election and its normalised district is requested, and into nothing
      otherwise. */
  lemma PrepareCandidatesSingle(r: CandidateRow, ridings: Option<seq<string>>)
    ensures PrepareCandidates([r], ridings)
         == if IsGeneralElection(r.event) && InRidings(NormaliseName(r.districtName), ridings)
            then [RenameCandidateDistrict(r)] else []
  {
    DropByElectionsSingle(r, CandidateEvent);
    var named := Column(DropByElections([r], CandidateEvent), RenameCandidateDistrict);
    if IsGeneralElection(r.event) {
      assert named == [RenameCandidateDistrict(r)];
      assert named[1..] == [];
    } else {
      assert named == [];
    }
  }

  /** The return rows of the general election, with normalised names, in the
      requested ridings. */
  function PrepareReturns(rows: seq<ReturnRow>, ridings: Option<seq<string>>): (out: seq<ReturnRow>)
    ensures forall v :: v in out ==> IsGeneralElection(v.event) && EmDash !in v.districtName && InRidings(v.districtName, ridings)
    ensures forall v :: v in out <==> PreparedReturn(rows, ridings, v)
  {
    var general := DropByElections(rows, ReturnEvent);
    var named := Column(general, RenameReturnDistrict);
    ColumnMembers(general, RenameReturnDistrict);
    var out := Filter(ReturnInRidings(ridings), named);
    out
  }

  /** Preparing works row by row: the prepared rows of two tables stacked are
      the prepared rows of each, stacked in the same order. */
  lemma PrepareReturnsConcat(a: seq<ReturnRow>, b: seq<ReturnRow>, ridings: Option<seq<string>>)
    ensures PrepareReturns(a + b, ridings) == PrepareReturns(a, ridings) + PrepareReturns(b, ridings)
  {
    var ga := DropByElections(a, ReturnEvent);
    var gb := DropByElections(b, ReturnEvent);
    DropByElectionsConcat(a, b, ReturnEvent);
    ColumnConcat(ga, gb, RenameReturnDistrict);
    FilterConcat(ReturnInRidings(ridings), Column(ga, RenameReturnDistrict), Column(gb, RenameReturnDistrict));
  }

  /** One row is prepared into its renamed self when it is of the general
      election and its normalised district is requested, and into nothing
      otherwise. */
  lemma PrepareReturnsSingle(r: ReturnRow, ridings: Option<seq<string>>)
    ensures PrepareReturns([r], ridings)
         == if IsGeneralElection(r.event) && InRidings(NormaliseReturnName(r.districtName), ridings)
            then [RenameReturnDistrict(r)] else []
  {
    DropByElectionsSingle(r, ReturnEvent);
    var named := Column(DropByElections([r], ReturnEvent), RenameReturnDistrict);
    if IsGeneralElection(r.event) {
      assert named == [RenameReturnDistrict(r)];
      assert named[1..] == [];
    } else {
      assert named == [];
    }
  }

  // ---------------------------------------------------------------------------
  // Party names and the Independent default

  function CandidateCode(r: CandidateRow): Option<string> {
    r.partyCode
  }

  function InterestCode(r: InterestRow): Option<string> {
    r.partyCode
  }

  /** One merged row after the missing-code default: a candidate without a
      party code is "Independent" with code "IND". */
  function WithParty(j: (CandidateRow, Option<InterestRow>)): Candidate {
    var r := j.0;
    if r.partyCode.None? then
      Candidate(r.event, r.districtName, r.districtNumber, r.candidate, "IND", Some("Independent"))
    else
      Candidate(r.event, r.districtName, r.districtNumber, r.candidate, r.partyCode.value,
                if j.1.Some? then Some(j.1.value.party) else None)
  }

  /** `c` is candidate row `r` with a party attached from `interest`. */
  predicate PartyOf(r: CandidateRow, interest: seq<InterestRow>, c: Candidate) {
    && c.event == r.event && c.districtName == r.districtName
    && c.districtNumber == r.districtNumber && c.candidate == r.candidate
    && (r.partyCode.None? ==> c.partyCode == "IND" && c.party == Some("Independent"))
    && (r.partyCode.Some? ==>
          && c.partyCode == r.partyCode.value
          && (c.party.None? <==> r.partyCode !in Column(interest, InterestCode))
          && (c.party.Some? ==> exists x :: x in interest && x.partyCode == r.partyCode && x.party == c.party.value))
  }

  /** The left merge on PartyCode followed by the missing-code default. A
      missing code matches a missing code, as in a pandas merge. */
  function AttachParties(rows: seq<CandidateRow>, interest: seq<InterestRow>): (out: seq<Candidate>)
    ensures forall c :: c in out ==> exists r :: r in rows && PartyOf(r, interest, c)
    ensures forall r :: r in rows ==> exists c :: c in out && PartyOf(r, interest, c)
    ensures NoDup(Column(interest, InterestCode)) ==> |out| == |rows|
  {
    var joined := LeftJoin(rows, interest, CandidateCode, InterestCode);
    LeftJoinRows(rows, interest, CandidateCode, InterestCode);
    assert NoDup(Column(interest, InterestCode)) ==> |joined| == |rows| by {
      if NoDup(Column(interest, InterestCode)) {
        LeftJoinUniqueKeys(rows, interest, CandidateCode, InterestCode);
      }
    }
    var out := Column(joined, WithParty);
    forall c | c in out
      ensures exists r :: r in rows && PartyOf(r, interest, c)
    {
      var i :| 0 <= i < |out| && out[i] == c;
      assert joined[i] in joined;
      WithPartyOf(rows, interest, joined[i]);
    }
    forall r | r in rows
      ensures exists c :: c in out && PartyOf(r, interest, c)
    {
      var o :| o in joined && o.0 == r;
      var i :| 0 <= i < |joined| && joined[i] == o;
      WithPartyOf(rows, interest, o);
      assert out[i] in out;
    }
    out
  }

  /** One joined row, with the default applied, carries its candidate row's
      party. */
  lemma WithPartyOf(rows: seq<CandidateRow>, interest: seq<InterestRow>, o: (CandidateRow, Option<InterestRow>))
    requires JoinedFrom(rows, interest, CandidateCode, InterestCode, o)
    ensures o.0 in rows && PartyOf(o.0, interest, WithParty(o))
  {
  }

  // ---------------------------------------------------------------------------
  // Several Independents in one district

  predicate IsIndependent(c: Candidate) {
    c.party == Some("Independent")
  }

  function NameKey(c: Candidate): (string, string) {
    (c.districtName, c.candidate)
  }

  function PairDistrict(p: (string, string)): string {
    p.0
  }

  function PairName(p: (string, string)): string {
    p.1
  }

  /** `p` is the (DistrictName, Candidate) pair of an Independent row. */
  predicate IndependentPair(cands: seq<Candidate>, p: (string, string)) {
    exists c :: c in cands && IsIndependent(c) && NameKey(c) == p
  }

  /** `df_indep_cands`: the (DistrictName, Candidate) pairs of the Independent
      rows, each once, in order of first appearance. */
  function IndependentPairs(cands: seq<Candidate>): (pairs: seq<(string, string)>)
    ensures NoDup(pairs)
    ensures forall p :: p in pairs <==> IndependentPair(cands, p)
  {
    var indep := Filter(IsIndependent, cands);
    var keys := Column(indep, NameKey);
    ColumnMembers(indep, NameKey);
    Distinct(keys)
  }

  /** An Independent row of pair `p` occurs in `cands` before position `k`. */
  predicate IndependentBefore(cands: seq<Candidate>, p: (string, string), k: nat)
    requires k <= |cands|
  {
    exists c :: c in cands[..k] && IsIndependent(c) && NameKey(c) == p
  }

  /** The pairs are listed in order of first appearance: a pair listed before
      another has an Independent row before every row of the other. */
  lemma IndependentPairsOrder(cands: seq<Candidate>, i: nat, j: nat, k: nat)
    requires i < j < |IndependentPairs(cands)|
    requires k < |cands| && IsIndependent(cands[k]) && NameKey(cands[k]) == IndependentPairs(cands)[j]
    ensures IndependentBefore(cands, IndependentPairs(cands)[i], k)
  {
    var pairs := IndependentPairs(cands);
    var keys := Column(Filter(IsIndependent, cands), NameKey);
    var front := Filter(IsIndependent, cands[..k]);
    FilterColumnAt(IsIndependent, NameKey, cands, k);
    var m := |front|;
    DistinctFirstAppearance(keys);
    assert AllBefore(pairs[i], keys, m);
    assert pairs[i] in Column(front, NameKey);
    ColumnMembers(front, NameKey);
  }

  /** Rows of district `d` in the pair table. */
  function PairIn(d: string): ((string, string)) -> bool {
    (p: (string, string)) => p.0 == d
  }

  /** `grp[["Candidate"]].drop_duplicates()`: the Independents of district
      `d`, each once, in order of first appearance. */
  function DistrictIndependents(pairs: seq<(string, string)>, d: string): (names: seq<string>)
    ensures NoDup(names)
    ensures forall n :: n in names <==> (d, n) in pairs
  {
    var inDistrict := Filter(PairIn(d), pairs);
    var ns := Column(inDistrict, PairName);
    assert forall n :: n in ns <==> (d, n) in pairs by {
      forall n | n in ns
        ensures (d, n) in pairs
      {
        var i :| 0 <= i < |ns| && ns[i] == n;
        assert inDistrict[i] in inDistrict;
      }
      forall n | (d, n) in pairs
        ensures n in ns
      {
        assert (d, n) in inDistrict;
        var i :| 0 <= i < |inDistrict| && inDistrict[i] == (d, n);
        assert ns[i] == n;
      }
    }
    Distinct(ns)
  }

  /** A district's Independents are listed in order of first appearance in
      the pair table. */
  lemma DistrictIndependentsOrder(pairs: seq<(string, string)>, d: string, i: nat, j: nat, k: nat)
    requires i < j < |DistrictIndependents(pairs, d)|
    requires k < |pairs| && pairs[k] == (d, DistrictIndependents(pairs, d)[j])
    ensures (d, DistrictIndependents(pairs, d)[i]) in pairs[..k]
  {
    var names := DistrictIndependents(pairs, d);
    var ns := Column(Filter(PairIn(d), pairs), PairName);
    var front := Filter(PairIn(d), pairs[..k]);
    FilterColumnAt(PairIn(d), PairName, pairs, k);
    var m := |front|;
    DistinctFirstAppearance(ns);
    assert AllBefore(names[i], ns, m);
    assert names[i] in Column(front, PairName);
    ColumnMembers(front, PairName);
    var x :| x in front && names[i] == PairName(x);
    assert x == (d, names[i]);
  }

  /** A district's Independents are listed in order of their first
      Independent row in the candidate table. */
  lemma DistrictIndependentsFirstAppearance(cands: seq<Candidate>, d: string, i: nat, j: nat, k: nat)
    requires i < j < |DistrictIndependents(IndependentPairs(cands), d)|
    requires k < |cands| && IsIndependent(cands[k])
    requires NameKey(cands[k]) == (d, DistrictIndependents(IndependentPairs(cands), d)[j])
    ensures IndependentBefore(cands, (d, DistrictIndependents(IndependentPairs(cands), d)[i]), k)
  {
    var pairs := IndependentPairs(cands);
    var names := DistrictIndependents(pairs, d);
    assert (d, names[j]) in pairs;
    var jp :| 0 <= jp < |pairs| && pairs[jp] == (d, names[j]);
    DistrictIndependentsOrder(pairs, d, i, j, jp);
    var ip :| 0 <= ip < jp && pairs[ip] == (d, names[i]);
    IndependentPairsOrder(cands, ip, jp, k);
  }

  /** `f"Independent-{k:02d}"`. */
  function IndependentLabel(k: nat): string {
    "Independent-" + Pad2(k)
  }

  /** Different counters give different labels. */
  lemma IndependentLabelInjective(a: nat, b: nat)
    requires IndependentLabel(a) == IndependentLabel(b)
    ensures a == b
  {
    var p := "Independent-";
    assert (p + Pad2(a))[|p|..] == Pad2(a);
    assert (p + Pad2(b))[|p|..] == Pad2(b);
    Pad2Injective(a, b);
  }

  lemma IndependentLabelsInjective()
    ensures forall a: nat, b: nat :: IndependentLabel(a) == IndependentLabel(b) ==> a == b
  {
    forall a: nat, b: nat | IndependentLabel(a) == IndependentLabel(b)
      ensures a == b
    {
      IndependentLabelInjective(a, b);
    }
  }

  /** The inner loop over one district's Independents: the counter starts at
      `k` and each name is mapped to the label of its counter (`tag` stands for
      the format string, `IndependentLabel`). */
  function LabelFrom(m: map<string, string>, names: seq<string>, k: nat, tag: nat -> string): (r: map<string, string>)
    requires NoDup(names)
    ensures forall c :: c in r <==> c in m || c in names
    ensures forall i :: 0 <= i < |names| ==> r[names[i]] == tag(k + i)
    ensures forall c :: c in m && c !in names ==> r[c] == m[c]
    decreases |names|
  {
    if |names| == 0 then m
    else
      var front := names[..|names| - 1];
      assert forall i :: 0 <= i < |front| ==> front[i] == names[i];
      var prev := LabelFrom(m, front, k, tag);
      LabelFromStep(m, names, prev, k, tag);
      prev[names[|names| - 1] := tag(k + |names| - 1)]
  }

  /** One step of `LabelFrom`: labelling the last name on top of the labels
      of the others. */
  lemma LabelFromStep(m: map<string, string>, names: seq<string>, prev: map<string, string>, k: nat, tag: nat -> string)
    requires NoDup(names) && |names| > 0
    requires forall c :: c in prev <==> c in m || c in names[..|names| - 1]
    requires forall i :: 0 <= i < |names| - 1 ==> prev[names[i]] == tag(k + i)
    requires forall c :: c in m && c !in names[..|names| - 1] ==> prev[c] == m[c]
    ensures var r := prev[names[|names| - 1] := tag(k + |names| - 1)];
      && (forall c :: c in r <==> c in m || c in names)
      && (forall i :: 0 <= i < |names| ==> r[names[i]] == tag(k + i))
      && (forall c :: c in m && c !in names ==> r[c] == m[c])
  {
    var front := names[..|names| - 1];
    assert names == front + [names[|names| - 1]];
    assert forall i :: 0 <= i < |front| ==> front[i] == names[i];
  }

  /** District `d` has several Independents, `c` among them; `indep` gives
      each district's Independents. */
  predicate RelabelsIn(indep: string -> seq<string>, d: string, c: string) {
    |indep(d)| > 1 && c in indep(d)
  }

  /** `cand_rename_map` built over the districts `ds` in order, with `indep`
      giving each district's Independents; a later district overwrites the
      label of a name an earlier one gave. */
  function RenameMap(ds: seq<string>, indep: string -> seq<string>, tag: nat -> string): (m: map<string, string>)
    requires forall d :: NoDup(indep(d))
    decreases |ds|
  {
    if |ds| == 0 then map[]
    else
      var m := RenameMap(ds[..|ds| - 1], indep, tag);
      var names := indep(ds[|ds| - 1]);
      if |names| > 1 then LabelFrom(m, names, 1, tag) else m
  }

  /** The label of `c` comes from district `ds[i]`: `c` is its `n`-th
      Independent, and no later district of `ds` relabels `c`. */
  predicate LabelledBy(ds: seq<string>, indep: string -> seq<string>, c: string, i: int, n: int) {
    && 0 <= i < |ds|
    && |indep(ds[i])| > 1
    && 0 <= n < |indep(ds[i])|
    && indep(ds[i])[n] == c
    && forall j :: i < j < |ds| ==> !RelabelsIn(indep, ds[j], c)
  }

  /** A name is relabelled exactly when it is an Independent of some district
      with several. */
  lemma {:induction false} RenameMapKeys(ds: seq<string>, indep: string -> seq<string>, tag: nat -> string, c: string)
    requires forall d :: NoDup(indep(d))
    ensures c in RenameMap(ds, indep, tag) <==> exists i :: 0 <= i < |ds| && RelabelsIn(indep, ds[i], c)
    decreases |ds|
  {
    if |ds| > 0 {
      var front := ds[..|ds| - 1];
      RenameMapKeys(front, indep, tag, c);
      if exists i :: 0 <= i < |ds| && RelabelsIn(indep, ds[i], c) {
        var i :| 0 <= i < |ds| && RelabelsIn(indep, ds[i], c);
        if i < |front| {
          assert front[i] == ds[i];
        }
      }
      if exists i :: 0 <= i < |front| && RelabelsIn(indep, front[i], c) {
        var i :| 0 <= i < |front| && RelabelsIn(indep, front[i], c);
        assert ds[i] == front[i];
      }
    }
  }

  /** The last district of `ds` gives its `n`-th Independent the label of
      `n + 1`. */
  lemma RenameMapLast(ds: seq<string>, indep: string -> seq<string>, tag: nat -> string, n: nat)
    requires forall d :: NoDup(indep(d))
    requires |ds| > 0 && |indep(ds[|ds| - 1])| > 1 && n < |indep(ds[|ds| - 1])|
    ensures indep(ds[|ds| - 1])[n] in RenameMap(ds, indep, tag)
    ensures RenameMap(ds, indep, tag)[indep(ds[|ds| - 1])[n]] == tag(n + 1)
  {
  }

  /** A name the last district of `ds` does not relabel keeps the label the
      earlier districts gave it. */
  lemma RenameMapEarlier(ds: seq<string>, indep: string -> seq<string>, tag: nat -> string, c: string)
    requires forall d :: NoDup(indep(d))
    requires |ds| > 0 && c in RenameMap(ds, indep, tag)
    requires !RelabelsIn(indep, ds[|ds| - 1], c)
    ensures c in RenameMap(ds[..|ds| - 1], indep, tag)
    ensures RenameMap(ds, indep, tag)[c] == RenameMap(ds[..|ds| - 1], indep, tag)[c]
  {
  }

  /** A label source in the front of `ds` stays the source when the last
      district does not relabel the name. */
  lemma LabelledByExtend(ds: seq<string>, indep: string -> seq<string>, c: string, i: int, n: int)
    requires |ds| > 0 && LabelledBy(ds[..|ds| - 1], indep, c, i, n)
    requires !RelabelsIn(indep, ds[|ds| - 1], c)
    ensures LabelledBy(ds, indep, c, i, n)
  {
    var front := ds[..|ds| - 1];
    assert ds[i] == front[i];
    forall j | i < j < |ds|
      ensures !RelabelsIn(indep, ds[j], c)
    {
      if j < |front| {
        assert ds[j] == front[j];
      }
    }
  }

  /** A relabelled name carries the label of its position in the last district
      of `ds` that relabels it. */
  lemma {:induction false} RenameMapValue(ds: seq<string>, indep: string -> seq<string>, tag: nat -> string, c: string)
    requires forall d :: NoDup(indep(d))
    requires c in RenameMap(ds, indep, tag)
    ensures exists i, n :: LabelledBy(ds, indep, c, i, n) && RenameMap(ds, indep, tag)[c] == tag(n + 1)
    decreases |ds|
  {
    var last := |ds| - 1;
    var names := indep(ds[last]);
    if RelabelsIn(indep, ds[last], c) {
      var n :| 0 <= n < |names| && names[n] == c;
      RenameMapLast(ds, indep, tag, n);
      assert LabelledBy(ds, indep, c, last, n);
    } else {
      var front := ds[..last];
      RenameMapEarlier(ds, indep, tag, c);
      RenameMapValue(front, indep, tag, c);
      var i, n :| LabelledBy(front, indep, c, i, n) && RenameMap(front, indep, tag)[c] == tag(n + 1);
      LabelledByExtend(ds, indep, c, i, n);
    }
  }

  /** The districts in `groupby("DistrictName")` order. */
  function GroupOrder(pairs: seq<(string, string)>): (ds: seq<string>)
    ensures StrictlySorted(ds)
    ensures forall d :: d in ds <==> d in Column(pairs, PairDistrict)
  {
    SortedKeys(Column(pairs, PairDistrict))
  }

  /** Each district's Independents, as the group loop sees them. */
  function IndependentsOf(pairs: seq<(string, string)>): (indep: string -> seq<string>)
    ensures forall d :: indep(d) == DistrictIndependents(pairs, d)
  {
    (d: string) => DistrictIndependents(pairs, d)
  }

  /** `cand_rename_map`. */
  function IndependentRenames(cands: seq<Candidate>): map<string, string> {
    var pairs := IndependentPairs(cands);
    RenameMap(GroupOrder(pairs), IndependentsOf(pairs), IndependentLabel)
  }

  /** Every row whose Candidate is in the rename map gets its label as Party;
      nothing else changes. */
  function ApplyRenames(cands: seq<Candidate>, m: map<string, string>): (out: seq<Candidate>)
    ensures |out| == |cands|
    ensures forall i :: 0 <= i < |cands| ==> out[i].(party := cands[i].party) == cands[i]
    ensures forall i :: 0 <= i < |cands| ==> out[i].party == if cands[i].candidate in m then Some(m[cands[i].candidate]) else cands[i].party
  {
    seq(|cands|, i requires 0 <= i < |cands| =>
      if cands[i].candidate in m then cands[i].(party := Some(m[cands[i].candidate])) else cands[i])
  }

  /** `district` is the only district in which `name` stands as an Independent. */
  predicate OnlyDistrictOf(pairs: seq<(string, string)>, name: string, district: string) {
    forall p :: p in pairs && p.1 == name ==> p.0 == district
  }

  /** With an injective `tag`, two different Independents of a district `d`
      with several get different labels when no other district relabels them. */
  lemma LabelsDistinctFor(ds: seq<string>, indep: string -> seq<string>, tag: nat -> string, d: string, c1: string, c2: string)
    requires forall d :: NoDup(indep(d))
    requires forall a, b :: tag(a) == tag(b) ==> a == b
    requires StrictlySorted(ds) && d in ds
    requires c1 != c2
    requires RelabelsIn(indep, d, c1) && RelabelsIn(indep, d, c2)
    requires forall e :: RelabelsIn(indep, e, c1) || RelabelsIn(indep, e, c2) ==> e == d
    ensures c1 in RenameMap(ds, indep, tag) && c2 in RenameMap(ds, indep, tag)
    ensures RenameMap(ds, indep, tag)[c1] != RenameMap(ds, indep, tag)[c2]
  {
    var m := RenameMap(ds, indep, tag);
    var id :| 0 <= id < |ds| && ds[id] == d;
    RenameMapKeys(ds, indep, tag, c1);
    RenameMapKeys(ds, indep, tag, c2);
    RenameMapValue(ds, indep, tag, c1);
    RenameMapValue(ds, indep, tag, c2);
    var i1, n1 :| LabelledBy(ds, indep, c1, i1, n1) && m[c1] == tag(n1 + 1);
    var i2, n2 :| LabelledBy(ds, indep, c2, i2, n2) && m[c2] == tag(n2 + 1);
    assert RelabelsIn(indep, ds[i1], c1) && RelabelsIn(indep, ds[i2], c2);
    SortedNoDup2(ds, i1, i2);
  }

  /** A name's Independent districts with several Independents. */
  lemma RelabelsInPairs(pairs: seq<(string, string)>, e: string, c: string)
    requires RelabelsIn(IndependentsOf(pairs), e, c)
    ensures (e, c) in pairs && |DistrictIndependents(pairs, e)| > 1
  {
  }

  /** Two different Independents of a district with several get different
      Party labels, provided neither name also stands as an Independent in
      another district. */
  lemma LabelsDistinctInDistrict(cands: seq<Candidate>, d: string, c1: string, c2: string)
    requires c1 != c2
    requires (d, c1) in IndependentPairs(cands) && (d, c2) in IndependentPairs(cands)
    requires OnlyDistrictOf(IndependentPairs(cands), c1, d) && OnlyDistrictOf(IndependentPairs(cands), c2, d)
    requires |DistrictIndependents(IndependentPairs(cands), d)| > 1
    ensures c1 in IndependentRenames(cands) && c2 in IndependentRenames(cands)
    ensures IndependentRenames(cands)[c1] != IndependentRenames(cands)[c2]
  {
    LabelsDistinctInPairs(IndependentPairs(cands), d, c1, c2);
  }

  /** `LabelsDistinctInDistrict` over the pair table. */
  lemma LabelsDistinctInPairs(pairs: seq<(string, string)>, d: string, c1: string, c2: string)
    requires c1 != c2
    requires (d, c1) in pairs && (d, c2) in pairs
    requires OnlyDistrictOf(pairs, c1, d) && OnlyDistrictOf(pairs, c2, d)
    requires |DistrictIndependents(pairs, d)| > 1
    ensures c1 in RenameMap(GroupOrder(pairs), IndependentsOf(pairs), IndependentLabel)
    ensures c2 in RenameMap(GroupOrder(pairs), IndependentsOf(pairs), IndependentLabel)
    ensures RenameMap(GroupOrder(pairs), IndependentsOf(pairs), IndependentLabel)[c1]
         != RenameMap(GroupOrder(pairs), IndependentsOf(pairs), IndependentLabel)[c2]
  {
    var indep := IndependentsOf(pairs);
    assert d in Column(pairs, PairDistrict) by {
      var k :| 0 <= k < |pairs| && pairs[k] == (d, c1);
      assert Column(pairs, PairDistrict)[k] == d;
    }
    IndependentLabelsInjective();
    forall e | RelabelsIn(indep, e, c1) || RelabelsIn(indep, e, c2)
      ensures e == d
    {
      if RelabelsIn(indep, e, c1) {
        RelabelsInPairs(pairs, e, c1);
      } else {
        RelabelsInPairs(pairs, e, c2);
      }
    }
    LabelsDistinctFor(GroupOrder(pairs), indep, IndependentLabel, d, c1, c2);
  }

  /** In a district with several Independents, the `n`-th of them in order of
      first appearance is labelled `Independent-{n+1:02d}`, provided the name
      stands as an Independent in no other district. */
  lemma IndependentLabelled(cands: seq<Candidate>, d: string, n: nat)
    requires |DistrictIndependents(IndependentPairs(cands), d)| > 1
    requires n < |DistrictIndependents(IndependentPairs(cands), d)|
    requires OnlyDistrictOf(IndependentPairs(cands), DistrictIndependents(IndependentPairs(cands), d)[n], d)
    ensures DistrictIndependents(IndependentPairs(cands), d)[n] in IndependentRenames(cands)
    ensures IndependentRenames(cands)[DistrictIndependents(IndependentPairs(cands), d)[n]] == IndependentLabel(n + 1)
  {
    IndependentLabelledInPairs(IndependentPairs(cands), d, n);
  }

  /** Labels follow the candidate table: in a district with several
      Independents, one whose Independent row comes before any row of another
      gets the smaller counter, provided neither name stands as an Independent
      in another district. */
  lemma LabelsFollowFirstAppearance(cands: seq<Candidate>, d: string, c1: string, c2: string, k1: nat)
    requires |DistrictIndependents(IndependentPairs(cands), d)| > 1
    requires k1 < |cands| && IsIndependent(cands[k1]) && NameKey(cands[k1]) == (d, c1)
    requires (d, c2) in IndependentPairs(cands) && !IndependentBefore(cands, (d, c2), k1 + 1)
    requires OnlyDistrictOf(IndependentPairs(cands), c1, d) && OnlyDistrictOf(IndependentPairs(cands), c2, d)
    ensures c1 in IndependentRenames(cands) && c2 in IndependentRenames(cands)
    ensures exists n1: nat, n2: nat :: 0 < n1 < n2
              && IndependentRenames(cands)[c1] == IndependentLabel(n1)
              && IndependentRenames(cands)[c2] == IndependentLabel(n2)
  {
    var a, b := FirstAppearancePositions(cands, d, c1, c2, k1);
    IndependentLabelled(cands, d, a);
    IndependentLabelled(cands, d, b);
  }

  /** Where two Independents of `d` stand in the district's list when the
      first has a row before any row of the second. */
  lemma FirstAppearancePositions(cands: seq<Candidate>, d: string, c1: string, c2: string, k1: nat)
    returns (a: nat, b: nat)
    requires k1 < |cands| && IsIndependent(cands[k1]) && NameKey(cands[k1]) == (d, c1)
    requires (d, c2) in IndependentPairs(cands) && !IndependentBefore(cands, (d, c2), k1 + 1)
    ensures a < b < |DistrictIndependents(IndependentPairs(cands), d)|
    ensures DistrictIndependents(IndependentPairs(cands), d)[a] == c1
    ensures DistrictIndependents(IndependentPairs(cands), d)[b] == c2
  {
    assert IndependentPair(cands, (d, c1)) by {
      assert cands[k1] in cands;
    }
    assert IndependentBefore(cands, (d, c1), k1 + 1) by {
      assert cands[k1] in cands[..k1 + 1];
    }
    assert c1 != c2;
    a := DistrictPosition(cands, d, c1);
    b := DistrictPosition(cands, d, c2);
    if b < a {
      DistrictIndependentsFirstAppearance(cands, d, b, a, k1);
      IndependentBeforeGrows(cands, (d, c2), k1, k1 + 1);
      assert false;
    }
    assert a != b;
  }

  /** The place of an Independent in its district's list. */
  lemma DistrictPosition(cands: seq<Candidate>, d: string, c: string) returns (n: nat)
    requires (d, c) in IndependentPairs(cands)
    ensures n < |DistrictIndependents(IndependentPairs(cands), d)|
    ensures DistrictIndependents(IndependentPairs(cands), d)[n] == c
  {
    var names := DistrictIndependents(IndependentPairs(cands), d);
    assert c in names;
    n :| 0 <= n < |names| && names[n] == c;
  }

  /** An Independent row before `k` is one before any later position. */
  lemma IndependentBeforeGrows(cands: seq<Candidate>, p: (string, string), k: nat, k': nat)
    requires k <= k' <= |cands| && IndependentBefore(cands, p, k)
    ensures IndependentBefore(cands, p, k')
  {
    var c :| c in cands[..k] && IsIndependent(c) && NameKey(c) == p;
    assert cands[..k] == cands[..k'][..k];
  }

  /** `IndependentLabelled` over the pair table. */
  lemma IndependentLabelledInPairs(pairs: seq<(string, string)>, d: string, n: nat)
    requires |DistrictIndependents(pairs, d)| > 1
    requires n < |DistrictIndependents(pairs, d)|
    requires OnlyDistrictOf(pairs, DistrictIndependents(pairs, d)[n], d)
    ensures DistrictIndependents(pairs, d)[n] in RenameMap(GroupOrder(pairs), IndependentsOf(pairs), IndependentLabel)
    ensures RenameMap(GroupOrder(pairs), IndependentsOf(pairs), IndependentLabel)[DistrictIndependents(pairs, d)[n]]
         == IndependentLabel(n + 1)
  {
    var indep := IndependentsOf(pairs);
    var c := DistrictIndependents(pairs, d)[n];
    assert (d, c) in pairs;
    assert d in Column(pairs, PairDistrict) by {
      var k :| 0 <= k < |pairs| && pairs[k] == (d, c);
      assert Column(pairs, PairDistrict)[k] == d;
    }
    forall e | RelabelsIn(indep, e, c)
      ensures e == d
    {
      RelabelsInPairs(pairs, e, c);
    }
    LabelOfPosition(GroupOrder(pairs), indep, IndependentLabel, d, n);
  }

  /** The `n`-th Independent of district `d` gets the label of `n + 1` when no
      other district relabels it. */
  lemma LabelOfPosition(ds: seq<string>, indep: string -> seq<string>, tag: nat -> string, d: string, n: nat)
    requires forall d :: NoDup(indep(d))
    requires d in ds && |indep(d)| > 1 && n < |indep(d)|
    requires forall e :: RelabelsIn(indep, e, indep(d)[n]) ==> e == d
    ensures indep(d)[n] in RenameMap(ds, indep, tag)
    ensures RenameMap(ds, indep, tag)[indep(d)[n]] == tag(n + 1)
  {
    var c := indep(d)[n];
    var id :| 0 <= id < |ds| && ds[id] == d;
    assert RelabelsIn(indep, ds[id], c);
    RenameMapKeys(ds, indep, tag, c);
    RenameMapValue(ds, indep, tag, c);
    var i, k :| LabelledBy(ds, indep, c, i, k) && RenameMap(ds, indep, tag)[c] == tag(k + 1);
    assert RelabelsIn(indep, ds[i], c);
    assert indep(d)[k] == c;
  }

  lemma SortedNoDup2(ds: seq<string>, i: nat, j: nat)
    requires StrictlySorted(ds) && i < |ds| && j < |ds| && ds[i] == ds[j]
    ensures i == j
  {
    if i < j {
      SortedNoDup(ds, i, j);
    } else if j < i {
      SortedNoDup(ds, j, i);
    }
  }

  /** A lone Independent keeps the party "Independent" when the name stands in
      no other district. */
  lemma LoneIndependentKept(cands: seq<Candidate>, d: string, c: string)
    requires (d, c) in IndependentPairs(cands)
    requires OnlyDistrictOf(IndependentPairs(cands), c, d)
    requires |DistrictIndependents(IndependentPairs(cands), d)| <= 1
    ensures c !in IndependentRenames(cands)
  {
    LoneIndependentInPairs(IndependentPairs(cands), d, c);
  }

  /** `LoneIndependentKept` over the pair table. */
  lemma LoneIndependentInPairs(pairs: seq<(string, string)>, d: string, c: string)
    requires (d, c) in pairs
    requires OnlyDistrictOf(pairs, c, d)
    requires |DistrictIndependents(pairs, d)| <= 1
    ensures c !in RenameMap(GroupOrder(pairs), IndependentsOf(pairs), IndependentLabel)
  {
    var indep := IndependentsOf(pairs);
    forall e | RelabelsIn(indep, e, c)
      ensures false
    {
      RelabelsOnlyIn(pairs, d, c, e);
    }
    RenameMapUnlabelled(GroupOrder(pairs), indep, IndependentLabel, c);
  }

  /** A name no district relabels is not in the rename map. */
  lemma RenameMapUnlabelled(ds: seq<string>, indep: string -> seq<string>, tag: nat -> string, c: string)
    requires forall d :: NoDup(indep(d))
    requires forall e :: !RelabelsIn(indep, e, c)
    ensures c !in RenameMap(ds, indep, tag)
  {
    RenameMapKeys(ds, indep, tag, c);
  }

  /** A name standing as an Independent only in `d` is relabelled only by `d`,
      which then has several Independents. */
  lemma RelabelsOnlyIn(pairs: seq<(string, string)>, d: string, c: string, e: string)
    requires OnlyDistrictOf(pairs, c, d) && RelabelsIn(IndependentsOf(pairs), e, c)
    ensures e == d && |DistrictIndependents(pairs, d)| > 1
  {
    RelabelsInPairs(pairs, e, c);
  }

  /** The merge keeps each row's election and district. */
  lemma AttachPartiesKeeps(rows: seq<CandidateRow>, interest: seq<InterestRow>, ridings: Option<seq<string>>)
    requires forall r :: r in rows ==> IsGeneralElection(r.event) && EmDash !in r.districtName && InRidings(r.districtName, ridings)
    ensures forall c :: c in AttachParties(rows, interest) ==>
              IsGeneralElection(c.event) && EmDash !in c.districtName && InRidings(c.districtName, ridings)
  {
    forall c | c in AttachParties(rows, interest)
      ensures IsGeneralElection(c.event) && EmDash !in c.districtName && InRidings(c.districtName, ridings)
    {
      var r :| r in rows && PartyOf(r, interest, c);
    }
  }

  /** Candidate `c` stands for row `r`: same election, district and name. */
  predicate Carries(r: CandidateRow, c: Candidate) {
    c.event == r.event && c.districtName == r.districtName
    && c.districtNumber == r.districtNumber && c.candidate == r.candidate
  }

  /** Some candidate of `out` stands for row `r`. */
  predicate CarriedIn(out: seq<Candidate>, r: CandidateRow) {
    exists c :: c in out && Carries(r, c)
  }

  /** Candidate `c` stands for some row of `rows`. */
  predicate CarriedFrom(rows: seq<CandidateRow>, c: Candidate) {
    exists r :: r in rows && Carries(r, c)
  }

  /** After relabelling Party, every candidate still stands for a prepared row. */
  lemma RenamesCarryFrom(prepared: seq<CandidateRow>, interest: seq<InterestRow>, parties: seq<Candidate>, out: seq<Candidate>)
    requires forall c :: c in parties ==> exists r :: r in prepared && PartyOf(r, interest, c)
    requires |out| == |parties|
    requires forall i :: 0 <= i < |parties| ==> out[i].(party := parties[i].party) == parties[i]
    ensures forall c :: c in out ==> CarriedFrom(prepared, c)
  {
    forall c | c in out
      ensures CarriedFrom(prepared, c)
    {
      var i :| 0 <= i < |out| && out[i] == c;
      assert parties[i] in parties;
      var r :| r in prepared && PartyOf(r, interest, parties[i]);
      assert Carries(r, c);
    }
  }

  /** After relabelling Party, every prepared row still has its candidate. */
  lemma RenamesCarryIn(prepared: seq<CandidateRow>, interest: seq<InterestRow>, parties: seq<Candidate>, out: seq<Candidate>)
    requires forall r :: r in prepared ==> exists c :: c in parties && PartyOf(r, interest, c)
    requires |out| == |parties|
    requires forall i :: 0 <= i < |parties| ==> out[i].(party := parties[i].party) == parties[i]
    ensures forall r :: r in prepared ==> CarriedIn(out, r)
  {
    forall r | r in prepared
      ensures CarriedIn(out, r)
    {
      var p :| p in parties && PartyOf(r, interest, p);
      var i :| 0 <= i < |parties| && parties[i] == p;
      assert out[i] in out;
      assert Carries(r, out[i]);
    }
  }

  /** Candidates standing for prepared rows are of the general election, with
      normalised names, in the requested ridings. */
  lemma CarriedPrepared(rows: seq<CandidateRow>, ridings: Option<seq<string>>, out: seq<Candidate>)
    requires forall c :: c in out ==> CarriedFrom(PrepareCandidates(rows, ridings), c)
    ensures forall c :: c in out ==> IsGeneralElection(c.event) && EmDash !in c.districtName && InRidings(c.districtName, ridings)
  {
    forall c | c in out
      ensures IsGeneralElection(c.event) && EmDash !in c.districtName && InRidings(c.districtName, ridings)
    {
      var r :| r in PrepareCandidates(rows, ridings) && Carries(r, c);
    }
  }

  /** The candidate table as `load_ontario_vote_data` returns it: one candidate
      for each prepared row (exactly one when the party codes of the general
      election are distinct), and no other. */
  function ProcessCandidates(rows: seq<CandidateRow>, interest: seq<InterestRow>, ridings: Option<seq<string>>): (out: seq<Candidate>)
    ensures forall c :: c in out ==> IsGeneralElection(c.event) && EmDash !in c.districtName && InRidings(c.districtName, ridings)
    ensures forall c :: c in out ==> CarriedFrom(PrepareCandidates(rows, ridings), c)
    ensures forall r :: r in PrepareCandidates(rows, ridings) ==> CarriedIn(out, r)
    ensures NoDup(Column(DropByElections(interest, InterestEvent), InterestCode)) ==> |out| == |PrepareCandidates(rows, ridings)|
  {
    var prepared := PrepareCandidates(rows, ridings);
    var general := DropByElections(interest, InterestEvent);
    var parties := AttachParties(prepared, general);
    var out := ApplyRenames(parties, IndependentRenames(parties));
    RenamesCarryFrom(prepared, general, parties, out);
    RenamesCarryIn(prepared, general, parties, out);
    CarriedPrepared(rows, ridings, out);
    out
  }

  // ---------------------------------------------------------------------------
  // PD_NUM

  predicate IsAdvancePoll(poll: string) {
    Contains(poll, "ADV")
  }

  /** The PD_NUM of one poll number, with `parse` standing for
      `get_int_part`: 0 for advance polls, otherwise the numeric part. */
  function PdNum(poll: string, parse: string -> IntPart): (r: Result<Option<nat>, OntarioError>)
    ensures IsAdvancePoll(poll) ==> r == Ok(Some(0))
    ensures !IsAdvancePoll(poll) ==> (r.Err? <==> parse(poll).ParseError?)
    ensures !IsAdvancePoll(poll) && parse(poll).IntValue? ==> r == Ok(Some(parse(poll).value))
    ensures !IsAdvancePoll(poll) && parse(poll).NoMatch? ==> r == Ok(None)
  {
    if IsAdvancePoll(poll) then Ok(Some(0))
    else
      match parse(poll)
      case IntValue(n) => Ok(Some(n))
      case NoMatch => Ok(None)
      case ParseError => Err(PollIdError(poll))
  }

  /** PD_NUM over the return table, failing at the first row whose poll
      number `pd` rejects (`pd` stands for `PdNum` with `get_int_part`). */
  function PdNums(rows: seq<ReturnRow>, pd: string -> Result<Option<nat>, OntarioError>): (r: Result<seq<PollReturn>, OntarioError>)
    ensures r.Ok? <==> forall i :: 0 <= i < |rows| ==> pd(rows[i].pollNumber).Ok?
    ensures r.Ok? ==> |r.value| == |rows|
    ensures r.Ok? ==> forall i :: 0 <= i < |rows| ==> r.value[i] == PollReturn(rows[i], pd(rows[i].pollNumber).value)
    decreases |rows|
  {
    if |rows| == 0 then Ok([])
    else
      match pd(rows[0].pollNumber)
      case Err(e) => Err(e)
      case Ok(n) =>
        match PdNums(rows[1..], pd)
        case Err(e) =>
          assert exists i :: 0 <= i < |rows| - 1 && pd(rows[1..][i].pollNumber).Err?;
          Err(e)
        case Ok(rest) => Ok([PollReturn(rows[0], n)] + rest)
  }

  /** The return table as `load_ontario_vote_data` returns it: the prepared
      rows in order, each with its PD_NUM, or the error of the first poll
      number `pd` rejects. */
  function ProcessReturns(rows: seq<ReturnRow>, ridings: Option<seq<string>>, pd: string -> Result<Option<nat>, OntarioError>)
    : (r: Result<seq<PollReturn>, OntarioError>)
    ensures r.Ok? <==> forall i :: 0 <= i < |PrepareReturns(rows, ridings)| ==> pd(PrepareReturns(rows, ridings)[i].pollNumber).Ok?
    ensures r.Ok? ==> |r.value| == |PrepareReturns(rows, ridings)|
    ensures r.Ok? ==> forall i :: 0 <= i < |r.value| ==>
              && r.value[i].row == PrepareReturns(rows, ridings)[i]
              && pd(r.value[i].row.pollNumber).Ok?
              && r.value[i].pdNum == pd(r.value[i].row.pollNumber).value
  {
    var prepared := PrepareReturns(rows, ridings);
    var r := PdNums(prepared, pd);
    r
  }

  /** The return table loads exactly when `pd` accepts every prepared row's
      poll number. */
  lemma ProcessReturnsOk(rows: seq<ReturnRow>, ridings: Option<seq<string>>, pd: string -> Result<Option<nat>, OntarioError>)
    ensures ProcessReturns(rows, ridings, pd).Ok? <==> forall v :: v in PrepareReturns(rows, ridings) ==> pd(v.pollNumber).Ok?
  {
    PdNumsOk(PrepareReturns(rows, ridings), pd);
  }

  /** `PdNums` succeeds exactly when `pd` accepts every row's poll number. */
  lemma PdNumsOk(rows: seq<ReturnRow>, pd: string -> Result<Option<nat>, OntarioError>)
    ensures PdNums(rows, pd).Ok? <==> forall v :: v in rows ==> pd(v.pollNumber).Ok?
  {
    if !PdNums(rows, pd).Ok? {
      var i :| 0 <= i < |rows| && pd(rows[i].pollNumber).Err?;
      assert rows[i] in rows;
    }
  }

  /** Every returned poll row is a prepared return row with its PD_NUM. */
  lemma ProcessReturnsRows(rows: seq<ReturnRow>, ridings: Option<seq<string>>, pd: string -> Result<Option<nat>, OntarioError>)
    requires ProcessReturns(rows, ridings, pd).Ok?
    ensures forall v :: v in ProcessReturns(rows, ridings, pd).value ==>
              && IsGeneralElection(v.row.event) && EmDash !in v.row.districtName && InRidings(v.row.districtName, ridings)
              && PreparedReturn(rows, ridings, v.row)
              && pd(v.row.pollNumber).Ok? && v.pdNum == pd(v.row.pollNumber).value
  {
    var out := ProcessReturns(rows, ridings, pd).value;
    var prepared := PrepareReturns(rows, ridings);
    forall v | v in out
      ensures v.row in prepared && pd(v.row.pollNumber).Ok? && v.pdNum == pd(v.row.pollNumber).value
    {
      var i :| 0 <= i < |out| && out[i] == v;
      assert prepared[i] in prepared;
    }
  }

  /** PD_NUM with `get_int_part`. */
  function PollPdNum(poll: string): Result<Option<nat>, OntarioError> {
    PdNum(poll, GetIntPart)
  }

  /** `load_ontario_vote_data`. */
  function LoadOntarioVoteData(candidates: seq<CandidateRow>, interest: seq<InterestRow>, returnRows: seq<ReturnRow>,
                               ridings: Option<seq<string>>): (r: Result<OntarioTables, OntarioError>)
    ensures r.Ok? <==> forall v :: v in PrepareReturns(returnRows, ridings) ==> PollPdNum(v.pollNumber).Ok?
    ensures r.Ok? ==> forall c :: c in r.value.candidates ==>
              IsGeneralElection(c.event) && EmDash !in c.districtName && InRidings(c.districtName, ridings)
    ensures r.Ok? ==> forall c :: c in r.value.candidates ==> CarriedFrom(PrepareCandidates(candidates, ridings), c)
    ensures r.Ok? ==> forall x :: x in PrepareCandidates(candidates, ridings) ==> CarriedIn(r.value.candidates, x)
    ensures r.Ok? ==> |r.value.votes| == |PrepareReturns(returnRows, ridings)|
    ensures r.Ok? ==> forall i :: 0 <= i < |r.value.votes| ==> r.value.votes[i].row == PrepareReturns(returnRows, ridings)[i]
    ensures r.Ok? ==> forall v :: v in r.value.votes ==>
              && IsGeneralElection(v.row.event) && EmDash !in v.row.districtName && InRidings(v.row.districtName, ridings)
              && PollPdNum(v.row.pollNumber).Ok? && v.pdNum == PollPdNum(v.row.pollNumber).value
  {
    var votes := ProcessReturns(returnRows, ridings, PollPdNum);
    ProcessReturnsOk(returnRows, ridings, PollPdNum);
    if votes.Err? then Err(votes.error)
    else
      ProcessReturnsRows(returnRows, ridings, PollPdNum);
      Ok(OntarioTables(ProcessCandidates(candidates, interest, ridings), votes.value))
  }

  // ---------------------------------------------------------------------------
  // make_candidate_map

  /** The candidate of the last row of district `d` and party `p`. */
  function LastCandidate(rows: seq<Candidate>, d: nat, p: Option<string>): Option<string>
    decreases |rows|
  {
    if |rows| == 0 then None
    else
      var r := rows[|rows| - 1];
      if r.districtNumber == d && r.party == p then Some(r.candidate)
      else LastCandidate(rows[..|rows| - 1], d, p)
  }

  /** `make_candidate_map`: district number to party to candidate, a later row
      of the same district and party overwriting an earlier one. Grouping by
      district and walking each group in row order visits every (district,
      party) pair's rows in row order, so the map is a fold over the rows. */
  function CandidateMap(rows: seq<Candidate>): (m: map<nat, map<Option<string>, string>>)
    ensures forall d :: d in m <==> exists i :: 0 <= i < |rows| && rows[i].districtNumber == d
    ensures forall d, p :: d in m ==> (p in m[d] <==> LastCandidate(rows, d, p).Some?)
    ensures forall d, p :: d in m && p in m[d] ==> m[d][p] == LastCandidate(rows, d, p).value
    decreases |rows|
  {
    if |rows| == 0 then map[]
    else
      var front := rows[..|rows| - 1];
      var r := rows[|rows| - 1];
      var m := CandidateMap(front);
      var inner := if r.districtNumber in m then m[r.districtNumber] else map[];
      var m' := m[r.districtNumber := inner[r.party := r.candidate]];
      assert rows == front + [r];
      CandidateMapStep(front, r, m, m');
      m'
  }

  lemma CandidateMapStep(front: seq<Candidate>, r: Candidate, m: map<nat, map<Option<string>, string>>,
                         m': map<nat, map<Option<string>, string>>)
    requires forall d :: d in m <==> exists i :: 0 <= i < |front| && front[i].districtNumber == d
    requires forall d, p :: d in m ==> (p in m[d] <==> LastCandidate(front, d, p).Some?)
    requires forall d, p :: d in m && p in m[d] ==> m[d][p] == LastCandidate(front, d, p).value
    requires m' == m[r.districtNumber := (if r.districtNumber in m then m[r.districtNumber] else map[])[r.party := r.candidate]]
    ensures forall d :: d in m' <==> exists i :: 0 <= i < |front + [r]| && (front + [r])[i].districtNumber == d
    ensures forall d, p :: d in m' ==> (p in m'[d] <==> LastCandidate(front + [r], d, p).Some?)
    ensures forall d, p :: d in m' && p in m'[d] ==> m'[d][p] == LastCandidate(front + [r], d, p).value
  {
    var rows := front + [r];
    assert rows[..|rows| - 1] == front;
    forall d | d in m'
      ensures exists i :: 0 <= i < |rows| && rows[i].districtNumber == d
    {
      if d == r.districtNumber {
        assert rows[|rows| - 1].districtNumber == d;
      } else {
        var i :| 0 <= i < |front| && front[i].districtNumber == d;
        assert rows[i] == front[i];
      }
    }
    forall d, p | d in m' && d != r.districtNumber
      ensures LastCandidate(rows, d, p) == LastCandidate(front, d, p)
    {
    }
    forall p | r.districtNumber !in m
      ensures LastCandidate(front, r.districtNumber, p).None?
    {
      LastCandidateAbsent(front, r.districtNumber, p);
    }
  }

  /** A district with no rows has no candidates. */
  lemma {:induction false} LastCandidateAbsent(rows: seq<Candidate>, d: nat, p: Option<string>)
    requires forall i :: 0 <= i < |rows| ==> rows[i].districtNumber != d
    ensures LastCandidate(rows, d, p).None?
    decreases |rows|
  {
    if |rows| > 0 {
      LastCandidateAbsent(rows[..|rows| - 1], d, p);
    }
  }

  /** Row `i` is of district `d` and party `p`, and no later row is. */
  predicate LastRowOf(rows: seq<Candidate>, d: nat, p: Option<string>, i: int) {
    && 0 <= i < |rows|
    && rows[i].districtNumber == d && rows[i].party == p
    && forall j :: i < j < |rows| ==> rows[j].districtNumber != d || rows[j].party != p
  }

  /** The map's candidate for (district, party) really stands for that
      party in that district. */
  lemma {:induction false} LastCandidateSound(rows: seq<Candidate>, d: nat, p: Option<string>)
    requires LastCandidate(rows, d, p).Some?
    ensures exists i :: LastRowOf(rows, d, p, i) && rows[i].candidate == LastCandidate(rows, d, p).value
    decreases |rows|
  {
    var last := |rows| - 1;
    if rows[last].districtNumber == d && rows[last].party == p {
      assert LastRowOf(rows, d, p, last);
    } else {
      var front := rows[..last];
      LastCandidateSound(front, d, p);
      var i :| LastRowOf(front, d, p, i) && front[i].candidate == LastCandidate(front, d, p).value;
      assert rows[i] == front[i];
      assert LastRowOf(rows, d, p, i);
    }
  }
}
