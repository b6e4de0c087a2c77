/** The table logic of utils.py:
    - `get_int_part`, the numeric part of a poll identifier;
    - the riding map (riding name to riding number) built from the first row
      of each per-riding results file, its inverse, and the lookups over it:
      `apply_riding_map`, `validate_ridings`, `provs_from_ridings`;
    - `party_difference` on a numeric column.
    Files, JSON and zip archives are given as values: a stored map, and the
    first two columns of the data rows of each file of a province archive. */
module Utils {
  import opened Wrappers
  import opened Seqs
  import opened Text
  import opened Decimal
  import opened Frames
  import Constants

  // ---------------------------------------------------------------------------
  // get_int_part

  /** What `get_int_part` gives back: the integer; Python's `None` when the
      pattern does not match; or the `ValueError` that `int()` raises when the
      matched text starts with letters. */
  datatype IntPart = IntValue(value: nat) | NoMatch | ParseError

  /** Length of the run of characters satisfying `p` at the start of `s`. */
  function RunLength(s: string, p: char -> bool): (n: nat)
    ensures n <= |s|
    ensures forall i :: 0 <= i < n ==> p(s[i])
    ensures n < |s| ==> !p(s[n])
  {
    if |s| == 0 || !p(s[0]) then 0 else 1 + RunLength(s[1..], p)
  }

  /** A run reaches at least as far as any all-`p` prefix, and stops at the
      first character failing `p`. */
  lemma {:induction false} RunLengthBounds(s: string, p: char -> bool, b: nat)
    requires b <= |s|
    ensures (forall i :: 0 <= i < b ==> p(s[i])) ==> b <= RunLength(s, p)
    ensures b < |s| && !p(s[b]) ==> RunLength(s, p) <= b
    decreases b
  {
    if b > 0 && |s| > 0 && p(s[0]) {
      RunLengthBounds(s[1..], p, b - 1);
    }
  }

  /** `w` splits at `a` into ASCII letters followed by at least one ASCII digit. */
  predicate SplitsAt(w: string, a: int) {
    && 0 <= a < |w|
    && (forall i :: 0 <= i < a ==> IsAsciiLetter(w[i]))
    && (forall i :: a <= i < |w| ==> IsDigit(w[i]))
  }

  /** `w` belongs to the language of the regular expression `[a-zA-Z]*[0-9]+`. */
  ghost predicate InPattern(w: string) {
    exists a :: SplitsAt(w, a)
  }

  /** Any prefix of `t` in the pattern's language consists of exactly the
      leading letters of `t` and some of the digits right after them. */
  lemma PatternPrefixes(t: string)
    ensures var a := RunLength(t, IsAsciiLetter);
            forall n, b :: 0 <= n <= |t| && SplitsAt(t[..n], b) ==>
              b == a && n <= a + RunLength(t[a..], IsDigit) && 0 < RunLength(t[a..], IsDigit)
  {
    var a := RunLength(t, IsAsciiLetter);
    var d := RunLength(t[a..], IsDigit);
    forall n, b | 0 <= n <= |t| && SplitsAt(t[..n], b)
      ensures b == a && n <= a + d && 0 < d
    {
      var w := t[..n];
      assert forall i :: 0 <= i < b ==> IsAsciiLetter(t[i]) by {
        assert forall i :: 0 <= i < b ==> w[i] == t[i];
      }
      RunLengthBounds(t, IsAsciiLetter, b);
      assert !IsAsciiLetter(t[b]) by {
        assert IsDigit(w[b]);
      }
      var u := t[a..];
      assert forall i :: 0 <= i < n - a ==> IsDigit(u[i]) by {
        assert forall i :: 0 <= i < n - a ==> u[i] == w[a + i];
      }
      RunLengthBounds(u, IsDigit, n - a);
    }
  }

  /** The text `re.match(r"[a-zA-Z]*[0-9]+", t)` matches: the longest prefix of
      `t` in the pattern's language (the one the greedy quantifiers pick), or
      nothing when no prefix is in it. */
  function MatchLettersDigits(t: string): (m: Option<string>)
    ensures m.Some? ==> StartsWith(t, m.value) && InPattern(m.value)
    ensures m.Some? ==> forall n :: |m.value| < n <= |t| ==> !InPattern(t[..n])
    ensures m.None? <==> forall n :: 0 <= n <= |t| ==> !InPattern(t[..n])
  {
    var a := RunLength(t, IsAsciiLetter);
    var d := RunLength(t[a..], IsDigit);
    PatternPrefixes(t);
    if d == 0 then None
    else
      assert SplitsAt(t[..a + d], a);
      Some(t[..a + d])
  }

  /** `get_int_part` on an identifier already stripped of whitespace: a
      leading digit gives the value of the leading digits; no prefix in the
      pattern's language gives `None`; a letter-led match makes `int()` fail. */
  function IntPartOfStripped(t: string): (r: IntPart)
    ensures r.IntValue? <==> |t| > 0 && IsDigit(t[0])
    ensures r.IntValue? ==> r.value == Value(t[..RunLength(t, IsDigit)])
    ensures r.NoMatch? <==> forall n :: 0 <= n <= |t| ==> !InPattern(t[..n])
    ensures r.ParseError? <==> |t| > 0 && IsAsciiLetter(t[0]) && exists n :: 0 <= n <= |t| && InPattern(t[..n])
  {
    var a := RunLength(t, IsAsciiLetter);
    var d := RunLength(t[a..], IsDigit);
    assert a == 0 ==> t[a..] == t;
    assert d > 0 ==> InPattern(t[..a + d]) by {
      if d > 0 {
        assert SplitsAt(t[..a + d], a);
      }
    }
    assert a > 0 && d > 0 ==> !IsDigit(t[..a + d][0]);
    match MatchLettersDigits(t)
    case None => NoMatch
    case Some(m) => if AllDigits(m) then IntValue(Value(m)) else ParseError
  }

  /** `get_int_part(s)`: strip surrounding whitespace, match the pattern at the
      start, and convert the matched text with `int()`. */
  function GetIntPart(s: string): IntPart {
    IntPartOfStripped(Strip(s))
  }

  /** Whitespace around a poll identifier does not change its numeric part. */
  lemma GetIntPartIgnoresPadding(a: string, s: string, b: string)
    requires forall k :: 0 <= k < |a| ==> IsSpace(a[k])
    requires forall k :: 0 <= k < |b| ==> IsSpace(b[k])
    ensures GetIntPart(a + s + b) == GetIntPart(s)
  {
    StripPadding(a, s, b, IsSpace);
  }

  /** A digit string followed by a non-digit keeps its digits at the front
      of the stripped text, and they stop there. */
  lemma StripNumeral(num: string, suffix: string)
    requires 0 < |num| && AllDigits(num)
    requires |suffix| == 0 || !IsDigit(suffix[0])
    ensures var t := Strip(num + suffix);
            |num| <= |t| && t[..|num|] == num && (|num| < |t| ==> !IsDigit(t[|num|]))
  {
    var w := num + suffix;
    StripKeepsFront(w, |num|);
    assert w[..|num|] == num;
    var t := Strip(w);
    assert |num| < |t| ==> t[|num|] == suffix[0] by {
      var k :| OccursAt(w, t, k);
      assert t[0] == w[k];
    }
  }

  /** The numeral of `n`, followed by anything that does not continue its
      digits ("17A", "17 B", "17"), reads back as `n`. */
  lemma GetIntPartOfNumeral(n: nat, suffix: string)
    requires |suffix| == 0 || !IsDigit(suffix[0])
    ensures GetIntPart(Show(n) + suffix) == IntValue(n)
  {
    var num := Show(n);
    StripNumeral(num, suffix);
    var t := Strip(num + suffix);
    assert t[..|num|] == num;
    forall i | 0 <= i < |num|
      ensures IsDigit(t[i])
    {
      assert t[i] == t[..|num|][i];
    }
    RunLengthBounds(t, IsDigit, |num|);
    assert RunLength(t, IsDigit) == |num|;
    assert IsDigit(t[0]);
    var r := IntPartOfStripped(t);
    assert r.value == Value(num);
  }

  /** An id without any digit, such as the special-ballot id "S/R" or the
      advance-poll id "ADV", gives `None`. */
  lemma GetIntPartNoDigits(s: string)
    requires forall i :: 0 <= i < |s| ==> !IsDigit(s[i])
    ensures GetIntPart(s) == NoMatch
  {
    var t := Strip(s);
    var k :| OccursAt(s, t, k);
    assert forall i :: 0 <= i < |t| ==> t[i] == s[k + i];
    NoDigitsNoPattern(t);
  }

  /** Text without a digit has no prefix in the pattern's language. */
  lemma NoDigitsNoPattern(t: string)
    requires forall i :: 0 <= i < |t| ==> !IsDigit(t[i])
    ensures forall n :: 0 <= n <= |t| ==> !InPattern(t[..n])
  {
    forall n | 0 <= n <= |t|
      ensures !InPattern(t[..n])
    {
      assert forall i :: 0 <= i < n ==> t[..n][i] == t[i];
      NoDigitNoSplit(t[..n]);
    }
  }

  /** A word without a digit is not in the pattern's language. */
  lemma NoDigitNoSplit(w: string)
    requires forall i :: 0 <= i < |w| ==> !IsDigit(w[i])
    ensures !InPattern(w)
  {
    forall a | 0 <= a < |w|
      ensures !SplitsAt(w, a)
    {
      assert !IsDigit(w[a]);
    }
  }


  /** Letters before a numeral make `int()` raise: "A17" gives the error. */
  lemma GetIntPartLettersFirst(letters: string, n: nat, suffix: string)
    requires |letters| > 0 && forall i :: 0 <= i < |letters| ==> IsAsciiLetter(letters[i])
    ensures GetIntPart(letters + Show(n) + suffix) == ParseError
  {
    var num := Show(n);
    var w := letters + num + suffix;
    var l := |letters| + |num|;
    assert w[..l] == letters + num;
    StripKeepsFront(w, l);
    var t := Strip(w);
    assert SplitsAt(t[..l], |letters|);
  }

  /** A string whose first character and whose `l`-th character are not
      whitespace keeps its first `l` characters when stripped. */
  lemma StripKeepsFront(w: string, l: nat)
    requires 0 < l <= |w| && !IsSpace(w[0]) && !IsSpace(w[l - 1])
    ensures l <= |Strip(w)| && Strip(w)[..l] == w[..l]
  {
    assert TrimLeft(w, IsSpace) == w;
  }

  // ---------------------------------------------------------------------------
  // The province of a riding number

  /** The province code of a riding number, `int(str(rid)[:2])`. */
  function RidingProvinceCode(riding: nat): nat {
    TwoDigitPrefix(riding)
  }

  /** The province of a riding number, `codeprovs[int(str(rid)[:2])]`;
      `None` where that lookup raises. */
  function ProvinceOfRiding(riding: nat): Option<string> {
    var c := RidingProvinceCode(riding);
    if c in Constants.CodeProvs() then Some(Constants.CodeProvs()[c]) else None
  }

  /** A riding number made of a province code and three more digits (35104
      for Thornhill, Ontario) is read back as that province. */
  lemma RidingProvince(p: string, k: nat)
    requires p in Constants.ProvCodes
    requires k < 1000
    ensures RidingProvinceCode(Constants.ProvCodes[p] * 1000 + k) == Constants.ProvCodes[p]
    ensures ProvinceOfRiding(Constants.ProvCodes[p] * 1000 + k) == Some(p)
  {
    var c := Constants.ProvCodes[p];
    assert 10 <= c < 100 by {
      Constants.ProvCodesTwoDigit();
    }
    assert Pow10(3) == 1000;
    PrefixOfCode(c, 3, k);
  }

  // ---------------------------------------------------------------------------
  // Building the riding map

  /** One file of a province's results archive: its name, and the first two
      columns (riding number, riding name) of each of its data rows. */
  datatype RidingFile = RidingFile(fileName: string, rows: seq<(nat, string)>)

  datatype RidingMapError =
    | UnknownProvince(province: string)   // `provcodes[province]` raises
    | MissingVotesFile(code: nat)          // the archive is absent: a message is printed, nothing is written
    | EmptyRidingFile(fileName: string)    // `iloc[0]` of a file with no data rows raises

  predicate NotNewline(c: char) {
    c != '\n'
  }

  /** `re.match(r"pollresults.*csv", name)`: the name starts with "pollresults"
      and "csv" occurs later on its first line (`.` does not match a newline). */
  predicate IsPollResultsCsv(name: string) {
    && StartsWith(name, "pollresults")
    && var rest := name[|"pollresults"|..];
       Contains(rest[..RunLength(rest, NotNewline)], "csv")
  }

  /** A file the map update reads, with at least one data row. */
  predicate ReadableRidingFile(f: RidingFile) {
    IsPollResultsCsv(f.fileName) && |f.rows| > 0
  }

  /** The name a file contributes: its first row's riding name with
      surrounding double quotes stripped. */
  function StoredName(f: RidingFile): (name: string)
    requires |f.rows| > 0
    ensures QuoteFree(name)
  {
    StripQuotes(f.rows[0].1)
  }

  function StoredNumber(f: RidingFile): nat
    requires |f.rows| > 0
  {
    f.rows[0].0
  }

  /** `s` neither starts nor ends with a double quote. */
  predicate QuoteFree(s: string) {
    |s| == 0 || (s[0] != '"' && s[|s| - 1] != '"')
  }

  /** Every file the update reads has a first data row. */
  predicate AllReadable(files: seq<RidingFile>) {
    forall i :: 0 <= i < |files| && IsPollResultsCsv(files[i].fileName) ==> |files[i].rows| > 0
  }

  /** The names the files contribute. */
  function NamesOf(files: seq<RidingFile>): set<string>
    decreases |files|
  {
    if |files| == 0 then {}
    else
      var f := files[|files| - 1];
      NamesOf(files[..|files| - 1]) + if ReadableRidingFile(f) then {StoredName(f)} else {}
  }

  /** The riding number given by the last readable file that names `name`. */
  function LastNumber(files: seq<RidingFile>, name: string): (r: Option<nat>)
    ensures r.Some? <==> name in NamesOf(files)
    decreases |files|
  {
    if |files| == 0 then None
    else
      var f := files[|files| - 1];
      if ReadableRidingFile(f) && StoredName(f) == name then Some(StoredNumber(f))
      else LastNumber(files[..|files| - 1], name)
  }

  /** `r` is what folding `files` into `m` must give: the names of the files
      are added to the keys of `m`, the other keys keep their numbers, and each
      added name has the number of the last file naming it. */
  ghost predicate Folded(m: map<string, nat>, files: seq<RidingFile>, r: map<string, nat>) {
    && r.Keys == m.Keys + NamesOf(files)
    && (forall k :: k in r && k !in NamesOf(files) ==> r[k] == m[k])
    && (forall k :: k in NamesOf(files) ==> r[k] == LastNumber(files, k).value)
  }

  /** `files[i]` is the first file matching the name pattern without a data row. */
  predicate IsFirstEmptyFile(files: seq<RidingFile>, i: int) {
    && 0 <= i < |files|
    && IsPollResultsCsv(files[i].fileName) && |files[i].rows| == 0
    && forall j :: 0 <= j < i ==> !IsPollResultsCsv(files[j].fileName) || |files[j].rows| > 0
  }

  /** The loop of `update_riding_map_file` over the files of one archive, in
      archive order: each file matching the name pattern sets
      `map[name] = number` from its first row; a matching file with no data
      rows raises. */
  function FoldRidingFiles(m: map<string, nat>, files: seq<RidingFile>): (r: Result<map<string, nat>, RidingMapError>)
    ensures r.Ok? <==> AllReadable(files)
    ensures r.Err? ==> exists i :: IsFirstEmptyFile(files, i) && r.error == EmptyRidingFile(files[i].fileName)
    ensures r.Ok? ==> Folded(m, files, r.value)
    decreases |files|
  {
    if |files| == 0 then Ok(m)
    else
      var front := files[..|files| - 1];
      var f := files[|files| - 1];
      assert AllReadable(files) <==> AllReadable(front) && (IsPollResultsCsv(f.fileName) ==> |f.rows| > 0) by {
        assert forall i :: 0 <= i < |front| ==> front[i] == files[i];
      }
      match FoldRidingFiles(m, front)
      case Err(e) =>
        var i :| IsFirstEmptyFile(front, i) && e == EmptyRidingFile(front[i].fileName);
        assert forall j :: 0 <= j <= i ==> files[j] == front[j];
        assert IsFirstEmptyFile(files, i);
        Err(e)
      case Ok(m') =>
        if !IsPollResultsCsv(f.fileName) then
          FoldedSkip(m, files, m');
          Ok(m')
        else if |f.rows| == 0 then
          assert forall j :: 0 <= j < |front| ==> files[j] == front[j];
          assert IsFirstEmptyFile(files, |files| - 1);
          Err(EmptyRidingFile(f.fileName))
        else
          FoldedStep(m, files, m');
          Ok(m'[StoredName(f) := StoredNumber(f)])
  }

  /** A file the update does not read leaves the fold as it was. */
  lemma FoldedSkip(m: map<string, nat>, files: seq<RidingFile>, m': map<string, nat>)
    requires |files| > 0 && !IsPollResultsCsv(files[|files| - 1].fileName)
    requires Folded(m, files[..|files| - 1], m')
    ensures Folded(m, files, m')
  {
    var front := files[..|files| - 1];
    assert NamesOf(files) == NamesOf(front);
    forall k | k in NamesOf(files)
      ensures LastNumber(files, k) == LastNumber(front, k)
    {
    }
  }

  /** A file the update reads sets its name to its number. */
  lemma FoldedStep(m: map<string, nat>, files: seq<RidingFile>, m': map<string, nat>)
    requires |files| > 0 && ReadableRidingFile(files[|files| - 1])
    requires Folded(m, files[..|files| - 1], m')
    ensures Folded(m, files, m'[StoredName(files[|files| - 1]) := StoredNumber(files[|files| - 1])])
  {
    var front := files[..|files| - 1];
    var f := files[|files| - 1];
    var name, num := StoredName(f), StoredNumber(f);
    var r := m'[name := num];
    assert NamesOf(files) == NamesOf(front) + {name};
    assert LastNumber(files, name) == Some(num);
    forall k | k in NamesOf(files) && k != name
      ensures LastNumber(files, k) == LastNumber(front, k)
    {
    }
    assert r.Keys == m.Keys + NamesOf(files);
    forall k | k in r && k !in NamesOf(files)
      ensures r[k] == m[k]
    {
      assert k != name && k !in NamesOf(front);
    }
    forall k | k in NamesOf(files)
      ensures r[k] == LastNumber(files, k).value
    {
      if k != name {
        assert k in NamesOf(front);
      }
    }
  }

  /** `update_riding_map_file(province)`: look up the province code, read the
      archive of that code (`archives` holds the archives present), and fold
      its files into the stored map (an empty map when none is stored yet). */
  function UpdateRidingMapFile(stored: Option<map<string, nat>>, province: string,
                               archives: map<nat, seq<RidingFile>>): (r: Result<map<string, nat>, RidingMapError>)
    ensures province !in Constants.ProvCodes ==> r == Err(UnknownProvince(province))
    ensures province in Constants.ProvCodes && Constants.ProvCodes[province] !in archives ==>
              r == Err(MissingVotesFile(Constants.ProvCodes[province]))
    ensures r.Ok? ==> && province in Constants.ProvCodes && Constants.ProvCodes[province] in archives
                      && Folded(stored.GetOr(map[]), archives[Constants.ProvCodes[province]], r.value)
  {
    if province !in Constants.ProvCodes then Err(UnknownProvince(province))
    else
      var code := Constants.ProvCodes[province];
      if code !in archives then Err(MissingVotesFile(code))
      else FoldRidingFiles(stored.GetOr(map[]), archives[code])
  }

  /** Last write wins: a file whose name no later readable file repeats leaves
      its own number in the map. */
  lemma LastWriteWins(m: map<string, nat>, files: seq<RidingFile>, i: nat)
    requires FoldRidingFiles(m, files).Ok?
    requires i < |files| && ReadableRidingFile(files[i])
    requires forall j :: i < j < |files| && ReadableRidingFile(files[j]) ==> StoredName(files[j]) != StoredName(files[i])
    ensures StoredName(files[i]) in FoldRidingFiles(m, files).value
    ensures FoldRidingFiles(m, files).value[StoredName(files[i])] == StoredNumber(files[i])
  {
    LastNumberOfLastFile(files, i);
  }

  lemma {:induction false} LastNumberOfLastFile(files: seq<RidingFile>, i: nat)
    requires i < |files| && ReadableRidingFile(files[i])
    requires forall j :: i < j < |files| && ReadableRidingFile(files[j]) ==> StoredName(files[j]) != StoredName(files[i])
    ensures LastNumber(files, StoredName(files[i])) == Some(StoredNumber(files[i]))
    decreases |files|
  {
    if i < |files| - 1 {
      var front := files[..|files| - 1];
      assert front[i] == files[i];
      LastNumberOfLastFile(front, i);
    }
  }

  /** Names stored by the update carry no surrounding double quotes: if the
      stored map had none, the updated one has none. */
  lemma StoredNamesQuoteFree(m: map<string, nat>, files: seq<RidingFile>)
    requires FoldRidingFiles(m, files).Ok?
    requires forall k :: k in m ==> QuoteFree(k)
    ensures forall k :: k in FoldRidingFiles(m, files).value ==> QuoteFree(k)
  {
  }

  /** Rebuilding from the same archive changes nothing: folding the files into
      the map they produced gives that map back. */
  lemma RebuildIdempotent(m: map<string, nat>, files: seq<RidingFile>)
    requires FoldRidingFiles(m, files).Ok?
    ensures FoldRidingFiles(FoldRidingFiles(m, files).value, files) == FoldRidingFiles(m, files)
  {
    var r := FoldRidingFiles(m, files).value;
    var r2 := FoldRidingFiles(r, files);
    assert r2.Ok?;
    assert r2.value.Keys == r.Keys;
    forall k | k in r
      ensures r2.value[k] == r[k]
    {
    }
    assert r2.value == r;
  }

  // ---------------------------------------------------------------------------
  // The inverse riding map

  /** A Python dict's contents in iteration order. */
  function ItemsMap(items: seq<(string, nat)>): (m: map<string, nat>)
    ensures forall i :: 0 <= i < |items| ==> items[i].0 in m
    ensures forall k :: k in m ==> exists i :: 0 <= i < |items| && items[i].0 == k
    decreases |items|
  {
    if |items| == 0 then map[]
    else
      var front := items[..|items| - 1];
      var last := items[|items| - 1];
      assert forall i :: 0 <= i < |front| ==> front[i] == items[i];
      assert forall k :: k in ItemsMap(front) ==> exists i :: 0 <= i < |items| && items[i].0 == k by {
        forall k | k in ItemsMap(front)
          ensures exists i :: 0 <= i < |items| && items[i].0 == k
        {
          var i :| 0 <= i < |front| && front[i].0 == k;
          assert items[i].0 == k;
        }
      }
      assert items[|items| - 1].0 == last.0;
      ItemsMap(front)[last.0 := last.1]
  }

  /** No two items share a name, as in the items of a dict. */
  predicate DistinctNames(items: seq<(string, nat)>) {
    forall i, j :: 0 <= i < j < |items| ==> items[i].0 != items[j].0
  }

  /** With distinct keys (as a dict has), each item is the map's entry. */
  lemma {:induction false} ItemsMapEntry(items: seq<(string, nat)>, i: nat)
    requires DistinctNames(items)
    requires i < |items|
    ensures ItemsMap(items)[items[i].0] == items[i].1
    decreases |items|
  {
    var n := |items|;
    if i < n - 1 {
      var front := items[..n - 1];
      assert items[i].0 != items[n - 1].0;
      assert forall j :: 0 <= j < |front| ==> front[j] == items[j];
      ItemsMapEntry(front, i);
    }
  }

  predicate Injective(m: map<string, nat>) {
    forall x, y :: x in m && y in m && x != y ==> m[x] != m[y]
  }

  /** No later item carries the same value as item `i`. */
  predicate LastWithValue(items: seq<(string, nat)>, i: nat)
    requires i < |items|
  {
    forall j :: i < j < |items| ==> items[j].1 != items[i].1
  }

  /** `inv` inverts the items: it knows every item's number, each of its
      entries is an item, and a number no later item repeats maps to its name. */
  ghost predicate IsInverse(items: seq<(string, nat)>, inv: map<nat, string>) {
    && (forall i :: 0 <= i < |items| ==> items[i].1 in inv)
    && (forall v :: v in inv ==> exists i :: 0 <= i < |items| && items[i] == (inv[v], v))
    && (forall i :: 0 <= i < |items| && LastWithValue(items, i) ==> inv[items[i].1] == items[i].0)
  }

  /** `get_inv_riding_map`: `{v: k for k, v in riding_map.items()}`, so for a
      number shared by several names the name iterated last wins. */
  function InvRidingMap(items: seq<(string, nat)>): (inv: map<nat, string>)
    ensures IsInverse(items, inv)
    decreases |items|
  {
    if |items| == 0 then map[]
    else
      var inv' := InvRidingMap(items[..|items| - 1]);
      InverseStep(items, inv');
      inv'[items[|items| - 1].1 := items[|items| - 1].0]
  }

  /** Adding one item to the dict comprehension keeps it an inverse. */
  lemma InverseStep(items: seq<(string, nat)>, inv': map<nat, string>)
    requires |items| > 0 && IsInverse(items[..|items| - 1], inv')
    ensures IsInverse(items, inv'[items[|items| - 1].1 := items[|items| - 1].0])
  {
    InverseStepKeys(items, inv');
    InverseStepEntries(items, inv');
    InverseStepLast(items, inv');
  }

  lemma InverseStepKeys(items: seq<(string, nat)>, inv': map<nat, string>)
    requires |items| > 0 && IsInverse(items[..|items| - 1], inv')
    ensures var inv := inv'[items[|items| - 1].1 := items[|items| - 1].0];
            forall i :: 0 <= i < |items| ==> items[i].1 in inv
  {
    var front := items[..|items| - 1];
    assert forall i :: 0 <= i < |front| ==> front[i] == items[i];
  }

  lemma InverseStepEntries(items: seq<(string, nat)>, inv': map<nat, string>)
    requires |items| > 0 && IsInverse(items[..|items| - 1], inv')
    ensures var inv := inv'[items[|items| - 1].1 := items[|items| - 1].0];
            forall v :: v in inv ==> exists i :: 0 <= i < |items| && items[i] == (inv[v], v)
  {
    var front := items[..|items| - 1];
    var last := items[|items| - 1];
    var inv := inv'[last.1 := last.0];
    forall v | v in inv
      ensures exists i :: 0 <= i < |items| && items[i] == (inv[v], v)
    {
      if v == last.1 {
        assert items[|front|] == (inv[v], v);
      } else {
        var i :| 0 <= i < |front| && front[i] == (inv'[v], v);
        assert items[i] == (inv[v], v);
      }
    }
  }

  lemma InverseStepLast(items: seq<(string, nat)>, inv': map<nat, string>)
    requires |items| > 0 && IsInverse(items[..|items| - 1], inv')
    ensures var inv := inv'[items[|items| - 1].1 := items[|items| - 1].0];
            forall i :: 0 <= i < |items| && LastWithValue(items, i) ==> items[i].1 in inv && inv[items[i].1] == items[i].0
  {
    var last := items[|items| - 1];
    var inv := inv'[last.1 := last.0];
    forall i | 0 <= i < |items| && LastWithValue(items, i)
      ensures items[i].1 in inv && inv[items[i].1] == items[i].0
    {
      if i < |items| - 1 {
        InverseFrontEntry(items, inv', i);
      }
    }
  }

  /** An item before the last, the last with its value, keeps the entry the
      inverse of the earlier items gave it, and the last item does not touch it. */
  lemma InverseFrontEntry(items: seq<(string, nat)>, inv': map<nat, string>, i: nat)
    requires i < |items| - 1 && LastWithValue(items, i) && IsInverse(items[..|items| - 1], inv')
    ensures items[|items| - 1].1 != items[i].1
    ensures items[i].1 in inv' && inv'[items[i].1] == items[i].0
  {
    var front := items[..|items| - 1];
    LastWithValueFront(items, i);
    assert front[i] == items[i];
  }

  /** An item that is the last with its value, before the last item, is also
      the last with its value among the items before the last. */
  lemma LastWithValueFront(items: seq<(string, nat)>, i: nat)
    requires i < |items| - 1 && LastWithValue(items, i)
    ensures items[|items| - 1].1 != items[i].1
    ensures LastWithValue(items[..|items| - 1], i)
  {
    var front := items[..|items| - 1];
    assert forall j :: 0 <= j < |front| ==> front[j] == items[j];
  }

  /** Every item of an injective dict is the only one with its value. */
  lemma InjectiveItems(items: seq<(string, nat)>)
    requires DistinctNames(items)
    requires Injective(ItemsMap(items))
    ensures forall i :: 0 <= i < |items| ==> LastWithValue(items, i)
  {
    var m := ItemsMap(items);
    forall i, j | 0 <= i < j < |items|
      ensures items[j].1 != items[i].1
    {
      ItemsMapEntry(items, i);
      ItemsMapEntry(items, j);
    }
  }

  /** Round trip: when the riding map is injective (no two names share a
      number), the inverse sends each name's number back to the name. */
  lemma InverseRoundTrip(items: seq<(string, nat)>)
    requires DistinctNames(items)
    requires Injective(ItemsMap(items))
    ensures var m := ItemsMap(items);
            forall n :: n in m ==> m[n] in InvRidingMap(items) && InvRidingMap(items)[m[n]] == n
  {
    var m := ItemsMap(items);
    var inv := InvRidingMap(items);
    InjectiveItems(items);
    forall n | n in m
      ensures m[n] in inv && inv[m[n]] == n
    {
      var i :| 0 <= i < |items| && items[i].0 == n;
      ItemsMapEntry(items, i);
    }
  }

  /** The numbers the inverse knows are exactly the numbers of the map. */
  lemma InverseKeys(items: seq<(string, nat)>)
    requires DistinctNames(items)
    ensures InvRidingMap(items).Keys == ItemsMap(items).Values
  {
    InverseKeysOfMap(items);
    InverseKeysOfItems(items);
  }

  lemma InverseKeysOfMap(items: seq<(string, nat)>)
    requires DistinctNames(items)
    ensures forall v :: v in InvRidingMap(items) ==> v in ItemsMap(items).Values
  {
    var m := ItemsMap(items);
    var inv := InvRidingMap(items);
    forall v | v in inv
      ensures v in m.Values
    {
      var i :| 0 <= i < |items| && items[i] == (inv[v], v);
      ItemsMapEntry(items, i);
      assert m[items[i].0] == v;
    }
  }

  lemma InverseKeysOfItems(items: seq<(string, nat)>)
    ensures forall v :: v in ItemsMap(items).Values ==> v in InvRidingMap(items)
  {
    var m := ItemsMap(items);
    forall v | v in m.Values
      ensures v in InvRidingMap(items)
    {
      var n :| n in m && m[n] == v;
      ItemsMapValue(items, n);
    }
  }

  /** Every entry of the dict comes from one of its items. */
  lemma {:induction false} ItemsMapValue(items: seq<(string, nat)>, n: string)
    requires n in ItemsMap(items)
    ensures exists i :: 0 <= i < |items| && items[i] == (n, ItemsMap(items)[n])
    decreases |items|
  {
    var last := items[|items| - 1];
    if n == last.0 {
      assert items[|items| - 1] == (n, ItemsMap(items)[n]);
    } else {
      var front := items[..|items| - 1];
      ItemsMapValue(front, n);
      var i :| 0 <= i < |front| && front[i] == (n, ItemsMap(front)[n]);
      assert items[i] == front[i];
    }
  }

  /** Whatever the map, every number of the inverse is named by the name it gives. */
  lemma InverseSound(items: seq<(string, nat)>)
    requires DistinctNames(items)
    ensures forall v :: v in InvRidingMap(items) ==>
              InvRidingMap(items)[v] in ItemsMap(items) && ItemsMap(items)[InvRidingMap(items)[v]] == v
  {
    forall v | v in InvRidingMap(items)
      ensures InvRidingMap(items)[v] in ItemsMap(items) && ItemsMap(items)[InvRidingMap(items)[v]] == v
    {
      var i :| 0 <= i < |items| && items[i] == (InvRidingMap(items)[v], v);
      ItemsMapEntry(items, i);
    }
  }

  // ---------------------------------------------------------------------------
  // Lookups over the riding map

  datatype RidingError = UnknownRiding(name: string)   // `riding_map[rid]` raises `KeyError`

  predicate AllKnown(ridingMap: map<string, nat>, ridings: seq<string>) {
    forall i :: 0 <= i < |ridings| ==> ridings[i] in ridingMap
  }

  /** `ridings[i]` is the first riding the map lacks. */
  predicate IsFirstUnknown(ridingMap: map<string, nat>, ridings: seq<string>, i: int) {
    0 <= i < |ridings| && ridings[i] !in ridingMap && forall j :: 0 <= j < i ==> ridings[j] in ridingMap
  }

  /** `apply_riding_map`: `[riding_map[rid] for rid in ridings]`. */
  function ApplyRidingMap(ridingMap: map<string, nat>, ridings: seq<string>): (r: Result<seq<nat>, RidingError>)
    ensures r.Ok? <==> AllKnown(ridingMap, ridings)
    ensures r.Ok? ==> |r.value| == |ridings| && forall i :: 0 <= i < |ridings| ==> r.value[i] == ridingMap[ridings[i]]
    ensures r.Err? ==> exists i :: IsFirstUnknown(ridingMap, ridings, i) && r.error == UnknownRiding(ridings[i])
    decreases |ridings|
  {
    if |ridings| == 0 then Ok([])
    else if ridings[0] !in ridingMap then
      assert IsFirstUnknown(ridingMap, ridings, 0);
      Err(UnknownRiding(ridings[0]))
    else
      match ApplyRidingMap(ridingMap, ridings[1..])
      case Err(e) =>
        var i :| IsFirstUnknown(ridingMap, ridings[1..], i) && e == UnknownRiding(ridings[1..][i]);
        assert IsFirstUnknown(ridingMap, ridings, i + 1);
        Err(e)
      case Ok(codes) => Ok([ridingMap[ridings[0]]] + codes)
  }

  /** `validate_ridings`: the riding names the map knows, in their given order. */
  function ValidateRidings(ridingMap: map<string, nat>, ridings: seq<string>): (valid: seq<string>)
    ensures IsSubsequence(valid, ridings)
    ensures forall x :: x in valid <==> x in ridings && x in ridingMap
    ensures forall x :: x in ridingMap ==> multiset(valid)[x] == multiset(ridings)[x]
  {
    FilterIsSubsequence(x => x in ridingMap, ridings);
    FilterCount(x => x in ridingMap, ridings);
    Filter(x => x in ridingMap, ridings)
  }

  /** Validating a validated list changes nothing. */
  lemma ValidateIdempotent(ridingMap: map<string, nat>, ridings: seq<string>)
    ensures ValidateRidings(ridingMap, ValidateRidings(ridingMap, ridings)) == ValidateRidings(ridingMap, ridings)
  {
    FilterIdempotent(x => x in ridingMap, ridings);
  }

  /** A list passes validation unchanged exactly when every riding in it can
      be looked up; a validated list can always be looked up. */
  lemma ValidateThenApply(ridingMap: map<string, nat>, ridings: seq<string>)
    ensures ApplyRidingMap(ridingMap, ValidateRidings(ridingMap, ridings)).Ok?
    ensures ValidateRidings(ridingMap, ridings) == ridings <==> ApplyRidingMap(ridingMap, ridings).Ok?
  {
    if AllKnown(ridingMap, ridings) {
      FilterAll(x => x in ridingMap, ridings);
    }
  }

  /** Looking ridings up and then inverting gives the ridings back when the map
      is injective. */
  lemma ApplyThenInvert(items: seq<(string, nat)>, ridings: seq<string>)
    requires DistinctNames(items)
    requires Injective(ItemsMap(items))
    requires ApplyRidingMap(ItemsMap(items), ridings).Ok?
    ensures var codes := ApplyRidingMap(ItemsMap(items), ridings).value;
            forall i :: 0 <= i < |ridings| ==> codes[i] in InvRidingMap(items) && InvRidingMap(items)[codes[i]] == ridings[i]
  {
    InverseRoundTrip(items);
    InverseAfterLookup(ItemsMap(items), InvRidingMap(items), ridings);
  }

  lemma InverseAfterLookup(m: map<string, nat>, inv: map<nat, string>, ridings: seq<string>)
    requires forall n :: n in m ==> m[n] in inv && inv[m[n]] == n
    requires ApplyRidingMap(m, ridings).Ok?
    ensures var codes := ApplyRidingMap(m, ridings).value;
            forall i :: 0 <= i < |ridings| ==> codes[i] in inv && inv[codes[i]] == ridings[i]
  {
  }

  /** The province codes of a list of known ridings, one per riding. */
  function RidingPrefixes(ridingMap: map<string, nat>, ridings: seq<string>): (ps: seq<nat>)
    requires AllKnown(ridingMap, ridings)
    ensures |ps| == |ridings|
    ensures forall i :: 0 <= i < |ridings| ==> ps[i] == RidingProvinceCode(ridingMap[ridings[i]])
  {
    seq(|ridings|, i requires 0 <= i < |ridings| => RidingProvinceCode(ridingMap[ridings[i]]))
  }

  /** `provs_from_ridings`: the province codes the ridings span, without
      duplicates, in the order they first appear. */
  method ProvsFromRidings(ridingMap: map<string, nat>, ridings: seq<string>) returns (r: Result<seq<nat>, RidingError>)
    ensures r.Ok? <==> AllKnown(ridingMap, ridings)
    ensures r.Err? ==> exists i :: IsFirstUnknown(ridingMap, ridings, i) && r.error == UnknownRiding(ridings[i])
    ensures r.Ok? ==> NoDup(r.value)
    ensures r.Ok? ==> forall c :: c in r.value <==> c in RidingPrefixes(ridingMap, ridings)
    ensures r.Ok? ==> forall i, j, k :: 0 <= i < j < |r.value| && 0 <= k < |ridings|
                         && RidingPrefixes(ridingMap, ridings)[k] == r.value[j]
                         ==> AllBefore(r.value[i], RidingPrefixes(ridingMap, ridings), k)
  {
    var codes: seq<nat> := [];
    ghost var seen: seq<nat> := [];
    var n := 0;
    while n < |ridings|
      invariant 0 <= n <= |ridings|
      invariant AllKnown(ridingMap, ridings[..n])
      invariant seen == RidingPrefixes(ridingMap, ridings[..n])
      invariant codes == Distinct(seen)
    {
      if ridings[n] !in ridingMap {
        assert IsFirstUnknown(ridingMap, ridings, n) by {
          assert forall j :: 0 <= j < n ==> ridings[..n][j] == ridings[j];
        }
        return Err(UnknownRiding(ridings[n]));
      }
      var code := RidingProvinceCode(ridingMap[ridings[n]]);
      if code !in codes {
        codes := codes + [code];
      }
      assert (seen + [code])[..|seen|] == seen;
      seen := seen + [code];
      assert ridings[..n + 1] == ridings[..n] + [ridings[n]];
      n := n + 1;
    }
    assert ridings[..n] == ridings;
    DistinctFirstAppearance(seen);
    return Ok(codes);
  }

  // ---------------------------------------------------------------------------
  // party_difference

  /** One row of the frame `party_difference` returns: the first party's value
      of the compared column (0 where it had no row) and the difference. */
  datatype DiffRow = DiffRow(value: int, difference: int)

  datatype PartyError = UnknownParty(party: string)   // `xs(level="Party", key=party)` raises `KeyError`

  /** `gdf.xs(level="Party", key=party)`: the party's rows, keyed by the rest of the index. */
  function PartySlice<K(==,!new)>(table: map<(K, string), int>, party: string): (s: map<K, int>)
    ensures forall k :: k in s <==> (k, party) in table
    ensures forall k :: k in s ==> s[k] == table[(k, party)]
  {
    map kp | kp in table.Keys && kp.1 == party :: kp.0 := table[kp]
  }

  /** `party_difference` on a numeric column: the two parties' slices, brought
      to the union of their indexes with missing values filled with 0 when the
      indexes differ, and subtracted. */
  function PartyDifference<K(==,!new)>(table: map<(K, string), int>, party1: string, party2: string): (r: Result<map<K, DiffRow>, PartyError>)
    ensures r.Err? <==> PartySlice(table, party1) == map[] || PartySlice(table, party2) == map[]
    ensures r.Ok? ==> forall k :: k in r.value <==> (k, party1) in table || (k, party2) in table
    ensures r.Ok? ==> forall k :: (k, party1) in table && (k, party2) in table ==>
                        r.value[k] == DiffRow(table[(k, party1)], table[(k, party1)] - table[(k, party2)])
    ensures r.Ok? ==> forall k :: (k, party1) in table && (k, party2) !in table ==>
                        r.value[k] == DiffRow(table[(k, party1)], table[(k, party1)])
    ensures r.Ok? ==> forall k :: (k, party1) !in table && (k, party2) in table ==>
                        r.value[k] == DiffRow(0, -table[(k, party2)])
  {
    var s1 := PartySlice(table, party1);
    var s2 := PartySlice(table, party2);
    if s1 == map[] then Err(UnknownParty(party1))
    else if s2 == map[] then Err(UnknownParty(party2))
    else if s1.Keys == s2.Keys then
      Ok(map k | k in s1 :: DiffRow(s1[k], s1[k] - s2[k]))
    else
      var index := s1.Keys + s2.Keys;
      var v1 := map k | k in index :: if k in s1 then s1[k] else 0;
      var v2 := map k | k in index :: if k in s2 then s2[k] else 0;
      Ok(map k | k in index :: DiffRow(v1[k], v1[k] - v2[k]))
  }

  /** Swapping the parties negates every difference. */
  lemma PartyDifferenceAntisymmetric<K(!new)>(table: map<(K, string), int>, party1: string, party2: string)
    requires PartyDifference(table, party1, party2).Ok?
    ensures PartyDifference(table, party2, party1).Ok?
    ensures var d := PartyDifference(table, party1, party2).value;
            var e := PartyDifference(table, party2, party1).value;
            d.Keys == e.Keys && forall k :: k in d ==> d[k].difference == -e[k].difference
  {
  }
}
