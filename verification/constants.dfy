/** The fixed province/territory code table of constants.py. */
module Constants {

  /** Province and territory abbreviations with their two-digit Elections
      Canada codes, the prefix of every riding number in that province. */
  const ProvCodes: map<string, nat> := map[
    "AB" := 48, "BC" := 59, "MB" := 46, "NB" := 13, "NL" := 10, "NS" := 12, "NT" := 61,
    "NU" := 62, "ON" := 35, "PE" := 11, "QC" := 24, "SK" := 47, "YT" := 60
  ]

  /** The table lists the thirteen provinces and territories. */
  lemma ProvCodesCount()
    ensures |ProvCodes| == 13
  {
    ProvCodesKeys();
    assert |{"AB"}| == 1;
    assert |{"AB", "BC"}| == 2;
    assert |{"AB", "BC", "MB"}| == 3;
    assert |{"AB", "BC", "MB", "NB"}| == 4;
    assert |{"AB", "BC", "MB", "NB", "NL"}| == 5;
    assert |{"AB", "BC", "MB", "NB", "NL", "NS"}| == 6;
    assert |{"AB", "BC", "MB", "NB", "NL", "NS", "NT"}| == 7;
    assert |{"AB", "BC", "MB", "NB", "NL", "NS", "NT", "NU"}| == 8;
    assert |{"AB", "BC", "MB", "NB", "NL", "NS", "NT", "NU", "ON"}| == 9;
    assert |{"AB", "BC", "MB", "NB", "NL", "NS", "NT", "NU", "ON", "PE"}| == 10;
    assert |{"AB", "BC", "MB", "NB", "NL", "NS", "NT", "NU", "ON", "PE", "QC"}| == 11;
    assert |{"AB", "BC", "MB", "NB", "NL", "NS", "NT", "NU", "ON", "PE", "QC", "SK"}| == 12;
    assert |{"AB", "BC", "MB", "NB", "NL", "NS", "NT", "NU", "ON", "PE", "QC", "SK", "YT"}| == 13;
  }

  lemma ProvCodesKeys()
    ensures ProvCodes.Keys == {"AB", "BC", "MB", "NB", "NL", "NS", "NT", "NU", "ON", "PE", "QC", "SK", "YT"}
  {
  }

  /** Every code is a two-digit number between 10 and 62, and Ontario is 35. */
  lemma ProvCodesTwoDigit()
    ensures forall p :: p in ProvCodes ==> 10 <= ProvCodes[p] <= 62
    ensures ProvCodes["ON"] == 35
  {
  }

  /** No two provinces share a code. */
  lemma ProvCodesInjective()
    ensures forall p, q :: p in ProvCodes && q in ProvCodes && p != q ==> ProvCodes[p] != ProvCodes[q]
  {
  }

  /** The inverse table, code to province, which `votes.py` and `geometry.py`
      import as `codeprovs`. */
  function CodeProvs(): (inv: map<nat, string>)
    ensures forall p :: p in ProvCodes ==> ProvCodes[p] in inv && inv[ProvCodes[p]] == p
    ensures forall c :: c in inv ==> inv[c] in ProvCodes && ProvCodes[inv[c]] == c
  {
    ProvCodesInjective();
    var inv := map p | p in ProvCodes :: ProvCodes[p] := p;
    assert forall p :: p in ProvCodes ==> ProvCodes[p] in inv;
    inv
  }
}
