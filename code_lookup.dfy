/** The country-code route (`api_alpha2_v1`, index.py lines 222-326): a raw
    path segment holding one alpha-2 or alpha-3 code, or a comma-separated
    list of them, is normalised, each alpha-3 code is converted to its alpha-2
    counterpart, the codes are validated, and the dataset records of the
    remaining codes are returned. */
module CodeLookup {
  import opened Text
  import opened Results
  import opened Iso3166

  // ----- The steps of the route -----

  /** Line 256: the input upper-cased, then every space removed, then every
      "%20" removed; without a '%' in the input, only the first two steps
      change anything. */
  function NormalizeCode(raw: string): (r: string)
    ensures forall c :: c in r ==> !IsLowerAscii(c) && c != ' '
    ensures r == ReplaceAll(RemoveChar(Upper(raw), ' '), "%20", "")
    ensures '%' !in raw ==> r == RemoveChar(Upper(raw), ' ')
  {
    NormalizeSteps(raw);
    ReplaceAll(ReplaceAll(Upper(raw), " ", ""), "%20", "")
  }

  /** Removing the spaces is a filter, and a '%' can only come from the input. */
  lemma NormalizeSteps(raw: string)
    ensures ReplaceAll(Upper(raw), " ", "") == RemoveChar(Upper(raw), ' ')
    ensures '%' !in raw ==> ReplaceAll(RemoveChar(Upper(raw), ' '), "%20", "") == RemoveChar(Upper(raw), ' ')
  {
    ReplaceCharRemoves(Upper(raw), ' ');
    if '%' !in raw {
      assert '%' !in Upper(raw);
      ReplaceAbsent(RemoveChar(Upper(raw), ' '), "%20", "");
    }
  }

  /** Lines 264-284, `convert_to_alpha2`: the alpha-2 code of an alpha-3
      code, or nothing when the code is not an alpha-3 key. */
  function Alpha3ToAlpha2(t: Tables, code: string): (r: Option<string>)
    ensures r.Some? <==> code in t.byAlpha3
    ensures r.Some? ==> r.value == t.byAlpha3[code]
  {
    if code in t.byAlpha3 then Some(t.byAlpha3[code]) else None
  }

  /** Lines 293-300 and 306-313: a three-character token is replaced by its
      alpha-2 code, or ends the request when it is not an alpha-3 code; any
      other token is kept. */
  function ConvertCode(t: Tables, code: string): Result<string>
  {
    if |code| == 3 then
      match Alpha3ToAlpha2(t, code)
      case None => Err(InvalidAlpha3(code))
      case Some(a) => Ok(a)
    else Ok(code)
  }

  /** The pattern ^[A-Z]{2}$ under `re.match`: two upper-case ASCII letters, where `$`
      also matches just before a final newline. */
  predicate MatchesAlpha2Pattern(s: string)
  {
    && 2 <= |s| <= 3
    && IsUpperAscii(s[0]) && IsUpperAscii(s[1])
    && (|s| == 3 ==> s[2] == '\n')
  }

  /** Line 302: the test a token of a list must pass to stay in it. */
  predicate KnownAlpha2(t: Tables, c: string)
  {
    MatchesAlpha2Pattern(c) && c in t.alpha2
  }

  /** Lines 291-303 from iteration `i` on: a loop over the indices below `n` of a
      list that the body converts in place and removes invalid codes from.
      Indexing past the end of the shrunk list raises IndexError. */
  function ValidateFrom(t: Tables, codes: seq<string>, n: nat, i: nat): (r: Result<seq<string>>)
    ensures r.Err? ==> r.error == IndexError || r.error.InvalidAlpha3?
    decreases n - i
  {
    if i >= n then Ok(codes)
    else if i >= |codes| then Err(IndexError)
    else
      var c :- ConvertCode(t, codes[i]);
      var updated := codes[i := c];
      assert updated[i] == c;
      if !KnownAlpha2(t, c) then ValidateFrom(t, RemoveFirst(updated, c), n, i + 1)
      else ValidateFrom(t, updated, n, i + 1)
  }

  /** Lines 288-303: the tokens of a list, split at commas and stripped of
      whitespace, then validated as they run. */
  function ValidateMulti(t: Tables, s: string): Result<seq<string>>
  {
    var codes := StripEach(Split(s, ','), PythonWhitespace);
    ValidateFrom(t, codes, |codes|, 0)
  }

  /** Lines 305-320: a single token, converted when it has three characters,
      must then match the pattern and be an alpha-2 or alpha-3 key. */
  function ValidateSingle(t: Tables, code: string): Result<seq<string>>
  {
    var c :- ConvertCode(t, code);
    if !MatchesAlpha2Pattern(c) || (c !in t.alpha2 && c !in t.byAlpha3) then Err(InvalidAlpha2(c))
    else Ok([c])
  }

  /** Line 288: a token list when the code holds a comma, else a single token. */
  function Validate(t: Tables, code: string): Result<seq<string>>
  {
    if ',' in code then ValidateMulti(t, code) else ValidateSingle(t, code)
  }

  /** The whole route. Sorting the one-element list of line 256 leaves it as
      it is, so the list is written as that element. */
  function Lookup<R>(raw: string, t: Tables, ds: map<string, R>): Result<map<string, R>>
  {
    var codes := [NormalizeCode(raw)];
    if codes == [] then Err(EmptyCode)
    else
      var valid :- Validate(t, codes[0]);
      Assemble(valid, ds)
  }

  // ----- The route as it runs -----

  method ApiAlpha2<R>(raw: string, t: Tables, ds: map<string, R>) returns (r: Result<map<string, R>>)
    ensures r == Lookup(raw, t, ds)
  {
    var codes := [NormalizeCode(raw)];
    var valid: Result<seq<string>>;
    if ',' in codes[0] {
      valid := ValidateList(t, StripEach(Split(codes[0], ','), PythonWhitespace));
    } else {
      valid := ValidateOne(t, codes[0]);
    }
    if valid.Err? {
      return Err(valid.error);
    }
    r := AssembleRecords(valid.value, ds);
  }

  /** Lines 291-303: the loop over the list of tokens. */
  method ValidateList(t: Tables, tokens: seq<string>) returns (r: Result<seq<string>>)
    ensures r == ValidateFrom(t, tokens, |tokens|, 0)
  {
    var codes := tokens;
    var n := |codes|;
    for i := 0 to n
      invariant ValidateFrom(t, tokens, n, 0) == ValidateFrom(t, codes, n, i)
    {
      if i >= |codes| {
        return Err(IndexError);
      }
      ghost var before := codes;
      if |codes[i]| == 3 {
        var a := Alpha3ToAlpha2(t, codes[i]);
        if a.None? {
          return Err(InvalidAlpha3(codes[i]));
        }
        codes := codes[i := a.value];
      }
      assert ConvertCode(t, before[i]) == Ok(codes[i]) && codes == before[i := codes[i]];
      if !MatchesAlpha2Pattern(codes[i]) || codes[i] !in t.alpha2 {
        codes := RemoveFirst(codes, codes[i]);
      }
    }
    return Ok(codes);
  }

  /** Lines 305-320: the checks on a single token. */
  method ValidateOne(t: Tables, code: string) returns (r: Result<seq<string>>)
    ensures r == ValidateSingle(t, code)
  {
    var c := code;
    if |c| == 3 {
      var a := Alpha3ToAlpha2(t, c);
      if a.None? {
        return Err(InvalidAlpha3(c));
      }
      c := a.value;
    }
    if !MatchesAlpha2Pattern(c) || (c !in t.alpha2 && c !in t.byAlpha3) {
      return Err(InvalidAlpha2(c));
    }
    return Ok([c]);
  }

  // ----- Properties -----

  /** The code a token stands for after conversion. */
  function Converted(t: Tables, c: string): string
  {
    if |c| == 3 && c in t.byAlpha3 then t.byAlpha3[c] else c
  }

  /** A token that converts and then passes the test of line 302. */
  predicate Good(t: Tables, c: string)
  {
    ConvertCode(t, c).Ok? && KnownAlpha2(t, ConvertCode(t, c).value)
  }

  function ConvertEach(t: Tables, cs: seq<string>): (r: seq<string>)
    ensures |r| == |cs|
  {
    seq(|cs|, j requires 0 <= j < |cs| => Converted(t, cs[j]))
  }

  /** The index of the first token that is not good (|cs| when none is). */
  function FirstBad(t: Tables, cs: seq<string>): (k: nat)
    ensures k <= |cs|
    ensures forall j :: 0 <= j < k ==> Good(t, cs[j])
    ensures k < |cs| ==> !Good(t, cs[k])
    decreases |cs|
  {
    if cs == [] || !Good(t, cs[0]) then 0 else 1 + FirstBad(t, cs[1..])
  }

  /** Conversion fails exactly on a three-character token that is not an
      alpha-3 code, and otherwise yields the converted code. */
  lemma ConvertCodeMeaning(t: Tables, c: string)
    ensures ConvertCode(t, c).Err? <==> |c| == 3 && c !in t.byAlpha3
    ensures ConvertCode(t, c).Err? ==> ConvertCode(t, c).error == InvalidAlpha3(c)
    ensures ConvertCode(t, c).Ok? ==> ConvertCode(t, c).value == Converted(t, c)
  {
  }

  /** With the package's tables the pattern test adds nothing to the
      membership test, and a converted alpha-3 code always passes both. */
  lemma KnownAlpha2Exact(t: Tables, c: string)
    requires CodeTablesClean(t)
    ensures KnownAlpha2(t, c) <==> c in t.alpha2
    ensures c in t.byAlpha3 ==> KnownAlpha2(t, t.byAlpha3[c])
  {
    if c in t.byAlpha3 {
      assert t.byAlpha3[c] in t.alpha2;
    }
  }

  /** The pattern of line 302 lets a trailing newline through and rejects
      anything else of length three. */
  lemma PatternAcceptsTrailingNewline()
    ensures MatchesAlpha2Pattern("GB\n")
    ensures !MatchesAlpha2Pattern("GBR") && !MatchesAlpha2Pattern("gb")
  {
  }

  /** One iteration on a good token converts it in place and moves on. */
  lemma GoodStep(t: Tables, codes: seq<string>, n: nat, i: nat)
    requires i < n && i < |codes| && Good(t, codes[i])
    ensures ValidateFrom(t, codes, n, i) == ValidateFrom(t, codes[i := Converted(t, codes[i])], n, i + 1)
  {
    ConvertCodeMeaning(t, codes[i]);
  }

  /** The list after the loop has converted the tokens at `i` up to `m` in
      place. */
  function ConvertRange(t: Tables, codes: seq<string>, i: nat, m: nat): (r: seq<string>)
    ensures |r| == |codes|
  {
    seq(|codes|, j requires 0 <= j < |codes| => if i <= j < m then Converted(t, codes[j]) else codes[j])
  }

  /** One iteration on a converted token that fails the test of line 302
      removes the first occurrence of the converted code and moves on. */
  lemma BadStep(t: Tables, codes: seq<string>, n: nat, i: nat)
    requires i < n && i < |codes| && ConvertCode(t, codes[i]).Ok? && !KnownAlpha2(t, Converted(t, codes[i]))
    ensures var c := Converted(t, codes[i]); var updated := codes[i := c];
      updated[i] == c && ValidateFrom(t, codes, n, i) == ValidateFrom(t, RemoveFirst(updated, c), n, i + 1)
  {
    ConvertCodeMeaning(t, codes[i]);
  }

  /** A run of good tokens is converted in place and stays in the list. */
  lemma {:induction false} GoodRun(t: Tables, codes: seq<string>, n: nat, i: nat, m: nat)
    requires i <= m <= |codes| == n
    requires forall j :: i <= j < m ==> Good(t, codes[j])
    ensures ValidateFrom(t, codes, n, i) == ValidateFrom(t, ConvertRange(t, codes, i, m), n, m)
    decreases m - i
  {
    if i == m {
      assert ConvertRange(t, codes, i, m) == codes;
    } else {
      GoodStep(t, codes, n, i);
      var next := codes[i := Converted(t, codes[i])];
      GoodRun(t, next, n, i + 1, m);
      assert ConvertRange(t, next, i + 1, m) == ConvertRange(t, codes, i, m);
    }
  }

  /** Once an invalid code has been removed, the list is shorter than the
      fixed iteration count, so the loop either stops at an alpha-3 error or
      indexes past the end. */
  lemma {:induction false} ShrunkListFails(t: Tables, codes: seq<string>, n: nat, i: nat)
    requires i < n && |codes| < n
    ensures ValidateFrom(t, codes, n, i).Err?
    decreases n - i
  {
    if i < |codes| && ConvertCode(t, codes[i]).Ok? {
      var c := ConvertCode(t, codes[i]).value;
      var updated := codes[i := c];
      assert updated[i] == c;
      if !KnownAlpha2(t, c) {
        ShrunkListFails(t, RemoveFirst(updated, c), n, i + 1);
      } else {
        ShrunkListFails(t, updated, n, i + 1);
      }
    }
  }

  /** The converted codes of good tokens all pass the test of line 302. */
  lemma GoodPrefixKnown(t: Tables, codes: seq<string>, k: nat)
    requires k <= |codes| && forall j :: 0 <= j < k ==> Good(t, codes[j])
    ensures forall c :: c in ConvertEach(t, codes[..k]) ==> KnownAlpha2(t, c)
  {
    forall c | c in ConvertEach(t, codes[..k]) ensures KnownAlpha2(t, c) {
      var j :| 0 <= j < k && ConvertEach(t, codes[..k])[j] == c;
      assert codes[..k][j] == codes[j];
      ConvertCodeMeaning(t, codes[j]);
    }
  }

  /** The loop runs through the good tokens before the first bad one. */
  lemma UpToFirstBad(t: Tables, codes: seq<string>)
    ensures var k := FirstBad(t, codes);
      ValidateFrom(t, codes, |codes|, 0) == ValidateFrom(t, ConvertEach(t, codes[..k]) + codes[k..], |codes|, k)
  {
    var k := FirstBad(t, codes);
    GoodRun(t, codes, |codes|, 0, k);
    assert ConvertRange(t, codes, 0, k) == ConvertEach(t, codes[..k]) + codes[k..];
  }

  /** The outcome of the loop of lines 291-303 over a token list, decided by
      its first token that is not good (at index k):
      - no such token: every token, converted, in order;
      - its conversion fails: the alpha-3 error for it;
      - it is the last token: the other tokens, converted, in order;
      - it is any earlier token: the request fails (IndexError or an alpha-3
        error), because the removal shortens the list the loop still indexes
        up to its original length. */
  lemma ValidateOutcome(t: Tables, codes: seq<string>)
    ensures var n := |codes|; var k := FirstBad(t, codes); var r := ValidateFrom(t, codes, n, 0);
      && (k == n ==> r == Ok(ConvertEach(t, codes)))
      && (k < n && ConvertCode(t, codes[k]).Err? ==> r == Err(InvalidAlpha3(codes[k])))
      && (k == n - 1 && ConvertCode(t, codes[k]).Ok? ==> r == Ok(ConvertEach(t, codes[..k])))
      && (k < n - 1 && ConvertCode(t, codes[k]).Ok? ==> r.Err?)
  {
    var n := |codes|;
    var k := FirstBad(t, codes);
    UpToFirstBad(t, codes);
    if k == n {
      assert codes[..n] == codes && codes[n..] == [];
      assert ConvertEach(t, codes[..k]) + codes[k..] == ConvertEach(t, codes);
    } else {
      assert (ConvertEach(t, codes[..k]) + codes[k..])[k] == codes[k];
      ConvertCodeMeaning(t, codes[k]);
      if ConvertCode(t, codes[k]).Ok? {
        UnknownRemoved(t, codes, k);
      }
    }
  }

  /** At the first bad token, when it converts: it is removed from the list,
      which ends the loop when it was the last token and leaves the loop
      indexing past the end otherwise. */
  lemma UnknownRemoved(t: Tables, codes: seq<string>, k: nat)
    requires k == FirstBad(t, codes) < |codes| && ConvertCode(t, codes[k]).Ok?
    ensures var n := |codes|; var r := ValidateFrom(t, ConvertEach(t, codes[..k]) + codes[k..], n, k);
      && (k == n - 1 ==> r == Ok(ConvertEach(t, codes[..k])))
      && (k < n - 1 ==> r.Err?)
  {
    var n := |codes|;
    var pre := ConvertEach(t, codes[..k]);
    var cur := pre + codes[k..];
    assert cur[k] == codes[k];
    ConvertCodeMeaning(t, codes[k]);
    var c := Converted(t, codes[k]);
    BadStep(t, cur, n, k);
    var updated := cur[k := c];
    assert updated[..k] == pre && updated[k + 1..] == codes[k + 1..];
    GoodPrefixKnown(t, codes, k);
    RemoveFirstAt(updated, c, k);
    var removed := pre + codes[k + 1..];
    assert ValidateFrom(t, cur, n, k) == ValidateFrom(t, removed, n, k + 1);
    if k == n - 1 {
      assert codes[k + 1..] == [] && removed == pre;
    } else {
      ShrunkListFails(t, removed, n, k + 1);
    }
  }

  /** With the package's tables a single token is answered as follows: an
      alpha-3 code gives its alpha-2 code, any other three-character token the
      alpha-3 error, an alpha-2 code itself, and anything else the alpha-2
      error. */
  lemma ValidateSingleOutcome(t: Tables, c: string)
    requires CodeTablesClean(t)
    ensures |c| == 3 && c in t.byAlpha3 ==> ValidateSingle(t, c) == Ok([t.byAlpha3[c]])
    ensures |c| == 3 && c !in t.byAlpha3 ==> ValidateSingle(t, c) == Err(InvalidAlpha3(c))
    ensures |c| != 3 && c in t.alpha2 ==> ValidateSingle(t, c) == Ok([c])
    ensures |c| != 3 && c !in t.alpha2 ==> ValidateSingle(t, c) == Err(InvalidAlpha2(c))
  {
    KnownAlpha2Exact(t, c);
    if |c| == 3 && c in t.byAlpha3 {
      KnownAlpha2Exact(t, t.byAlpha3[c]);
    }
  }

  /** With the package's tables every code either validation path accepts
      is an alpha-2 code, and validation fails only with a route error, an
      alpha-3 error or IndexError. */
  lemma AcceptedCodesAreAlpha2(t: Tables, code: string)
    requires CodeTablesClean(t)
    ensures Validate(t, code).Ok? ==> forall c :: c in Validate(t, code).value ==> c in t.alpha2
    ensures Validate(t, code).Err? ==>
      Validate(t, code).error == IndexError || Validate(t, code).error.InvalidAlpha3? ||
      Validate(t, code).error.InvalidAlpha2?
  {
    if ',' in code {
      var toks := StripEach(Split(code, ','), PythonWhitespace);
      ValidateOutcome(t, toks);
      var k := FirstBad(t, toks);
      GoodPrefixKnown(t, toks, k);
      if k == |toks| {
        assert toks[..k] == toks;
      }
    } else {
      ValidateSingleOutcome(t, code);
      KnownAlpha2Exact(t, code);
    }
  }

  /** For every input and every table the empty-input error of lines 258-261
      never occurs: the list built at line 256 always holds one element, even
      for an empty input. */
  lemma EmptyCodeUnreachable<R>(raw: string, t: Tables, ds: map<string, R>)
    ensures Lookup(raw, t, ds) != Err(EmptyCode)
  {
  }

  /** With the package's tables and a dataset that covers them, the route
      never raises KeyError and answers only with records of alpha-2 codes. */
  lemma LookupClean<R>(raw: string, t: Tables, ds: map<string, R>)
    requires CodeTablesClean(t) && DatasetCovers(t, ds)
    ensures Lookup(raw, t, ds).Err? ==> !Lookup(raw, t, ds).error.KeyError?
    ensures Lookup(raw, t, ds).Ok? ==> Lookup(raw, t, ds).value.Keys <= t.alpha2
  {
    var valid := Validate(t, NormalizeCode(raw));
    AcceptedCodesAreAlpha2(t, NormalizeCode(raw));
    if valid.Ok? {
      AssembleMeaning(valid.value, ds);
    }
  }

  /** Any raw input that normalises to an alpha-2 code ("%20" markers
      included) is answered with that code's record alone. */
  lemma NormalizedAlpha2Answered<R>(raw: string, t: Tables, ds: map<string, R>)
    requires CodeTablesClean(t)
    requires NormalizeCode(raw) in t.alpha2 && NormalizeCode(raw) in ds
    ensures Lookup(raw, t, ds) == Ok(map[NormalizeCode(raw) := ds[NormalizeCode(raw)]])
  {
    var c := NormalizeCode(raw);
    assert |c| == 2 && IsUpperAscii(c[0]) && IsUpperAscii(c[1]);
    assert c == [c[0], c[1]];
    ValidateSingleOutcome(t, c);
    SingleTokenAnswered(raw, t, ds, c, c);
  }

  /** A raw alpha-2 code, in any letter case and with spaces anywhere in it,
      is answered with that code's record alone. */
  lemma Alpha2CodeAnswered<R>(raw: string, t: Tables, ds: map<string, R>)
    requires CodeTablesClean(t) && '%' !in raw
    requires RemoveChar(Upper(raw), ' ') in t.alpha2 && RemoveChar(Upper(raw), ' ') in ds
    ensures Lookup(raw, t, ds) == Ok(map[RemoveChar(Upper(raw), ' ') := ds[RemoveChar(Upper(raw), ' ')]])
  {
    NormalizedAlpha2Answered(raw, t, ds);
  }

  /** A raw alpha-3 code, in any letter case and with spaces anywhere in it,
      is answered with the record of its alpha-2 code alone. */
  lemma Alpha3CodeAnswered<R>(raw: string, t: Tables, ds: map<string, R>)
    requires CodeTablesClean(t) && '%' !in raw && ',' !in raw
    requires RemoveChar(Upper(raw), ' ') in t.byAlpha3 && t.byAlpha3[RemoveChar(Upper(raw), ' ')] in ds
    ensures var a := t.byAlpha3[RemoveChar(Upper(raw), ' ')];
      Lookup(raw, t, ds) == Ok(map[a := ds[a]])
  {
    var c := RemoveChar(Upper(raw), ' ');
    assert ',' !in Upper(raw);
    ValidateSingleOutcome(t, c);
    SingleTokenAnswered(raw, t, ds, c, t.byAlpha3[c]);
  }

  /** A normalised input without a comma that validates to one code is
      answered with that code's record. */
  lemma SingleTokenAnswered<R>(raw: string, t: Tables, ds: map<string, R>, c: string, a: string)
    requires NormalizeCode(raw) == c && ',' !in c
    requires ValidateSingle(t, c) == Ok([a]) && a in ds
    ensures Lookup(raw, t, ds) == Ok(map[a := ds[a]])
  {
    assert Validate(t, c) == Ok([a]);
    AssembleOne(a, ds);
  }

  /** An alpha-2 code as the package lists it is answered with its record. */
  lemma ValidCodeAnswered<R>(c: string, t: Tables, ds: map<string, R>)
    requires CodeTablesClean(t) && c in t.alpha2 && c in ds
    ensures Lookup(c, t, ds) == Ok(map[c := ds[c]])
  {
    UpperOfUpper(c);
    RemoveAbsentChar(c, ' ');
    Alpha2CodeAnswered(c, t, ds);
  }

  // ----- The list loop as evidently intended -----

  /** Every token converted (an unknown alpha-3 code still ends the request),
      and every converted code that fails the test of line 302 dropped. */
  function FilterCodes(t: Tables, toks: seq<string>): (r: Result<seq<string>>)
    ensures r.Ok? <==> forall i :: 0 <= i < |toks| ==> ConvertCode(t, toks[i]).Ok?
    ensures r.Ok? ==> forall c :: c in r.value ==> KnownAlpha2(t, c)
    decreases |toks|
  {
    if toks == [] then Ok([])
    else
      var c :- ConvertCode(t, toks[0]);
      var rest :- FilterCodes(t, toks[1..]);
      assert toks == [toks[0]] + toks[1..];
      Ok(if KnownAlpha2(t, c) then [c] + rest else rest)
  }

  /** The filtered list keeps exactly the good tokens, converted. */
  lemma {:induction false} FilterCodesKeepsGood(t: Tables, toks: seq<string>)
    requires FilterCodes(t, toks).Ok?
    ensures forall c :: c in FilterCodes(t, toks).value <==>
      exists i :: 0 <= i < |toks| && Good(t, toks[i]) && Converted(t, toks[i]) == c
    decreases |toks|
  {
    if toks != [] {
      FilterCodesKeepsGood(t, toks[1..]);
      ConvertCodeMeaning(t, toks[0]);
      forall c ensures c in FilterCodes(t, toks).value <==>
        exists i :: 0 <= i < |toks| && Good(t, toks[i]) && Converted(t, toks[i]) == c
      {
        if (exists i :: 0 <= i < |toks| && Good(t, toks[i]) && Converted(t, toks[i]) == c) {
          var i :| 0 <= i < |toks| && Good(t, toks[i]) && Converted(t, toks[i]) == c;
          if i > 0 {
            assert toks[1..][i - 1] == toks[i];
          }
        }
        if c in FilterCodes(t, toks[1..]).value {
          var i :| 0 <= i < |toks[1..]| && Good(t, toks[1..][i]) && Converted(t, toks[1..][i]) == c;
          assert toks[1..][i] == toks[i + 1];
        }
      }
    }
  }

  /** Filtering a list of good tokens only converts them. */
  lemma {:induction false} FilterAllGood(t: Tables, toks: seq<string>)
    requires forall i :: 0 <= i < |toks| ==> Good(t, toks[i])
    ensures FilterCodes(t, toks) == Ok(ConvertEach(t, toks))
    decreases |toks|
  {
    if toks != [] {
      ConvertCodeMeaning(t, toks[0]);
      forall i | 0 <= i < |toks[1..]| ensures Good(t, toks[1..][i]) {
        assert toks[1..][i] == toks[i + 1];
      }
      FilterAllGood(t, toks[1..]);
      assert ConvertEach(t, toks) == [Converted(t, toks[0])] + ConvertEach(t, toks[1..]);
    }
  }

  /** Filtering a list of good tokens followed by one token that converts to
      a code failing the test of line 302 converts the good ones and drops the
      last. */
  lemma {:induction false} FilterGoodThenDropped(t: Tables, toks: seq<string>)
    requires |toks| >= 1 && forall i :: 0 <= i < |toks| - 1 ==> Good(t, toks[i])
    requires ConvertCode(t, toks[|toks| - 1]).Ok? && !Good(t, toks[|toks| - 1])
    ensures FilterCodes(t, toks) == Ok(ConvertEach(t, toks[..|toks| - 1]))
    decreases |toks|
  {
    var n := |toks|;
    ConvertCodeMeaning(t, toks[0]);
    if n == 1 {
      assert toks[1..] == [] && toks[..0] == [];
    } else {
      var rest := toks[1..];
      forall i | 0 <= i < |rest| - 1 ensures Good(t, rest[i]) {
        assert rest[i] == toks[i + 1];
      }
      assert rest[|rest| - 1] == toks[n - 1];
      FilterGoodThenDropped(t, rest);
      assert ConvertEach(t, toks[..n - 1]) == [Converted(t, toks[0])] + ConvertEach(t, rest[..|rest| - 1]);
    }
  }

  /** Wherever the loop as written succeeds, the intended filter gives the
      same list: the two differ only on inputs the loop as written rejects. */
  lemma AgreesWhereAsWrittenSucceeds(t: Tables, codes: seq<string>)
    requires ValidateFrom(t, codes, |codes|, 0).Ok?
    ensures FilterCodes(t, codes) == ValidateFrom(t, codes, |codes|, 0)
  {
    ValidateOutcome(t, codes);
    var n := |codes|;
    var k := FirstBad(t, codes);
    if k == n {
      FilterAllGood(t, codes);
    } else {
      assert k == n - 1;
      ConvertCodeMeaning(t, codes[k]);
      FilterGoodThenDropped(t, codes);
    }
  }

  /** A list whose tokens are a two-character non-code followed by a valid
      code (for instance "XX,GB"): the loop as written removes the first
      token, then indexes past the end of the shortened list, while the
      intended filter keeps the valid code. */
  lemma UnknownThenValidOverruns(t: Tables, s: string, bad: string, good: string)
    requires StripEach(Split(s, ','), PythonWhitespace) == [bad, good]
    requires |bad| == 2 && bad !in t.alpha2
    requires |good| == 2 && good in t.alpha2 && MatchesAlpha2Pattern(good)
    ensures ValidateMulti(t, s) == Err(IndexError)
    ensures FilterCodes(t, [bad, good]) == Ok([good])
  {
    UnknownThenValidLoop(t, bad, good);
  }

  lemma UnknownThenValidLoop(t: Tables, bad: string, good: string)
    requires |bad| == 2 && bad !in t.alpha2
    requires |good| == 2 && good in t.alpha2 && MatchesAlpha2Pattern(good)
    ensures ValidateFrom(t, [bad, good], 2, 0) == Err(IndexError)
    ensures FilterCodes(t, [bad, good]) == Ok([good])
  {
    RemoveFirstAt([bad, good], bad, 0);
    assert [bad, good][1..] == [good] && [good][1..] == [];
    assert FilterCodes(t, [good]) == Ok([good] + []);
    assert [good] + [] == [good];
  }

  /** Validation with the list loop replaced by the intended filter. */
  function ValidateIntended(t: Tables, code: string): Result<seq<string>>
  {
    if ',' in code then FilterCodes(t, StripEach(Split(code, ','), PythonWhitespace))
    else ValidateSingle(t, code)
  }

  /** The route with the list loop replaced by the intended filter. */
  function LookupIntended<R>(raw: string, t: Tables, ds: map<string, R>): Result<map<string, R>>
  {
    var code := NormalizeCode(raw);
    var valid :- ValidateIntended(t, code);
    Assemble(valid, ds)
  }

  /** The intended route answers every request the route as written answers,
      and answers it the same way. */
  lemma IntendedExtendsAsWritten<R>(raw: string, t: Tables, ds: map<string, R>)
    ensures Lookup(raw, t, ds).Ok? ==> LookupIntended(raw, t, ds) == Lookup(raw, t, ds)
  {
    var code := NormalizeCode(raw);
    if ',' in code && ValidateMulti(t, code).Ok? {
      AgreesWhereAsWrittenSucceeds(t, StripEach(Split(code, ','), PythonWhitespace));
    }
  }

  /** Normalisation is not idempotent: removing "%20" once can form a new
      "%20". */
  lemma NormalizeNotIdempotent()
    ensures NormalizeCode("%%2020") == "%20"
    ensures NormalizeCode("%20") == ""
  {
    NormalizeFormsMarker();
    NormalizeRemovesMarker();
  }

  lemma NormalizeFormsMarker()
    ensures NormalizeCode("%%2020") == "%20"
  {
    MarkerPairUnspaced();
    MarkerPairReplaced();
  }

  lemma MarkerPairReplaced()
    ensures ReplaceAll("%%2020", "%20", "") == "%20"
  {
    assert "%%2020"[..3][1] == '%' != "%20"[1];
    assert "%%2020"[..3] != "%20" && "%%2020"[1..][..3] == "%20" && "%%2020"[1..][3..] == "20";
    assert ReplaceAll("%%2020", "%20", "") == "%" + ReplaceAll("20", "%20", "");
    ReplaceAbsent("20", "%20", "");
  }

  lemma MarkerPairUnspaced()
    ensures NormalizeCode("%%2020") == ReplaceAll("%%2020", "%20", "")
  {
    NormalizeUnspaced("%%2020");
  }

  lemma NormalizeRemovesMarker()
    ensures NormalizeCode("%20") == ""
  {
    NormalizeUnspaced("%20");
    assert "%20"[..3] == "%20" && "%20"[3..] == [];
  }

  /** On a string without spaces or lower-case letters normalisation only
      removes "%20". */
  lemma NormalizeUnspaced(s: string)
    requires forall i :: 0 <= i < |s| ==> !IsLowerAscii(s[i]) && s[i] != ' '
    ensures NormalizeCode(s) == ReplaceAll(s, "%20", "")
  {
    UpperOfUpper(s);
    ReplaceAbsent(s, " ", "");
  }
}
