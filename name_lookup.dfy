/** The country-name route (`api_name`, index.py lines 120-220): a raw path
    segment holding one or more country names is normalised, split into
    tokens, rewritten through a table of informal names, matched one by one
    against the ISO 3166-1 country names, and answered with the dataset
    records of the matched countries. */
module NameLookup {
  import opened Text
  import opened Results
  import opened Iso3166

  /** `difflib.get_close_matches(word, possibilities)`: the closest
      candidates, best first. Its scoring is not modelled; it is any function
      of the word and the candidate list. */
  type CloseMatches = (string, seq<string>) -> seq<string>

  /** The matcher only returns candidates it was given (at most three, which
      nothing here depends on). */
  ghost predicate DrawsFromCandidates(cm: CloseMatches)
  {
    forall w, u, x :: x in cm(w, u) ==> x in u
  }

  /** Names that contain a comma and are kept whole when they are the entire
      input (index.py lines 141-155). */
  const CommaExceptions: seq<string> := [
    "BOLIVIA, PLURINATIONAL STATE OF",
    "BONAIRE, SINT EUSTATIUS AND SABA",
    "CONGO, DEMOCRATIC REPUBLIC OF THE",
    "IRAN, ISLAMIC REPUBLIC OF",
    "KOREA, DEMOCRATIC PEOPLE'S REPUBLIC OF",
    "KOREA, REPUBLIC OF",
    "MICRONESIA, FEDERATED STATES OF",
    "MOLDOVA, REPUBLIC OF",
    "PALESTINE, STATE OF",
    "SAINT HELENA, ASCENSION AND TRISTAN DA CUNHA",
    "TAIWAN, PROVINCE OF CHINA",
    "TANZANIA, UNITED REPUBLIC OF",
    "VIRGIN ISLANDS, BRITISH",
    "VIRGIN ISLANDS, U.S.",
    "VENEZUELA, BOLIVARIAN REPUBLIC OF"]

  /** Informal names and the names they are rewritten to (index.py lines
      164-181), written as five displays in the order of the literal, each
      named by its first and last key. The Python literal lists "South
      Georgia" twice with the same value; a dict keeps one entry. */
  const NameConverted: map<string, string> :=
    ConvertedUaeToFalkland + ConvertedMicronesiaToSaintMartin + ConvertedMacauToStVincent +
    ConvertedStLuciaToTurkey + ConvertedTaiwanToVirginIslands

  const ConvertedUaeToFalkland: map<string, string> := map[
    "UAE" := "United Arab Emirates",
    "Brunei" := "Brunei Darussalam",
    "Bolivia" := "Bolivia, Plurinational State of",
    "Bosnia" := "Bosnia and Herzegovina",
    "Bonaire" := "Bonaire, Sint Eustatius and Saba",
    "DR Congo" := "Congo, the Democratic Republic of the",
    "Ivory Coast" := "C\U{00F4}te d'Ivoire",
    "Cape Verde" := "Cabo Verde",
    "Cocos Islands" := "Cocos (Keeling) Islands",
    "Falkland Islands" := "Falkland Islands (Malvinas)"]

  const ConvertedMicronesiaToSaintMartin: map<string, string> := map[
    "Micronesia" := "Micronesia, Federated States of",
    "United Kingdom" := "United Kingdom of Great Britain and Northern Ireland",
    "South Georgia" := "South Georgia and the South Sandwich Islands",
    "Iran" := "Iran, Islamic Republic of",
    "North Korea" := "Korea, Democratic People's Republic of",
    "South Korea" := "Korea, Republic of",
    "Laos" := "Lao People's Democratic Republic",
    "Moldova" := "Moldova, Republic of",
    "Saint Martin" := "Saint Martin (French part)"]

  const ConvertedMacauToStVincent: map<string, string> := map[
    "Macau" := "Macao",
    "Pitcairn Islands" := "Pitcairn",
    "Heard Island" := "Heard Island and McDonald Islands",
    "Palestine" := "Palestine, State of",
    "Saint Helena" := "Saint Helena, Ascension and Tristan da Cunha",
    "St Helena" := "Saint Helena, Ascension and Tristan da Cunha",
    "Saint Kitts" := "Saint Kitts and Nevis",
    "St Kitts" := "Saint Kitts and Nevis",
    "St Vincent" := "Saint Vincent and the Grenadines"]

  const ConvertedStLuciaToTurkey: map<string, string> := map[
    "St Lucia" := "Saint Lucia",
    "Saint Vincent" := "Saint Vincent and the Grenadines",
    "Russia" := "Russian Federation",
    "Sao Tome and Principe" := " S\U{00E3}o Tom\U{00E9} and Pr\U{00ED}ncipe",
    "Sint Maarten" := "Sint Maarten (Dutch part)",
    "Syria" := "Syrian Arab Republic",
    "Svalbard" := "Svalbard and Jan Mayen",
    "French Southern and Antarctic Lands" := "French Southern Territories",
    "Turkey" := "T\U{00FC}rkiye"]

  const ConvertedTaiwanToVirginIslands: map<string, string> := map[
    "Taiwan" := "Taiwan, Province of China",
    "Tanzania" := "Tanzania, United Republic of",
    "USA" := "United States of America",
    "United States" := "United States of America",
    "Vatican City" := "Holy See",
    "Vatican" := "Holy See",
    "Venezuela" := "Venezuela, Bolivarian Republic of",
    "Virgin Islands, British" := "British Virgin Islands"]

  /** The token whose second close match is taken instead of the first. */
  const BritishVirginIslands: string := "British Virgin Islands"

  /** Keys of the rewrite table that are not in title case. */
  const NonTitleKeys: set<string> :=
    {"UAE", "USA", "DR Congo", "Sao Tome and Principe", "French Southern and Antarctic Lands"}

  // ----- The steps of the route -----

  /** Lines 157-161: the whole (title-cased) input is one token when its upper
      case is a comma exception, and otherwise the sorted comma-split pieces. */
  function SplitNames(name: string): (r: seq<string>)
    ensures Upper(name) in CommaExceptions ==> r == [name]
    ensures Upper(name) !in CommaExceptions ==> IsSorted(r) && multiset(r) == multiset(Split(name, ','))
  {
    if Upper(name) in CommaExceptions then [name] else SortStrings(Split(name, ','))
  }

  /** Lines 185-186: a token is rewritten when its title-cased form is a key
      of `table`, but the rewrite looks the token up as it is. */
  function ConvertWith(table: map<string, string>, tok: string): Result<string>
  {
    if Title(tok) in table then
      if tok in table then Ok(table[tok]) else Err(KeyError(tok))
    else Ok(tok)
  }

  function ConvertStep(table: map<string, string>): string -> Result<string>
  {
    tok => ConvertWith(table, tok)
  }

  /** The rewrite of one token by the route's own table. */
  function ConvertName(tok: string): Result<string>
  {
    ConvertWith(NameConverted, tok)
  }

  /** Lines 136-189: the tokens the route matches, after `%20` decoding, title
      casing, splitting, rewriting and stripping spaces (in that order). */
  function Tokens(name: string): Result<seq<string>>
  {
    var titled := Title(ReplaceAll(name, "%20", " "));
    var converted :- MapAll(SplitNames(titled), ConvertName);
    Ok(StripEach(converted, Spaces))
  }

  /** Lines 198-214: the alpha-2 code of one token, from its first close match
      (its second for "British Virgin Islands"). */
  function MatchName(tok: string, t: Tables, cm: CloseMatches): Result<string>
  {
    var matches := cm(Upper(tok), Universe(t));
    if matches == [] then Err(NameNotFound(tok))
    else if tok == BritishVirginIslands && |matches| < 2 then Err(IndexError)
    else
      var best := if tok == BritishVirginIslands then matches[1] else matches[0];
      if Upper(best) in t.byName then Ok(t.byName[Upper(best)]) else Err(KeyError(Upper(best)))
  }

  function MatchStep(t: Tables, cm: CloseMatches): string -> Result<string>
  {
    tok => MatchName(tok, t, cm)
  }

  /** Lines 130-214: the alpha-2 codes of the input, one per token, in token
      order; the first token that fails ends the request. */
  function Resolve(name: string, t: Tables, cm: CloseMatches): Result<seq<string>>
  {
    if name == "" then Err(EmptyName)
    else
      var toks :- Tokens(name);
      MapAll(toks, MatchStep(t, cm))
  }

  /** The whole route: the response map, or the error that ends it. */
  function Lookup<R>(name: string, t: Tables, ds: map<string, R>, cm: CloseMatches): Result<map<string, R>>
  {
    var codes :- Resolve(name, t, cm);
    Assemble(codes, ds)
  }

  // ----- The route as it runs -----

  method ApiName<R>(name: string, t: Tables, ds: map<string, R>, cm: CloseMatches)
    returns (r: Result<map<string, R>>)
    ensures r == Lookup(name, t, ds, cm)
  {
    if name == "" {
      return Err(EmptyName);
    }
    var names := NameTokens(name);
    if names.Err? {
      return Err(names.error);
    }
    var codes := MatchNames(names.value, t, cm);
    if codes.Err? {
      return Err(codes.error);
    }
    r := AssembleRecords(codes.value, ds);
  }

  /** Lines 136-189: decoding, title casing, splitting, rewriting and
      stripping, as the route performs them. */
  method NameTokens(name: string) returns (r: Result<seq<string>>)
    ensures r == Tokens(name)
  {
    var n := Title(ReplaceAll(name, "%20", " "));
    var names: seq<string>;
    if Upper(n) in CommaExceptions {
      names := [n];
    } else {
      names := SortStrings(Split(n, ','));
    }
    var converted := ConvertNames(names, NameConverted);
    MapAllSame(names, ConvertStep(NameConverted), ConvertName);
    if converted.Err? {
      return Err(converted.error);
    }
    return Ok(StripEach(converted.value, Spaces));
  }

  /** Lines 184-186: every token whose title-cased form is a key of `table`
      is replaced, in place, by the key's value. */
  method ConvertNames(split: seq<string>, table: map<string, string>) returns (r: Result<seq<string>>)
    ensures r == MapAll(split, ConvertStep(table))
  {
    var names := split;
    var i := 0;
    assert split[0..] == split && names[..0] == [];
    PrependNothing(MapAll(split, ConvertStep(table)));
    while i < |names|
      invariant 0 <= i <= |names| == |split|
      invariant names[i..] == split[i..]
      invariant MapAll(split, ConvertStep(table)) == Prepend(names[..i], MapAll(split[i..], ConvertStep(table)))
    {
      MapAllStep(split, i, ConvertStep(table));
      ghost var before := names;
      if Title(names[i]) in table {
        if names[i] !in table {
          return Err(KeyError(names[i]));
        }
        names := names[i := table[names[i]]];
      }
      assert ConvertStep(table)(split[i]) == Ok(names[i]);
      PrependStep(before[..i], names[i], MapAll(split[i + 1..], ConvertStep(table)));
      assert names[..i + 1] == before[..i] + [names[i]];
      assert names[i + 1..] == split[i + 1..];
      i := i + 1;
    }
    assert split[i..] == [] && names[..i] == names && names + [] == names;
    return Ok(names);
  }

  /** Lines 195-214: one alpha-2 code per token, in order; the first token
      without a usable match ends the request. */
  method MatchNames(names: seq<string>, t: Tables, cm: CloseMatches) returns (r: Result<seq<string>>)
    ensures r == MapAll(names, MatchStep(t, cm))
  {
    var universe := Universe(t);
    var codes: seq<string> := [];
    var j := 0;
    assert names[0..] == names;
    PrependNothing(MapAll(names, MatchStep(t, cm)));
    while j < |names|
      invariant 0 <= j <= |names|
      invariant MapAll(names, MatchStep(t, cm)) == Prepend(codes, MapAll(names[j..], MatchStep(t, cm)))
    {
      MapAllStep(names, j, MatchStep(t, cm));
      assert MatchStep(t, cm)(names[j]) == MatchName(names[j], t, cm);
      var matches := cm(Upper(names[j]), universe);
      if matches == [] {
        return Err(NameNotFound(names[j]));
      }
      var best: string;
      if names[j] == BritishVirginIslands {
        if |matches| < 2 {
          return Err(IndexError);
        }
        best := matches[1];
      } else {
        best := matches[0];
      }
      if Upper(best) !in t.byName {
        return Err(KeyError(Upper(best)));
      }
      PrependStep(codes, t.byName[Upper(best)], MapAll(names[j + 1..], MatchStep(t, cm)));
      codes := codes + [t.byName[Upper(best)]];
      j := j + 1;
    }
    assert names[j..] == [] && codes + [] == codes;
    return Ok(codes);
  }

  // ----- Properties -----

  /** Every token handed to the rewrite step is already in title case, whether
      it is the whole input or a comma-split piece of it. */
  lemma TokensAreTitled(raw: string)
    ensures forall tok :: tok in SplitNames(Title(raw)) ==> Title(tok) == tok
  {
    var n := Title(raw);
    TitleIdempotent(raw, false);
    if Upper(n) !in CommaExceptions {
      TitledPieces(n, false, ',');
      forall tok | tok in SplitNames(n) ensures Title(tok) == tok {
        assert tok in multiset(Split(n, ','));
      }
    }
  }

  /** So the rewrite never raises KeyError: a token is rewritten exactly when
      it is itself a key. */
  lemma ConversionNeverFails(raw: string)
    ensures MapAll(SplitNames(Title(raw)), ConvertName).Ok?
    ensures forall tok :: tok in SplitNames(Title(raw)) ==>
      ConvertName(tok) == Ok(if tok in NameConverted then NameConverted[tok] else tok)
  {
    var toks := SplitNames(Title(raw));
    TokensAreTitled(raw);
    forall tok | tok in toks
      ensures ConvertName(tok) == Ok(if tok in NameConverted then NameConverted[tok] else tok)
    {
      TitledConverts(NameConverted, tok);
    }
    MapAllOk(toks, ConvertName);
  }

  /** A token in title case is rewritten by any table exactly when it is a
      key. */
  lemma TitledConverts(table: map<string, string>, tok: string)
    requires Title(tok) == tok
    ensures ConvertWith(table, tok) == Ok(if tok in table then table[tok] else tok)
  {
  }

  /** No token equals a key that is not in title case, so such an entry of
      the table is never used; the keys "UAE", "USA", "DR Congo", "Sao Tome
      and Principe" and "French Southern and Antarctic Lands" are such keys
      (the three lemmas below). */
  lemma NonTitleKeysNeverConverted(raw: string, k: string)
    requires Title(k) != k
    ensures forall tok :: tok in SplitNames(Title(raw)) ==> tok != k
  {
    TokensAreTitled(raw);
  }

  lemma AcronymKeysNotTitled()
    ensures Title("UAE") != "UAE" && Title("USA") != "USA" && Title("DR Congo") != "DR Congo"
  {
    TitleChangesAt("UAE", 1);
    TitleChangesAt("USA", 1);
    TitleChangesAt("DR Congo", 1);
  }

  /** The lower-case "and" and "of"-style words are what title casing changes. */
  lemma SaoTomeKeyNotTitled()
    ensures Title("Sao Tome and Principe") != "Sao Tome and Principe"
  {
    TitleChangesAt("Sao Tome and Principe", 9);
  }

  lemma FrenchSouthernKeyNotTitled()
    ensures Title("French Southern and Antarctic Lands") != "French Southern and Antarctic Lands"
  {
    TitleChangesAt("French Southern and Antarctic Lands", 16);
  }

  /** Those five strings are keys of the table. */
  lemma NonTitleKeysAreKeys()
    ensures NonTitleKeys <= NameConverted.Keys
  {
    assert "UAE" in ConvertedUaeToFalkland && "DR Congo" in ConvertedUaeToFalkland;
    assert "Sao Tome and Principe" in ConvertedStLuciaToTurkey;
    assert "French Southern and Antarctic Lands" in ConvertedStLuciaToTurkey;
    assert "USA" in ConvertedTaiwanToVirginIslands;
  }

  /** Rewriting runs before stripping, so a token with a leading space (any
      piece after ", ") is never rewritten, whatever follows the space. */
  lemma LeadingSpaceNotConverted(tok: string)
    requires |tok| > 0 && tok[0] == ' '
    ensures ConvertName(tok) == Ok(tok)
  {
    TitleKeepsUncased(tok, false);
    assert Title(tok)[0] == ' ';
    KeysStartWithoutSpace();
  }

  /** "France, Ivory Coast" splits into "France" and " Ivory Coast": the
      second piece names a key of the table, yet it reaches the rewrite with
      its leading space, is left as it is, and only then loses the space. */
  lemma PaddedIvoryCoastMissed()
    ensures "Ivory Coast" in NameConverted
    ensures ConvertName(" Ivory Coast") == Ok(" Ivory Coast")
    ensures Strip(" Ivory Coast", Spaces) == "Ivory Coast"
  {
    IvoryCoastIsKey();
    LeadingSpaceNotConverted(" Ivory Coast");
    IvoryCoastStripped();
  }

  lemma IvoryCoastIsKey()
    ensures "Ivory Coast" in NameConverted
  {
    assert "Ivory Coast" in ConvertedUaeToFalkland;
  }

  lemma IvoryCoastStripped()
    ensures Strip(" Ivory Coast", Spaces) == "Ivory Coast"
  {
    var s := " Ivory Coast";
    StripOneLeading(s, Spaces);
    assert s[1..] == "Ivory Coast";
  }

  /** No key of the rewrite table starts with a space (shown one group of
      source lines at a time). */
  lemma KeysStartWithoutSpace()
    ensures forall k :: k in NameConverted ==> k != [] && k[0] != ' '
  {
    UnpaddedUaeToFalkland();
    UnpaddedMicronesiaToSaintMartin();
    UnpaddedMacauToStVincent();
    UnpaddedStLuciaToTurkey();
    UnpaddedTaiwanToVirginIslands();
    UnionUnpaddedKeys(ConvertedUaeToFalkland, ConvertedMicronesiaToSaintMartin);
    UnionUnpaddedKeys(ConvertedUaeToFalkland + ConvertedMicronesiaToSaintMartin, ConvertedMacauToStVincent);
    UnionUnpaddedKeys(ConvertedUaeToFalkland + ConvertedMicronesiaToSaintMartin + ConvertedMacauToStVincent, ConvertedStLuciaToTurkey);
    UnionUnpaddedKeys(ConvertedUaeToFalkland + ConvertedMicronesiaToSaintMartin + ConvertedMacauToStVincent + ConvertedStLuciaToTurkey, ConvertedTaiwanToVirginIslands);
  }

  ghost predicate UnpaddedKeys(m: map<string, string>)
  {
    forall k :: k in m ==> k != [] && k[0] != ' '
  }

  lemma UnionUnpaddedKeys(a: map<string, string>, b: map<string, string>)
    requires UnpaddedKeys(a) && UnpaddedKeys(b)
    ensures UnpaddedKeys(a + b)
  {
    forall k | k in a + b ensures k != [] && k[0] != ' ' {
      assert k in a || k in b;
    }
  }

  lemma UnpaddedUaeToFalkland()
    ensures UnpaddedKeys(ConvertedUaeToFalkland)
  {
  }

  lemma UnpaddedMicronesiaToSaintMartin()
    ensures UnpaddedKeys(ConvertedMicronesiaToSaintMartin)
  {
  }

  lemma UnpaddedMacauToStVincent()
    ensures UnpaddedKeys(ConvertedMacauToStVincent)
  {
  }

  lemma UnpaddedStLuciaToTurkey()
    ensures UnpaddedKeys(ConvertedStLuciaToTurkey)
  {
  }

  lemma UnpaddedTaiwanToVirginIslands()
    ensures UnpaddedKeys(ConvertedTaiwanToVirginIslands)
  {
  }

  /** Which close match decides a token, and when the token fails. */
  lemma MatchNameChoice(tok: string, t: Tables, cm: CloseMatches)
    ensures var ms := cm(Upper(tok), Universe(t));
      && (ms == [] <==> MatchName(tok, t, cm) == Err(NameNotFound(tok)))
      && (tok == BritishVirginIslands && |ms| == 1 ==> MatchName(tok, t, cm) == Err(IndexError))
      && (tok == BritishVirginIslands && |ms| >= 2 && Upper(ms[1]) in t.byName ==>
            MatchName(tok, t, cm) == Ok(t.byName[Upper(ms[1])]))
      && (tok != BritishVirginIslands && ms != [] && Upper(ms[0]) in t.byName ==>
            MatchName(tok, t, cm) == Ok(t.byName[Upper(ms[0])]))
  {
  }

  /** With the package's name table and a matcher that picks from the
      candidates, the final table lookup (line 214) cannot fail and every
      code comes from the table. */
  lemma MatchNameClean(tok: string, t: Tables, cm: CloseMatches)
    requires NameTableClean(t) && DrawsFromCandidates(cm)
    ensures MatchName(tok, t, cm).Err? ==> !MatchName(tok, t, cm).error.KeyError?
    ensures MatchName(tok, t, cm).Ok? ==> MatchName(tok, t, cm).value in t.byName.Values
  {
    var ms := cm(Upper(tok), Universe(t));
    if ms != [] && !(tok == BritishVirginIslands && |ms| < 2) {
      var best := if tok == BritishVirginIslands then ms[1] else ms[0];
      assert best in ms;
      CandidateIsName(t, best);
    }
  }

  /** Every candidate of the search is a name of the table, upper case. */
  lemma CandidateIsName(t: Tables, best: string)
    requires NameTableClean(t) && best in Universe(t)
    ensures Upper(best) in t.byName
  {
    var i :| 0 <= i < |t.names| && Universe(t)[i] == best;
    assert t.names[i] in t.names;
    assert Upper(best) == t.names[i];
  }

  /** A non-empty input always yields tokens, and resolving it matches them
      one by one. */
  lemma ResolveMatchesTokens(name: string, t: Tables, cm: CloseMatches)
    requires name != ""
    ensures Tokens(name).Ok?
    ensures Resolve(name, t, cm) == MapAll(Tokens(name).value, MatchStep(t, cm))
  {
    ConversionNeverFails(ReplaceAll(name, "%20", " "));
  }

  /** Successful resolution gives one code per token in token order; a failed
      one reports the first failing token's error, and nothing else. */
  lemma ResolveOutcome(name: string, t: Tables, cm: CloseMatches)
    ensures Resolve(name, t, cm) == Err(EmptyName) <==> name == ""
    ensures name != "" ==> Tokens(name).Ok?
    ensures Resolve(name, t, cm).Ok? ==>
      var toks := Tokens(name).value;
      var codes := Resolve(name, t, cm).value;
      |codes| == |toks| && forall i :: 0 <= i < |toks| ==> MatchName(toks[i], t, cm) == Ok(codes[i])
    ensures name != "" && Resolve(name, t, cm).Err? ==>
      var toks := Tokens(name).value;
      var k := FirstFailure(toks, MatchStep(t, cm));
      && k < |toks|
      && Resolve(name, t, cm).error == MatchName(toks[k], t, cm).error
      && forall j :: 0 <= j < k ==> MatchName(toks[j], t, cm).Ok?
  {
    if name != "" {
      ResolveMatchesTokens(name, t, cm);
      MatchAllOutcome(Tokens(name).value, t, cm);
    }
  }

  /** Matching a token list: the codes of every token in order, or the error
      of the first token that fails. */
  lemma MatchAllOutcome(toks: seq<string>, t: Tables, cm: CloseMatches)
    ensures MapAll(toks, MatchStep(t, cm)) != Err(EmptyName)
    ensures MapAll(toks, MatchStep(t, cm)).Ok? ==>
      var codes := MapAll(toks, MatchStep(t, cm)).value;
      |codes| == |toks| && forall i :: 0 <= i < |toks| ==> MatchName(toks[i], t, cm) == Ok(codes[i])
    ensures MapAll(toks, MatchStep(t, cm)).Err? ==>
      var k := FirstFailure(toks, MatchStep(t, cm));
      && k < |toks|
      && MapAll(toks, MatchStep(t, cm)).error == MatchName(toks[k], t, cm).error
      && forall j :: 0 <= j < k ==> MatchName(toks[j], t, cm).Ok?
  {
    var f := MatchStep(t, cm);
    MapAllOk(toks, f);
    MapAllErr(toks, f);
    assert forall i :: 0 <= i < |toks| ==> f(toks[i]) == MatchName(toks[i], t, cm);
  }

  /** With the package's tables and a dataset covering them, the route never
      raises KeyError, and a successful answer maps exactly the resolved codes
      to their records. */
  lemma LookupClean<R>(name: string, t: Tables, ds: map<string, R>, cm: CloseMatches)
    requires NameTableClean(t) && DrawsFromCandidates(cm) && DatasetCovers(t, ds)
    ensures Lookup(name, t, ds, cm).Err? ==> !Lookup(name, t, ds, cm).error.KeyError?
    ensures Lookup(name, t, ds, cm).Ok? ==>
      Resolve(name, t, cm).Ok? &&
      Lookup(name, t, ds, cm).value == map c | c in Resolve(name, t, cm).value :: ds[c]
  {
    ResolveOutcome(name, t, cm);
    if name != "" {
      var toks := Tokens(name).value;
      if Resolve(name, t, cm).Err? {
        var k := FirstFailure(toks, MatchStep(t, cm));
        MatchNameClean(toks[k], t, cm);
      } else {
        var codes := Resolve(name, t, cm).value;
        forall c | c in codes ensures c in ds {
          var i :| 0 <= i < |codes| && codes[i] == c;
          MatchNameClean(toks[i], t, cm);
        }
        AssembleMeaning(codes, ds);
      }
    }
  }

  /** The comma-exception check ignores case: an input whose upper case is an
      exception stays one token, title-cased. */
  lemma ExceptionKeptWhole(raw: string)
    requires Upper(raw) in CommaExceptions
    ensures SplitNames(Title(raw)) == [Title(raw)]
  {
    UpperOfTitle(raw, false);
  }

  /** Any other input holding a comma is split at every comma, so an
      exception name that is part of a longer list ("Korea, Republic
      Of,Sweden") is broken into pieces, none of them holding a comma. */
  lemma ExceptionFragmentedInList(raw: string)
    requires ',' in raw && Upper(raw) !in CommaExceptions
    ensures |SplitNames(Title(raw))| >= 2
    ensures forall tok :: tok in SplitNames(Title(raw)) ==> ',' !in tok
  {
    UpperOfTitle(raw, false);
    TitleKeepsUncased(raw, false);
    var i :| 0 <= i < |raw| && raw[i] == ',';
    assert Title(raw)[i] == ',';
    SplitAtSeparator(Title(raw), ',');
    assert |multiset(SplitNames(Title(raw)))| == |multiset(Split(Title(raw), ','))|;
    forall tok | tok in SplitNames(Title(raw)) ensures ',' !in tok {
      assert tok in multiset(Split(Title(raw), ','));
    }
  }

  /** An input that title-cases to "Virgin Islands, British" (for instance
      "virgin islands, british") is a comma exception and a rewrite key, so it
      reaches the matcher as "British Virgin Islands", the token whose second
      close match is used. */
  lemma VirginIslandsBritishRewritten(raw: string)
    requires Title(ReplaceAll(raw, "%20", " ")) == "Virgin Islands, British"
    ensures Tokens(raw) == Ok([BritishVirginIslands])
  {
    VirginIslandsBritishIsException();
    VirginIslandsBritishIsKey();
    BritishVirginIslandsUnpadded();
    WholeInputRewritten(raw);
  }

  /** An input kept whole that is itself a key reaches the matcher as the
      key's value, when that value has no surrounding spaces. */
  lemma WholeInputRewritten(raw: string)
    requires var n := Title(ReplaceAll(raw, "%20", " "));
      && Upper(n) in CommaExceptions && n in NameConverted
      && StripEach([NameConverted[n]], Spaces) == [NameConverted[n]]
    ensures Tokens(raw) == Ok([NameConverted[Title(ReplaceAll(raw, "%20", " "))]])
  {
    TitleIdempotent(ReplaceAll(raw, "%20", " "), false);
    WholeInputToken(raw);
  }

  /** An input kept whole is rewritten and stripped as one token. */
  lemma WholeInputToken(raw: string)
    requires Upper(Title(ReplaceAll(raw, "%20", " "))) in CommaExceptions
    ensures var n := Title(ReplaceAll(raw, "%20", " "));
      ConvertName(n).Ok? ==> Tokens(raw) == Ok(StripEach([ConvertName(n).value], Spaces))
  {
    MapAllSingle(Title(ReplaceAll(raw, "%20", " ")), ConvertName);
  }

  lemma VirginIslandsBritishIsException()
    ensures Upper("Virgin Islands, British") in CommaExceptions
  {
    assert Upper("Virgin Islands, British") == CommaExceptions[12];
  }

  lemma VirginIslandsBritishIsKey()
    ensures NameConverted["Virgin Islands, British"] == BritishVirginIslands
  {
    assert ConvertedTaiwanToVirginIslands["Virgin Islands, British"] == BritishVirginIslands;
  }

  lemma BritishVirginIslandsUnpadded()
    ensures StripEach([BritishVirginIslands], Spaces) == [BritishVirginIslands]
  {
    StripEachUnpadded([BritishVirginIslands], Spaces);
  }

  // ----- Rewriting as evidently intended -----

  /** The tokens with spaces stripped before the rewrite instead of after it. */
  function TokensIntended(name: string): Result<seq<string>>
  {
    var titled := Title(ReplaceAll(name, "%20", " "));
    MapAll(StripEach(SplitNames(titled), Spaces), ConvertName)
  }

  /** Stripping first, every token is rewritten exactly when it is a key of
      the table, whatever spaces surrounded it ("France, Ivory Coast" gets
      the rewrite for "Ivory Coast"). */
  lemma IntendedRewritesStrippedTokens(raw: string)
    ensures var pieces := StripEach(SplitNames(Title(ReplaceAll(raw, "%20", " "))), Spaces);
      && TokensIntended(raw).Ok?
      && |TokensIntended(raw).value| == |pieces|
      && forall i :: 0 <= i < |pieces| ==>
           TokensIntended(raw).value[i] == (if pieces[i] in NameConverted then NameConverted[pieces[i]] else pieces[i])
  {
    var r := ReplaceAll(raw, "%20", " ");
    var pieces := StripEach(SplitNames(Title(r)), Spaces);
    TokensAreTitled(r);
    forall i | 0 <= i < |pieces|
      ensures ConvertName(pieces[i]) == Ok(if pieces[i] in NameConverted then NameConverted[pieces[i]] else pieces[i])
    {
      assert SplitNames(Title(r))[i] in SplitNames(Title(r));
      TitledStrip(SplitNames(Title(r))[i]);
      TitledConverts(NameConverted, pieces[i]);
    }
    MapAllOk(pieces, ConvertName);
  }
}
