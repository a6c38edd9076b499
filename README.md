# iso3166-2-api: the country-name and country-code routes

A Dafny model of the resolution logic behind two routes of the
iso3166-2-api Flask application (`index.py`).

- **`/api/name/<name>` (`api_name`).** The raw name is decoded (`%20`
  becomes a space) and title-cased. It is kept whole when its upper case is
  one of fifteen comma-containing country names; otherwise it is split at
  commas and sorted. Each piece is rewritten through a table of informal
  names ("Ivory Coast", "Russia", …), stripped of spaces, and matched
  against the ISO 3166-1 country names by a closest-match search. The
  special case "British Virgin Islands" takes the second match. The answer
  is the ISO 3166-2 records of the matched alpha-2 codes.
- **`/api/alpha2/<alpha2>` (`api_alpha2_v1`).** The raw code is
  upper-cased and has its spaces and `%20` markers removed. A code holding
  a comma is treated as a list. Each token is converted from alpha-3 to
  alpha-2 when it has three characters. It is then tested against the
  pattern `^[A-Z]{2}$` and the alpha-2 table, and removed from the list
  when it fails. A single code is converted the same way. It must then
  match the pattern and be a key of either the alpha-2 table or the alpha-3
  table, or the request ends with an error. With the package's own tables
  this is the same test as the list's (`CodeLookup.KnownAlpha2Exact`). The
  answer is the records of the remaining codes.

Files:

- `text.dfy` (`Text`): the Python string operations the routes use, on
  ASCII-cased `seq<char>`, with their laws. These are `str.upper`,
  `str.title`, `str.replace`, `str.split`, `str.strip`, `sorted` on
  strings and `list.remove`.
- `results.dfy` (`Results`): the route errors, the two Python exceptions
  that can escape a route (`IndexError`, `KeyError`), and the
  "apply to each, stop at the first failure" traversal.
- `iso3166.dfy` (`Iso3166`): the `iso3166` package tables and the dataset,
  as parameters, and the loop that builds the response map.
- `name_lookup.dfy` (`NameLookup`): the name route.
- `code_lookup.dfy` (`CodeLookup`): the code route.

Each route is given twice. A function (`Lookup`) states what the route
computes. A method (`ApiName`, `ApiAlpha2`) performs the route's own loops
and is proved equal to that function. The lemmas then describe the
function: its error cases, its outcome token by token, and the conditions
under which it never raises.

Points where the code behaves in a way a reader might not expect:

- The comment at index.py:138-140 says names in the exception list are not
  split. The code only keeps the entire input whole, so
  "Korea, Republic Of,Sweden" is cut at both commas
  (`NameLookup.ExceptionFragmentedInList`).
- Normalisation of a code is not idempotent
  (`CodeLookup.NormalizeNotIdempotent`).
- Tokens are stripped before matching, but only after the informal-name
  rewrite, so a token with a leading space misses its rewrite (see Findings).
- Neither route handles numeric codes, a likeness threshold of its own or
  transliteration, so none of these is modelled.

## Model

| member | source | states |
|---|---|---|
| Text.UpperChar | index.py:158 | the ASCII upper-case mapping of one character: a lower-case letter becomes its upper-case letter, every other character is kept, and no lower-case letter remains |
| Text.LowerChar | index.py:136 | the ASCII lower-case mapping of one character, used by title-casing after a cased character: an upper-case letter becomes its lower-case letter, every other character is kept, no upper-case letter remains, and upper-casing the result gives the upper case of the original |
| Text.Upper | index.py:158 | upper-casing keeps the length and maps every character through the ASCII upper-case mapping |
| Text.UpperConcat | index.py:158 | upper-casing distributes over concatenation |
| Text.UpperOfUpper | index.py:158 | upper-casing leaves a string without lower-case letters unchanged |
| Text.UpperOfTitle | index.py:136-158 | upper-casing a title-cased string gives the upper case of the original, so the exception test ignores the title casing |
| Text.TitleFrom | index.py:136 | title-casing from a given case state: each cased character is lower-cased after a cased character and upper-cased otherwise, keeping the length (characterised by `TitleAt` and `TitleConcat`) |
| Text.Title | index.py:136 | `str.title`: title-casing from the start of the string, keeping the length |
| Text.TitleConcat | index.py:136 | title-casing works piece by piece, each piece continuing from the case of the character before it |
| Text.TitleAt | index.py:136 | a character after a cased character is lower-cased, any other is upper-cased |
| Text.TitleChangesAt | index.py:185 | a string with a character at a position after the first that title-casing changes is not in title case |
| Text.TitleKeepsUncased | index.py:136 | title-casing leaves uncased characters (spaces, commas) where they were |
| Text.TitleIdempotent | index.py:136 | title-casing a title-cased string changes nothing |
| Text.TitledStrip | index.py:189 | stripping spaces from a title-cased string leaves it title-cased |
| Text.TitledPieces | index.py:161 | every comma-split piece of a title-cased string is title-cased |
| Text.ReplaceAll | index.py:256 | every character of the result comes from the string or the replacement, and a one-character pattern absent from the replacement is gone from the result |
| Text.ReplaceSkipsUnmatched | index.py:136 | the characters before the first occurrence of the pattern are kept as they are, in order |
| Text.ReplaceFirstOccurrence | index.py:136 | the first occurrence becomes the replacement, what precedes it is kept, and the scan resumes right after it without overlap |
| Text.ReplaceNoOccurrence | index.py:136 | a string in which the pattern never occurs is left unchanged |
| Text.RemoveChar | index.py:256 | the filter that leaves out one character: the set of characters in the result is exactly the set of the string's other characters, and the result is no longer than the string (counts and order in `RemoveCharMultiset` and `RemoveCharConcat`) |
| Text.RemoveCharMultiset | index.py:256 | the filter keeps every other character exactly as often as it occurs, and no copy of the removed one |
| Text.RemoveCharConcat | index.py:256 | the filter works piece by piece over a concatenation, so the kept characters stay in their order |
| Text.ReplaceCharRemoves | index.py:256 | replacing a one-character pattern by nothing is that filter |
| Text.RemoveAbsentChar | index.py:256 | filtering out a character that does not occur changes nothing |
| Text.ReplaceAbsent | index.py:136 | replacing a pattern whose first character does not occur leaves the string as it is |
| Text.Split | index.py:161 | splitting never gives an empty list, and no piece holds the separator |
| Text.JoinSplit | index.py:161 | joining the pieces with the separator gives back the string |
| Text.SplitJoin | index.py:161 | splitting a join of separator-free pieces gives back the pieces |
| Text.SplitWithoutSeparator | index.py:161 | a string without the separator is one piece |
| Text.SplitAtFirstSeparator | index.py:161 | the piece before the first separator comes first, then the split of the rest |
| Text.SplitAtSeparator | index.py:161 | a string holding the separator splits into at least two pieces |
| Text.TrimStart | index.py:189 | the result is the longest suffix that does not start with a stripped character |
| Text.TrimEnd | index.py:189 | the result is the longest prefix that does not end with a stripped character |
| Text.PythonWhitespace | index.py:290 | the characters `str.strip()` removes with no argument: the code points Python counts as whitespace |
| Text.Strip | index.py:189 | `s.strip(chars)`: the leading and then the trailing stripped characters removed (characterised by `TrimStart`, `TrimEnd`, `StripUnpadded` and `StripOneLeading`) |
| Text.StripUnpadded | index.py:189 | a string with no stripped character at either end is unchanged by stripping |
| Text.StripOneLeading | index.py:189 | a single leading stripped character before an unpadded string is all that stripping removes |
| Text.StripEachUnpadded | index.py:189 | a list of such strings is unchanged by stripping each one |
| Text.StripEach | index.py:290 | the list comprehension stripping every element, one result per element in order |
| Text.LexLe | index.py:161 | Python's `<=` on `str`, which `sorted` uses: lexicographic by code point, with a proper prefix first |
| Text.LexLeReflexive | index.py:161 | string order is reflexive |
| Text.LexLeTotal | index.py:161 | any two strings are ordered one way or the other |
| Text.LexLeTransitive | index.py:161 | string order is transitive |
| Text.LexLeAntisymmetric | index.py:161 | strings ordered both ways are equal |
| Text.Insert | index.py:161 | inserting into a sorted list keeps it sorted and adds exactly that element |
| Text.SortStrings | index.py:161 | the sorted list is ordered and is a permutation of the input |
| Text.SortedHeadIsLeast | index.py:161 | the first element of a sorted list is below every element |
| Text.SortedUnique | index.py:161 | two sorted lists with the same elements are equal, so the sort is the only ordered permutation |
| Text.FirstIndex | index.py:303 | for a value in the list, the first index holding it: no earlier element equals it |
| Text.RemoveFirst | index.py:303 | removing a value that occurs shortens the list by exactly one |
| Text.RemoveFirstMultiset | index.py:303 | removing a value that occurs takes out exactly one copy of it and nothing else |
| Text.RemoveFirstAt | index.py:303 | removing the value found at the first index is the list without that position |
| Results.Message | index.py:129-320 | the message text of each route error as the routes write it at lines 131, 209, 260, 297 and 318, and Python's text for IndexError and for a KeyError on a plain key |
| Results.MapAll | index.py:184-214 | the loops that apply a fallible step to each element in order and stop at the first failure (characterised by `MapAllOk`, `MapAllErr` and `FirstFailure`) |
| Results.MapAllSingle | index.py:195-214 | traversing one element gives that element's outcome |
| Results.MapAllSame | index.py:184-186 | traversals whose steps agree on every element agree |
| Results.FirstFailure | index.py:195-211 | every element before the index succeeds, and the element at it fails |
| Results.MapAllOk | index.py:195-214 | the traversal succeeds exactly when every element does, giving one result per element in order |
| Results.MapAllErr | index.py:195-211 | a failed traversal reports the error of the first failing element |
| Results.MapAllStep | index.py:184-214 | one loop iteration either ends the traversal with its error or puts its result in front of the rest |
| Iso3166.Universe | index.py:192 | the search runs over one stripped candidate per table name |
| Iso3166.FirstMissing | index.py:217-218 | the index of the first code without a record: every code before it has one |
| Iso3166.AssembleFrom | index.py:217-218 | the response holds exactly the collected codes, each mapped to its record; it fails exactly when some code has no record, with KeyError naming the first such code in list order |
| Iso3166.Assemble | index.py:217-218 | the response built from the collected codes, starting from the empty map (characterised by `AssembleMeaning`) |
| Iso3166.AssembleMeaning | index.py:217-218 | a successful response is the map from each collected code to its record, duplicates collapsing; a failure is KeyError naming the first code without a record |
| Iso3166.AssembleOne | index.py:217-218 | a single code with a record is answered with that record alone |
| Iso3166.AssembleRecords | index.py:217-218 | the response loop computes that response |
| NameLookup.CommaExceptions | index.py:141-155 | the fifteen upper-case names containing a comma that are kept whole when they are the entire input |
| NameLookup.NameConverted | index.py:164-181 | the informal-name rewrite table, with the repeated "South Georgia" entry once |
| NameLookup.DrawsFromCandidates | index.py:198 | `difflib.get_close_matches` is abstracted as a function `CloseMatches` of the word and the candidate list; this predicate is the one property the lemmas assume of it, that it only returns candidates it was given |
| NameLookup.SplitNames | index.py:157-161 | an exception name is one token; any other input gives the sorted comma-split pieces, as a permutation |
| NameLookup.ConvertWith | index.py:185-186 | a token whose title case is a key is replaced by the entry for the token as it is, raising KeyError when that is missing; any other token is kept (characterised by `ConversionNeverFails` and `TitledConverts`) |
| NameLookup.Tokens | index.py:136-189 | the tokens handed to the matcher: `%20` decoded, title-cased, split, rewritten and stripped, in that order, or the rewrite's KeyError |
| NameLookup.MatchName | index.py:198-214 | the alpha-2 code of one token: "not found" without a close match, the second match for "British Virgin Islands" (IndexError with one match), the first match otherwise, looked up upper-cased in the name table (characterised by `MatchNameChoice`) |
| NameLookup.Resolve | index.py:130-214 | the empty-input error for "", otherwise the tokens' codes in token order, stopping at the first failing token (characterised by `ResolveOutcome`) |
| NameLookup.Lookup | index.py:120-220 | the whole name route: the resolved codes assembled into the response map (characterised by `LookupClean`) |
| NameLookup.ApiName | index.py:129-220 | the route, loops included, equals the response the model specifies |
| NameLookup.NameTokens | index.py:135-189 | decoding, title casing, splitting, rewriting and stripping give the specified tokens |
| NameLookup.ConvertNames | index.py:183-186 | the rewrite loop in place equals the rewrite traversal with the same table |
| NameLookup.MatchNames | index.py:194-214 | the matching loop equals the matching traversal, stopping at the first unmatched token |
| NameLookup.TokensAreTitled | index.py:136-161 | every token reaching the rewrite is already in title case |
| NameLookup.ConversionNeverFails | index.py:184-186 | the rewrite never raises KeyError: a token is rewritten exactly when it is a key |
| NameLookup.TitledConverts | index.py:185-186 | for a token in title case, the key test and the lookup agree, with any table |
| NameLookup.NonTitleKeysNeverConverted | index.py:164-186 | a key that is not in title case never equals a token, so its entry can never apply |
| NameLookup.AcronymKeysNotTitled | index.py:164-179 | "UAE", "USA" and "DR Congo" are not in title case |
| NameLookup.SaoTomeKeyNotTitled | index.py:177 | "Sao Tome and Principe" is not in title case |
| NameLookup.FrenchSouthernKeyNotTitled | index.py:178 | "French Southern and Antarctic Lands" is not in title case |
| NameLookup.NonTitleKeysAreKeys | index.py:164-181 | those five strings are keys of the rewrite table, so five entries are dead |
| NameLookup.LeadingSpaceNotConverted | index.py:184-189 | a token with a leading space is never rewritten |
| NameLookup.PaddedIvoryCoastMissed | index.py:161-189 | " Ivory Coast", the second piece of "France, Ivory Coast", names a key, yet it is left as it is and only then stripped to "Ivory Coast" |
| NameLookup.KeysStartWithoutSpace | index.py:164-181 | no key of the rewrite table is empty or starts with a space |
| NameLookup.MatchNameChoice | index.py:198-214 | no close match means "not found"; the special token takes the second match and raises IndexError when there is only one; any other token takes the first |
| NameLookup.MatchNameClean | index.py:214 | with the package's name table, the final lookup never raises KeyError and gives a code of the table |
| NameLookup.CandidateIsName | index.py:192-214 | every search candidate, upper-cased, is a name of the table |
| NameLookup.ResolveMatchesTokens | index.py:130-214 | a non-empty input always yields tokens, and its codes are those of its tokens |
| NameLookup.ResolveOutcome | index.py:130-214 | the empty input is the only one rejected as empty; success gives one code per token in order; failure reports the first failing token and nothing before it failed |
| NameLookup.MatchAllOutcome | index.py:195-214 | matching a token list gives every token's code in order, or the error of its first failing token |
| NameLookup.LookupClean | index.py:195-218 | with the package's tables and a covering dataset the route never raises KeyError, and its answer maps exactly the resolved codes to their records |
| NameLookup.ExceptionKeptWhole | index.py:157-159 | an input whose upper case is an exception name, in any letter case, is one token |
| NameLookup.ExceptionFragmentedInList | index.py:157-161 | any other input with a comma gives at least two tokens, none holding a comma |
| NameLookup.VirginIslandsBritishRewritten | index.py:153-203 | an input title-casing to "Virgin Islands, British" reaches the matcher as the single token "British Virgin Islands" |
| NameLookup.WholeInputRewritten | index.py:157-189 | an input kept whole that is a key reaches the matcher as that key's value |
| NameLookup.WholeInputToken | index.py:157-189 | an input kept whole is rewritten and stripped as one token |
| NameLookup.VirginIslandsBritishIsException | index.py:153 | "Virgin Islands, British" is one of the comma exceptions |
| NameLookup.VirginIslandsBritishIsKey | index.py:181 | it is rewritten to "British Virgin Islands" |
| NameLookup.TokensIntended | index.py:183-189 | the tokens with spaces stripped before the rewrite instead of after it |
| NameLookup.IntendedRewritesStrippedTokens | index.py:183-189 | when tokens are stripped before the rewrite, the rewrite never fails and every token is rewritten exactly when it is a key |
| CodeLookup.NormalizeCode | index.py:256 | the result is the upper-cased input with its spaces filtered out and then its `%20` markers replaced by nothing; without a '%' in the input it is just the upper-cased input without spaces; no lower-case letter or space remains |
| CodeLookup.NormalizeSteps | index.py:256 | removing the spaces is the filter, and a '%' can only come from the input |
| CodeLookup.Alpha3ToAlpha2 | index.py:264-284 | the conversion gives a code exactly for the alpha-3 codes of the table, and then that code's alpha-2 code |
| CodeLookup.ConvertCode | index.py:293-313 | a three-character token is replaced by its alpha-2 code, or rejected with the alpha-3 error when it is not an alpha-3 code; any other token is kept (characterised by `ConvertCodeMeaning`) |
| CodeLookup.MatchesAlpha2Pattern | index.py:302 | `re.match(r"^[A-Z]{2}$", c)`: two upper-case ASCII letters, optionally followed by one newline |
| CodeLookup.KnownAlpha2 | index.py:302 | the test a token of a list must pass to stay in it: the pattern and membership of the alpha-2 table |
| CodeLookup.ValidateMulti | index.py:288-303 | a code holding a comma is split, its pieces stripped of whitespace, and the list loop run over their original number |
| CodeLookup.ValidateSingle | index.py:305-320 | a single token is converted, then must match the pattern and be an alpha-2 or alpha-3 key, or is rejected with the alpha-2 error naming it (characterised by `ValidateSingleOutcome`) |
| CodeLookup.Validate | index.py:288 | the list branch for a code holding a comma, the single branch otherwise |
| CodeLookup.Lookup | index.py:255-326 | the whole code route: normalise, validate, assemble the response map (characterised by `LookupClean` and the `Answered` lemmas) |
| CodeLookup.ApiAlpha2 | index.py:247-326 | the route, loops included, equals the response the model specifies |
| CodeLookup.ValidateFrom | index.py:291-303 | the list loop either keeps going or ends with IndexError or an alpha-3 error |
| CodeLookup.ValidateList | index.py:291-303 | the in-place loop, with its conversions and removals, equals the specified loop |
| CodeLookup.ValidateOne | index.py:305-320 | the single-token checks equal the specified ones |
| CodeLookup.ConvertCodeMeaning | index.py:293-300 | conversion fails exactly on a three-character token that is not an alpha-3 code, and names that token |
| CodeLookup.KnownAlpha2Exact | index.py:302 | with the package's tables the pattern and table test accepts exactly the alpha-2 codes, including every converted alpha-3 code |
| CodeLookup.PatternAcceptsTrailingNewline | index.py:302 | the pattern accepts "GB" followed by a newline and rejects "GBR" and "gb" |
| CodeLookup.GoodStep | index.py:291-303 | an iteration on a good token converts it in place and moves on |
| CodeLookup.BadStep | index.py:291-303 | an iteration on a converted token that fails the test removes the first equal element and moves on |
| CodeLookup.GoodRun | index.py:291-303 | a run of good tokens is converted in place and stays in the list |
| CodeLookup.ShrunkListFails | index.py:291-303 | once the list is shorter than the loop range, the loop cannot succeed |
| CodeLookup.GoodPrefixKnown | index.py:291-303 | the converted good tokens all pass the test |
| CodeLookup.UpToFirstBad | index.py:291-303 | the loop reaches the first bad token with every token before it converted in place |
| CodeLookup.FirstBad | index.py:291-303 | the index of the first token that fails conversion or the test of line 302: every token before it is good, and the token at it is not |
| CodeLookup.ValidateOutcome | index.py:287-303 | decided by the first token that is not good: none gives every token converted; a failing conversion gives the alpha-3 error naming it; the last token gives the others converted; any earlier one makes the loop fail |
| CodeLookup.UnknownRemoved | index.py:291-303 | at the first bad token, when it converts, the list is shortened and the loop succeeds only when that token was the last |
| CodeLookup.ValidateSingleOutcome | index.py:305-320 | with the package's tables a single code is answered by its alpha-2 code, or rejected with the alpha-3 or alpha-2 error that names it |
| CodeLookup.AcceptedCodesAreAlpha2 | index.py:287-320 | with the package's tables every accepted code is an alpha-2 code, and a rejection is IndexError, an alpha-3 error or an alpha-2 error |
| CodeLookup.EmptyCodeUnreachable | index.py:255-261 | for every input, table and dataset the empty-input error never occurs, because the list built from the input always holds one element |
| CodeLookup.LookupClean | index.py:255-326 | with the package's tables and a covering dataset the route never raises KeyError and answers only alpha-2 codes |
| CodeLookup.NormalizedAlpha2Answered | index.py:255-326 | any raw input whose normalised form is an alpha-2 code, `%20` markers included, is answered with exactly that code's record |
| CodeLookup.Alpha2CodeAnswered | index.py:255-326 | a raw alpha-2 code in any letter case, with spaces anywhere and no `%`, is answered with exactly that code's record (inputs with `%20` are covered by `NormalizedAlpha2Answered`) |
| CodeLookup.Alpha3CodeAnswered | index.py:255-326 | a raw alpha-3 code in any letter case, with spaces anywhere, is answered with exactly the record of its alpha-2 code |
| CodeLookup.ValidCodeAnswered | index.py:305-326 | an alpha-2 code as the package lists it is answered with exactly its record |
| CodeLookup.SingleTokenAnswered | index.py:305-326 | a comma-free normalised input that validates to one code is answered with that code's record |
| CodeLookup.FilterCodes | index.py:291-303 | when the loop is read as a filter, it succeeds exactly when every token converts, and keeps only codes that pass the test |
| CodeLookup.FilterCodesKeepsGood | index.py:291-303 | the filter keeps exactly the good tokens, converted |
| CodeLookup.FilterAllGood | index.py:291-303 | filtering good tokens only converts them |
| CodeLookup.FilterGoodThenDropped | index.py:291-303 | good tokens followed by a last converting bad one keep the good tokens, converted |
| CodeLookup.AgreesWhereAsWrittenSucceeds | index.py:291-303 | wherever the loop as written succeeds, the filter gives the same list |
| CodeLookup.UnknownThenValidOverruns | index.py:289-303 | a list of a two-character unknown code followed by a valid code raises IndexError, while the filter answers the valid code |
| CodeLookup.UnknownThenValidLoop | index.py:291-303 | the same, for the loop over the two tokens |
| CodeLookup.ValidateIntended | index.py:288-320 | validation with the list loop replaced by the filter that drops failing codes |
| CodeLookup.LookupIntended | index.py:255-326 | the code route with that validation |
| CodeLookup.IntendedExtendsAsWritten | index.py:255-326 | the route with the filter answers every request the route as written answers, and answers it the same |
| CodeLookup.NormalizeNotIdempotent | index.py:256 | normalising "%%2020" gives "%20", and normalising that gives the empty string |
| CodeLookup.NormalizeUnspaced | index.py:256 | on a string with no spaces or lower-case letters, normalisation only removes `%20` markers |

## Left out

- Flask routing, `request.base_url`, JSON serialisation and status codes are not modelled. A route's answer is a `Result`; the error message text is `Results.Message`.
- The shared `error_message` dictionary, which the routes mutate, is not modelled. Each error is returned as a value instead.
- Loading the ISO 3166-2 object from cloud storage is not modelled, so the `blob_exists` check (index.py:125-127, 251-253) is left out. The dataset is a parameter.
- The contents of the `iso3166` tables and of the dataset are parameters. The lemmas that need the package's properties say so in their requires (`NameTableClean`, `CodeTablesClean`, `DatasetCovers`).
- `difflib.get_close_matches` scoring is not modelled. The matcher is an arbitrary function parameter. Where a lemma needs more, it assumes only that the matcher returns candidates it was given.
- DrawsFromCandidates: does not state the bound of at most three matches, because no property here depends on it.
- Case mapping covers ASCII only. Python's Unicode case mapping of non-ASCII letters (accented input such as "Côte") is not modelled, and such letters are treated as uncased.
- handler.py, the remaining routes of index.py and static/js/script.js are not part of this model.
- KeysStartWithoutSpace: states only that no key is empty or starts with a space, not the full key list, because that is all the rewrite lemmas need.

## Findings

| source | as written | input that shows it | evidently intended | confidence | as-written member | corrected member |
|---|---|---|---|---|---|---|
| index.py:291-303 | the loop over a list of codes removes an invalid code from the list it is indexing, while the index keeps running to the original length | "XX,GB" (XX not an alpha-2 code): XX is removed, the list shrinks to one element, and index 1 raises IndexError | invalid codes are dropped and the valid ones answered ("GB") | not executed | CodeLookup.UnknownThenValidOverruns | CodeLookup.FilterCodes |
| index.py:184-189 | tokens are rewritten through the informal-name table before they are stripped of spaces, so a token after ", " keeps its leading space and never matches a key | "France, Ivory Coast": " Ivory Coast" is not rewritten to "Côte d'Ivoire" | strip first, then rewrite every token that is a key | not executed | NameLookup.PaddedIvoryCoastMissed | NameLookup.IntendedRewritesStrippedTokens |
