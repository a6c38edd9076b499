/** The reference data the routes read: the ISO 3166-1 tables of the `iso3166`
    package, passed in as values, and the ISO 3166-2 dataset, a map from
    alpha-2 code to the country's record. Also the step both routes end with:
    building the response map from the collected alpha-2 codes. */
module Iso3166 {
  import opened Text
  import opened Results

  /** The `iso3166` tables the routes consult.
      - `names`: the keys of the by-name table, in its order;
      - `byName`: the alpha-2 code of the country with each such name;
      - `byAlpha3`: the alpha-2 code of the country with each alpha-3 code;
      - `alpha2`: the keys of the by-alpha-2 table. */
  datatype Tables = Tables(
    names: seq<string>,
    byName: map<string, string>,
    byAlpha3: map<string, string>,
    alpha2: set<string>)

  /** The candidate names the closest-match search runs over: every table
      name with surrounding spaces stripped, in table order. */
  function Universe(t: Tables): (u: seq<string>)
    ensures |u| == |t.names|
  {
    StripEach(t.names, Spaces)
  }

  /** The `iso3166` name table as the package ships it: every listed name is
      a key, is upper case and has no surrounding spaces. */
  ghost predicate NameTableClean(t: Tables)
  {
    forall n :: n in t.names ==> n in t.byName && Upper(n) == n && Strip(n, Spaces) == n
  }

  /** The `iso3166` code tables as the package ships them: every alpha-2
      code is two upper-case letters, every alpha-3 code has three
      characters and maps to a listed alpha-2 code. */
  ghost predicate CodeTablesClean(t: Tables)
  {
    && (forall c :: c in t.alpha2 ==> |c| == 2 && IsUpperAscii(c[0]) && IsUpperAscii(c[1]))
    && (forall c :: c in t.byAlpha3 ==> |c| == 3 && t.byAlpha3[c] in t.alpha2)
  }

  /** The dataset holds a record for every alpha-2 code the tables produce. */
  ghost predicate DatasetCovers<R>(t: Tables, ds: map<string, R>)
  {
    && (forall n :: n in t.byName ==> t.byName[n] in ds)
    && (forall c :: c in t.alpha2 ==> c in ds)
  }

  /** The index of the first code without a record (|codes| when there is none). */
  function FirstMissing<R>(codes: seq<string>, ds: map<string, R>): (k: nat)
    ensures k <= |codes|
    ensures forall j :: 0 <= j < k ==> codes[j] in ds
    ensures k < |codes| ==> codes[k] !in ds
    decreases |codes|
  {
    if codes == [] || codes[0] !in ds then 0 else 1 + FirstMissing(codes[1..], ds)
  }

  /** Each code's dataset record stored under the code, starting from `acc`:
      every code is looked up in order, a missing one raises KeyError. */
  function AssembleFrom<R>(acc: map<string, R>, codes: seq<string>, ds: map<string, R>): (r: Result<map<string, R>>)
    ensures r.Ok? <==> forall i :: 0 <= i < |codes| ==> codes[i] in ds
    ensures r.Ok? ==> r.value.Keys == acc.Keys + (set c | c in codes)
    ensures r.Ok? ==> forall c :: c in codes ==> r.value[c] == ds[c]
    ensures r.Ok? ==> forall c :: c in acc && c !in codes ==> r.value[c] == acc[c]
    ensures r.Err? ==> r.error.KeyError? && r.error.key in codes && r.error.key !in ds
    ensures r.Err? ==> FirstMissing(codes, ds) < |codes| && r.error == KeyError(codes[FirstMissing(codes, ds)])
    decreases |codes|
  {
    if codes == [] then Ok(acc)
    else if codes[0] !in ds then Err(KeyError(codes[0]))
    else
      var r := AssembleFrom(acc[codes[0] := ds[codes[0]]], codes[1..], ds);
      assert forall c :: c in codes <==> c == codes[0] || c in codes[1..];
      assert forall i :: 1 <= i < |codes| ==> codes[i] == codes[1..][i - 1];
      r
  }

  /** The response map of a route, built from the codes it collected. */
  function Assemble<R>(codes: seq<string>, ds: map<string, R>): Result<map<string, R>>
  {
    AssembleFrom(map[], codes, ds)
  }

  /** The key set of a successful response is the set of collected codes
      (duplicates collapse), each mapped to its dataset record; the response
      fails exactly when some code is missing from the dataset, naming the
      first missing one. */
  lemma AssembleMeaning<R>(codes: seq<string>, ds: map<string, R>)
    ensures Assemble(codes, ds).Ok? <==> forall c :: c in codes ==> c in ds
    ensures Assemble(codes, ds).Ok? ==>
      Assemble(codes, ds).value == map c | c in codes :: ds[c]
    ensures Assemble(codes, ds).Err? ==>
      FirstMissing(codes, ds) < |codes| && Assemble(codes, ds).error == KeyError(codes[FirstMissing(codes, ds)])
  {
    var r := Assemble(codes, ds);
    assert r.Ok? <==> forall i :: 0 <= i < |codes| ==> codes[i] in ds;
    if r.Ok? {
      assert r.value.Keys == (map c | c in codes :: ds[c]).Keys;
    }
  }

  /** A single code with a record is answered with that record alone. */
  lemma AssembleOne<R>(c: string, ds: map<string, R>)
    requires c in ds
    ensures Assemble([c], ds) == Ok(map[c := ds[c]])
  {
    AssembleMeaning([c], ds);
    assert (map x | x in [c] :: ds[x]) == map[c := ds[c]];
  }

  /** The loop that fills the response map (index.py lines 217-218 and
      323-324). */
  method AssembleRecords<R>(codes: seq<string>, ds: map<string, R>) returns (r: Result<map<string, R>>)
    ensures r == Assemble(codes, ds)
  {
    var m: map<string, R> := map[];
    var k := 0;
    while k < |codes|
      invariant 0 <= k <= |codes|
      invariant Assemble(codes, ds) == AssembleFrom(m, codes[k..], ds)
    {
      assert codes[k..][0] == codes[k] && codes[k..][1..] == codes[k + 1..];
      if codes[k] !in ds {
        return Err(KeyError(codes[k]));
      }
      m := m[codes[k] := ds[codes[k]]];
      k := k + 1;
    }
    return Ok(m);
  }
}
