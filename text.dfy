/** The string and list operations of the Python standard library that the
    lookup routes rely on, over ASCII case mapping: `str.upper`, `str.title`,
    `str.replace`, `str.split`, `str.strip`, `sorted` on strings and
    `list.remove`. Characters outside ASCII are left unchanged by the case
    mappings and count as uncased. */
module Text {

  // ----- Characters -----

  predicate IsUpperAscii(c: char) { 'A' <= c <= 'Z' }
  predicate IsLowerAscii(c: char) { 'a' <= c <= 'z' }

  /** A character that has an upper- and a lower-case form. */
  predicate IsCased(c: char) { IsUpperAscii(c) || IsLowerAscii(c) }

  function UpperChar(c: char): (r: char)
    ensures !IsLowerAscii(r) && IsCased(r) == IsCased(c)
    ensures IsCased(c) ==> IsUpperAscii(r)
    ensures !IsLowerAscii(c) ==> r == c
  {
    if IsLowerAscii(c) then (c as int - 32) as char else c
  }

  function LowerChar(c: char): (r: char)
    ensures !IsUpperAscii(r) && IsCased(r) == IsCased(c)
    ensures IsCased(c) ==> IsLowerAscii(r)
    ensures !IsUpperAscii(c) ==> r == c
    ensures UpperChar(r) == UpperChar(c)
  {
    if IsUpperAscii(c) then (c as int + 32) as char else c
  }

  // ----- str.upper -----

  function Upper(s: string): (r: string)
    ensures |r| == |s|
    ensures forall i :: 0 <= i < |s| ==> r[i] == UpperChar(s[i])
  {
    seq(|s|, i requires 0 <= i < |s| => UpperChar(s[i]))
  }

  lemma UpperConcat(a: string, b: string)
    ensures Upper(a + b) == Upper(a) + Upper(b)
  {
  }

  /** A string without lower-case letters is its own upper-case form. */
  lemma UpperOfUpper(s: string)
    requires forall i :: 0 <= i < |s| ==> !IsLowerAscii(s[i])
    ensures Upper(s) == s
  {
  }

  // ----- str.title -----

  /** `str.title`: a cased character is upper-cased when the character before
      it is uncased (or it is the first), and lower-cased otherwise.
      `prevCased` says whether the character before `s` was cased. */
  function TitleFrom(s: string, prevCased: bool): (r: string)
    ensures |r| == |s|
    decreases |s|
  {
    if s == [] then []
    else [if prevCased then LowerChar(s[0]) else UpperChar(s[0])] + TitleFrom(s[1..], IsCased(s[0]))
  }

  function Title(s: string): (r: string)
    ensures |r| == |s|
  {
    TitleFrom(s, false)
  }

  /** Whether the last character before the rest of a string is cased. */
  function CasedAfter(s: string, p: bool): bool
  {
    if s == [] then p else IsCased(s[|s| - 1])
  }

  /** Title-casing works piecewise: the second piece continues from the case
      of the first piece's last character. */
  lemma {:induction false} TitleConcat(a: string, b: string, p: bool)
    ensures TitleFrom(a + b, p) == TitleFrom(a, p) + TitleFrom(b, CasedAfter(a, p))
    decreases |a|
  {
    if a != [] {
      assert (a + b)[1..] == a[1..] + b;
      TitleConcat(a[1..], b, IsCased(a[0]));
      assert CasedAfter(a[1..], IsCased(a[0])) == CasedAfter(a, p) by {
        if |a| > 1 { assert a[1..][|a| - 2] == a[|a| - 1]; }
      }
    } else {
      assert a + b == b;
    }
  }

  /** The character at `i > 0` of a title-cased string is lower-cased when the
      character before it is cased and upper-cased otherwise. */
  lemma {:induction false} TitleAt(s: string, p: bool, i: nat)
    requires 0 < i < |s|
    ensures TitleFrom(s, p)[i] == if IsCased(s[i - 1]) then LowerChar(s[i]) else UpperChar(s[i])
    decreases i
  {
    assert TitleFrom(s, p)[i] == TitleFrom(s[1..], IsCased(s[0]))[i - 1];
    if i > 1 { TitleAt(s[1..], IsCased(s[0]), i - 1); }
  }

  /** A string with a letter in the wrong case for its position is changed by
      title-casing. */
  lemma TitleChangesAt(s: string, i: nat)
    requires 0 < i < |s|
    requires if IsCased(s[i - 1]) then IsUpperAscii(s[i]) else IsLowerAscii(s[i])
    ensures Title(s) != s
  {
    TitleAt(s, false, i);
  }

  /** Title-casing keeps every uncased character (spaces, digits,
      punctuation) where it was. */
  lemma {:induction false} TitleKeepsUncased(s: string, p: bool)
    ensures forall i :: 0 <= i < |s| && !IsCased(s[i]) ==> TitleFrom(s, p)[i] == s[i]
    decreases |s|
  {
    if s != [] {
      TitleKeepsUncased(s[1..], IsCased(s[0]));
      var r := TitleFrom(s, p);
      assert r[1..] == TitleFrom(s[1..], IsCased(s[0]));
      forall i | 0 <= i < |s| && !IsCased(s[i]) ensures r[i] == s[i] {
        if i > 0 { assert r[i] == r[1..][i - 1]; }
      }
    }
  }

  /** Title-casing changes only the case of letters, so upper-casing the
      title-cased string gives the upper-cased original. */
  lemma UpperOfTitle(s: string, p: bool)
    ensures Upper(TitleFrom(s, p)) == Upper(s)
  {
    var r := TitleFrom(s, p);
    forall i | 0 <= i < |s| ensures UpperChar(r[i]) == UpperChar(s[i]) {
      if i > 0 {
        TitleAt(s, p, i);
      }
    }
    assert Upper(r) == Upper(s);
  }

  /** Title-casing is idempotent. */
  lemma {:induction false} TitleIdempotent(s: string, p: bool)
    ensures TitleFrom(TitleFrom(s, p), p) == TitleFrom(s, p)
    decreases |s|
  {
    if s != [] {
      var t := TitleFrom(s, p);
      TitleIdempotent(s[1..], IsCased(s[0]));
      assert t[0] == (if p then LowerChar(s[0]) else UpperChar(s[0]));
      assert t[1..] == TitleFrom(s[1..], IsCased(s[0]));
      assert IsCased(t[0]) == IsCased(s[0]);
    }
  }

  /** Both parts of a title-cased concatenation are title-cased, the second
      continuing from the case of the first part's last character. */
  lemma TitledParts(a: string, b: string, p: bool)
    requires TitleFrom(a + b, p) == a + b
    ensures TitleFrom(a, p) == a && TitleFrom(b, CasedAfter(a, p)) == b
  {
    TitleConcat(a, b, p);
    assert (a + b)[..|a|] == a && (a + b)[|a|..] == b;
  }

  /** Stripping spaces from a title-cased string leaves it title-cased. */
  lemma TitledStrip(s: string)
    requires Title(s) == s
    ensures Title(Strip(s, Spaces)) == Strip(s, Spaces)
  {
    TitledTrimStart(s);
    TitledTrimEnd(TrimStart(s, Spaces));
  }

  lemma TitledTrimStart(s: string)
    requires Title(s) == s
    ensures Title(TrimStart(s, Spaces)) == TrimStart(s, Spaces)
  {
    var a := TrimStart(s, Spaces);
    var k := |s| - |a|;
    var pre := s[..k];
    assert s == pre + a;
    if k > 0 {
      assert s[k - 1] in Spaces;
      assert pre[k - 1] == s[k - 1];
    }
    assert !CasedAfter(pre, false);
    TitledParts(pre, a, false);
  }

  lemma TitledTrimEnd(a: string)
    requires Title(a) == a
    ensures Title(TrimEnd(a, Spaces)) == TrimEnd(a, Spaces)
  {
    var b := TrimEnd(a, Spaces);
    assert a == b + a[|b|..];
    TitledParts(b, a[|b|..], false);
  }

  /** Splitting a title-cased string at an uncased separator gives pieces that
      are title-cased on their own: the first continues the case state of the
      whole string, every later one starts after the separator. */
  lemma {:induction false} TitledPieces(s: string, p: bool, d: char)
    requires !IsCased(d) && TitleFrom(s, p) == s
    ensures TitleFrom(Split(s, d)[0], p) == Split(s, d)[0]
    ensures forall k :: 1 <= k < |Split(s, d)| ==> Title(Split(s, d)[k]) == Split(s, d)[k]
    decreases |s|
  {
    if s != [] {
      var t := TitleFrom(s, p);
      assert t[1..] == TitleFrom(s[1..], IsCased(s[0]));
      assert s[1..] == t[1..];
      TitledPieces(s[1..], IsCased(s[0]), d);
      if s[0] == d {
        assert TitleFrom(s[1..], false) == s[1..];
      } else {
        var rest := Split(s[1..], d);
        assert Split(s, d) == [[s[0]] + rest[0]] + rest[1..];
        assert s[0] == t[0];
        assert ([s[0]] + rest[0])[1..] == rest[0];
      }
    }
  }

  // ----- str.replace -----

  /** `s.replace(pat, rep)`: every occurrence of `pat`, scanning from the left
      and without overlaps, is replaced by `rep`. */
  function ReplaceAll(s: string, pat: string, rep: string): (r: string)
    requires pat != []
    ensures forall c :: c in r ==> c in s || c in rep
    ensures |pat| == 1 && pat[0] !in rep ==> pat[0] !in r
    decreases |s|
  {
    assert |s| < |pat| && |pat| == 1 ==> s == [];
    if |s| < |pat| then s
    else if s[..|pat|] == pat then rep + ReplaceAll(s[|pat|..], pat, rep)
    else [s[0]] + ReplaceAll(s[1..], pat, rep)
  }

  /** A string in which the first character of the pattern never occurs is
      left unchanged. */
  lemma {:induction false} ReplaceAbsent(s: string, pat: string, rep: string)
    requires pat != [] && pat[0] !in s
    ensures ReplaceAll(s, pat, rep) == s
    decreases |s|
  {
    if |s| >= |pat| {
      assert s[..|pat|][0] == s[0];
      ReplaceAbsent(s[1..], pat, rep);
    }
  }

  /** `pat` occurs in `s` starting at index `i`. */
  predicate MatchAt(s: string, pat: string, i: nat)
  {
    i + |pat| <= |s| && s[i..i + |pat|] == pat
  }

  /** No occurrence at the front: the first character is kept. */
  lemma ReplaceNoMatchHere(s: string, pat: string, rep: string)
    requires pat != [] && s != [] && !MatchAt(s, pat, 0)
    ensures ReplaceAll(s, pat, rep) == [s[0]] + ReplaceAll(s[1..], pat, rep)
  {
    if |s| >= |pat| {
      assert s[..|pat|] == s[0..0 + |pat|];
    } else {
      assert |s[1..]| < |pat|;
    }
  }

  /** An occurrence at the front becomes the replacement. */
  lemma ReplaceMatchHere(s: string, pat: string, rep: string)
    requires pat != [] && MatchAt(s, pat, 0)
    ensures ReplaceAll(s, pat, rep) == rep + ReplaceAll(s[|pat|..], pat, rep)
  {
    assert s[..|pat|] == s[0..0 + |pat|];
  }

  /** An occurrence in the tail is an occurrence one further on. */
  lemma MatchAtTail(s: string, pat: string, i: nat)
    requires s != []
    ensures MatchAt(s[1..], pat, i) == MatchAt(s, pat, i + 1)
  {
    if i + |pat| <= |s[1..]| {
      assert s[1..][i..i + |pat|] == s[i + 1..i + 1 + |pat|];
    }
  }

  /** Characters before the first occurrence are kept as they are, in order. */
  lemma {:induction false} ReplaceSkipsUnmatched(s: string, pat: string, rep: string, k: nat)
    requires pat != [] && k <= |s|
    requires forall i :: 0 <= i < k ==> !MatchAt(s, pat, i)
    ensures ReplaceAll(s, pat, rep) == s[..k] + ReplaceAll(s[k..], pat, rep)
    decreases k
  {
    if k == 0 {
      assert s[..0] == [] && s[0..] == s;
    } else {
      ReplaceNoMatchHere(s, pat, rep);
      forall i | 0 <= i < k - 1 ensures !MatchAt(s[1..], pat, i) {
        MatchAtTail(s, pat, i);
      }
      ReplaceSkipsUnmatched(s[1..], pat, rep, k - 1);
      var a := s[1..][..k - 1];
      var b := ReplaceAll(s[k..], pat, rep);
      assert s[1..][k - 1..] == s[k..];
      assert ReplaceAll(s[1..], pat, rep) == a + b;
      assert [s[0]] + a == s[..k];
      assert [s[0]] + (a + b) == ([s[0]] + a) + b;
    }
  }

  /** The first occurrence of the pattern becomes the replacement, everything
      before it is kept, and the scan resumes after it. */
  lemma ReplaceFirstOccurrence(s: string, pat: string, rep: string, k: nat)
    requires pat != [] && MatchAt(s, pat, k)
    requires forall i :: 0 <= i < k ==> !MatchAt(s, pat, i)
    ensures ReplaceAll(s, pat, rep) == s[..k] + rep + ReplaceAll(s[k + |pat|..], pat, rep)
  {
    var tail := s[k..];
    var rest := ReplaceAll(s[k + |pat|..], pat, rep);
    ReplaceSkipsUnmatched(s, pat, rep, k);
    assert MatchAt(tail, pat, 0) by {
      assert tail[0..0 + |pat|] == s[k..k + |pat|];
    }
    ReplaceMatchHere(tail, pat, rep);
    assert tail[|pat|..] == s[k + |pat|..];
    assert ReplaceAll(tail, pat, rep) == rep + rest;
    assert s[..k] + (rep + rest) == s[..k] + rep + rest;
  }

  /** A string in which the pattern never occurs is left unchanged. */
  lemma ReplaceNoOccurrence(s: string, pat: string, rep: string)
    requires pat != [] && forall i :: 0 <= i < |s| ==> !MatchAt(s, pat, i)
    ensures ReplaceAll(s, pat, rep) == s
  {
    ReplaceSkipsUnmatched(s, pat, rep, |s|);
    assert s[..|s|] == s && s[|s|..] == [];
  }

  /** `s` with every `c` left out and the other characters kept in order. */
  function RemoveChar(s: string, c: char): (r: string)
    ensures |r| <= |s|
    ensures forall x :: x in r <==> x in s && x != c
    decreases |s|
  {
    if s == [] then []
    else
      var rest := RemoveChar(s[1..], c);
      assert forall x :: x in s <==> x == s[0] || x in s[1..];
      if s[0] == c then rest else [s[0]] + rest
  }

  /** The filter keeps every other character as often as it occurs. */
  lemma {:induction false} RemoveCharMultiset(s: string, c: char)
    ensures multiset(RemoveChar(s, c)) == multiset(s)[c := 0]
    decreases |s|
  {
    if s != [] {
      RemoveCharMultiset(s[1..], c);
      assert s == [s[0]] + s[1..];
      assert multiset(s) == multiset{s[0]} + multiset(s[1..]);
    }
  }

  /** The filter works piece by piece, so it keeps the order of what it keeps. */
  lemma {:induction false} RemoveCharConcat(a: string, b: string, c: char)
    ensures RemoveChar(a + b, c) == RemoveChar(a, c) + RemoveChar(b, c)
    decreases |a|
  {
    if a != [] {
      assert (a + b)[0] == a[0] && (a + b)[1..] == a[1..] + b;
      RemoveCharConcat(a[1..], b, c);
      if a[0] != c {
        assert RemoveChar(a + b, c) == [a[0]] + RemoveChar(a[1..] + b, c);
        assert RemoveChar(a, c) == [a[0]] + RemoveChar(a[1..], c);
      }
    } else {
      assert a + b == b;
    }
  }

  /** Replacing a one-character pattern by nothing removes that character. */
  lemma {:induction false} ReplaceCharRemoves(s: string, c: char)
    ensures ReplaceAll(s, [c], "") == RemoveChar(s, c)
    decreases |s|
  {
    if s != [] {
      ReplaceCharRemoves(s[1..], c);
      assert s[..1] == [s[0]];
      assert s[1..] == s[|[c]|..];
    }
  }

  /** Removing a character that does not occur changes nothing. */
  lemma {:induction false} RemoveAbsentChar(s: string, c: char)
    requires c !in s
    ensures RemoveChar(s, c) == s
    decreases |s|
  {
    if s != [] {
      RemoveAbsentChar(s[1..], c);
      assert [s[0]] + s[1..] == s;
    }
  }

  // ----- str.split -----

  /** `s.split(d)`: the pieces between the occurrences of `d`; never empty. */
  function Split(s: string, d: char): (r: seq<string>)
    ensures |r| >= 1
    ensures forall k :: 0 <= k < |r| ==> d !in r[k]
    decreases |s|
  {
    if s == [] then [""]
    else
      var rest := Split(s[1..], d);
      if s[0] == d then [""] + rest else [[s[0]] + rest[0]] + rest[1..]
  }

  /** `d.join(pieces)`. */
  function Join(pieces: seq<string>, d: char): string
    decreases |pieces|
  {
    if pieces == [] then ""
    else if |pieces| == 1 then pieces[0]
    else pieces[0] + [d] + Join(pieces[1..], d)
  }

  /** Joining the pieces with the separator gives back the string. */
  lemma {:induction false} JoinSplit(s: string, d: char)
    ensures Join(Split(s, d), d) == s
    decreases |s|
  {
    if s != [] {
      var rest := Split(s[1..], d);
      JoinSplit(s[1..], d);
      if s[0] == d {
        assert Split(s, d)[1..] == rest;
      } else {
        var r := Split(s, d);
        assert r[1..] == rest[1..];
        if |rest| == 1 {
          assert rest[0] == s[1..];
        } else {
          assert Join(rest, d) == rest[0] + [d] + Join(rest[1..], d);
        }
      }
    }
  }

  /** Splitting a string made of separator-free pieces joined by the
      separator gives back the pieces. */
  lemma {:induction false} SplitJoin(pieces: seq<string>, d: char)
    requires |pieces| >= 1 && forall k :: 0 <= k < |pieces| ==> d !in pieces[k]
    ensures Split(Join(pieces, d), d) == pieces
    decreases |pieces|
  {
    if |pieces| == 1 {
      SplitWithoutSeparator(pieces[0], d);
    } else {
      SplitJoin(pieces[1..], d);
      SplitAtFirstSeparator(pieces[0], Join(pieces[1..], d), d);
      assert pieces == [pieces[0]] + pieces[1..];
    }
  }

  lemma {:induction false} SplitWithoutSeparator(s: string, d: char)
    requires d !in s
    ensures Split(s, d) == [s]
    decreases |s|
  {
    if s != [] {
      SplitWithoutSeparator(s[1..], d);
      assert s == [s[0]] + s[1..];
    }
  }

  lemma {:induction false} SplitAtFirstSeparator(a: string, b: string, d: char)
    requires d !in a
    ensures Split(a + [d] + b, d) == [a] + Split(b, d)
    decreases |a|
  {
    if a == [] {
      assert a + [d] + b == [d] + b;
      assert ([d] + b)[1..] == b;
    } else {
      assert (a + [d] + b)[1..] == a[1..] + [d] + b;
      SplitAtFirstSeparator(a[1..], b, d);
      assert a == [a[0]] + a[1..];
    }
  }

  /** A string holding the separator splits into at least two pieces. */
  lemma {:induction false} SplitAtSeparator(s: string, d: char)
    requires d in s
    ensures |Split(s, d)| >= 2
    decreases |s|
  {
    if s[0] != d {
      assert s == [s[0]] + s[1..];
      SplitAtSeparator(s[1..], d);
    }
  }

  // ----- str.strip -----

  const Spaces: set<char> := {' '}

  /** The characters `str.strip()` with no argument removes. */
  const PythonWhitespace: set<char> :=
    {' ', '\t', '\n', '\r', '\U{000B}', '\U{000C}', '\U{001C}', '\U{001D}', '\U{001E}', '\U{001F}',
     '\U{0085}', '\U{00A0}', '\U{1680}', '\U{2000}', '\U{2001}', '\U{2002}', '\U{2003}', '\U{2004}',
     '\U{2005}', '\U{2006}', '\U{2007}', '\U{2008}', '\U{2009}', '\U{200A}', '\U{2028}', '\U{2029}',
     '\U{202F}', '\U{205F}', '\U{3000}'}

  /** `s.lstrip(chars)`: the longest suffix of `s` not starting with one of `ws`. */
  function TrimStart(s: string, ws: set<char>): (r: string)
    ensures |r| <= |s| && r == s[|s| - |r|..]
    ensures r == [] || r[0] !in ws
    ensures forall i :: 0 <= i < |s| - |r| ==> s[i] in ws
    decreases |s|
  {
    if s != [] && s[0] in ws then
      var r := TrimStart(s[1..], ws);
      assert s[1..][|s| - 1 - |r|..] == s[|s| - |r|..];
      assert forall i :: 1 <= i < |s| - |r| ==> s[i] == s[1..][i - 1];
      r
    else s
  }

  /** `s.rstrip(chars)`: the longest prefix of `s` not ending with one of `ws`. */
  function TrimEnd(s: string, ws: set<char>): (r: string)
    ensures |r| <= |s| && r == s[..|r|]
    ensures r == [] || r[|r| - 1] !in ws
    ensures forall i :: |r| <= i < |s| ==> s[i] in ws
    decreases |s|
  {
    if s != [] && s[|s| - 1] in ws then TrimEnd(s[..|s| - 1], ws) else s
  }

  /** `s.strip(chars)`. */
  function Strip(s: string, ws: set<char>): string
  {
    TrimEnd(TrimStart(s, ws), ws)
  }

  /** A string that neither starts nor ends with a stripped character is
      left as it is. */
  lemma StripUnpadded(s: string, ws: set<char>)
    requires s != [] && s[0] !in ws && s[|s| - 1] !in ws
    ensures Strip(s, ws) == s
  {
  }

  /** One leading stripped character in front of an unpadded string is all
      that stripping removes. */
  lemma StripOneLeading(s: string, ws: set<char>)
    requires |s| >= 2 && s[0] in ws && s[1] !in ws && s[|s| - 1] !in ws
    ensures Strip(s, ws) == s[1..]
  {
    assert s[1..][0] == s[1];
    assert TrimStart(s, ws) == s[1..];
  }

  lemma StripEachUnpadded(ss: seq<string>, ws: set<char>)
    requires forall i :: 0 <= i < |ss| ==> ss[i] != [] && ss[i][0] !in ws && ss[i][|ss[i]| - 1] !in ws
    ensures StripEach(ss, ws) == ss
  {
    forall i | 0 <= i < |ss| ensures Strip(ss[i], ws) == ss[i] {
      StripUnpadded(ss[i], ws);
    }
  }

  /** `[x.strip(chars) for x in ss]`. */
  function StripEach(ss: seq<string>, ws: set<char>): (r: seq<string>)
    ensures |r| == |ss|
  {
    seq(|ss|, i requires 0 <= i < |ss| => Strip(ss[i], ws))
  }

  // ----- sorted() on strings -----

  /** Python's `<=` on strings: lexicographic by code point, a proper prefix
      comes first. */
  predicate LexLe(a: string, b: string)
    decreases |a|
  {
    |a| == 0 || (|b| > 0 && (a[0] < b[0] || (a[0] == b[0] && LexLe(a[1..], b[1..]))))
  }

  lemma {:induction false} LexLeReflexive(a: string)
    ensures LexLe(a, a)
    decreases |a|
  {
    if |a| > 0 { LexLeReflexive(a[1..]); }
  }

  lemma {:induction false} LexLeTotal(a: string, b: string)
    ensures LexLe(a, b) || LexLe(b, a)
    decreases |a|
  {
    if |a| > 0 && |b| > 0 && a[0] == b[0] { LexLeTotal(a[1..], b[1..]); }
  }

  lemma {:induction false} LexLeTransitive(a: string, b: string, c: string)
    requires LexLe(a, b) && LexLe(b, c)
    ensures LexLe(a, c)
    decreases |a|
  {
    if |a| > 0 && a[0] == b[0] && b[0] == c[0] { LexLeTransitive(a[1..], b[1..], c[1..]); }
  }

  lemma {:induction false} LexLeAntisymmetric(a: string, b: string)
    requires LexLe(a, b) && LexLe(b, a)
    ensures a == b
    decreases |a|
  {
    if |a| > 0 {
      LexLeAntisymmetric(a[1..], b[1..]);
      assert a == [a[0]] + a[1..] && b == [b[0]] + b[1..];
    }
  }

  predicate IsSorted(s: seq<string>)
  {
    forall i, j :: 0 <= i < j < |s| ==> LexLe(s[i], s[j])
  }

  function Insert(x: string, s: seq<string>): (r: seq<string>)
    requires IsSorted(s)
    ensures IsSorted(r) && multiset(r) == multiset(s) + multiset{x}
    decreases |s|
  {
    if s == [] then [x]
    else if LexLe(x, s[0]) then
      InsertFrontSorted(x, s);
      [x] + s
    else
      LexLeTotal(x, s[0]);
      var rest := Insert(x, s[1..]);
      InsertBehindSorted(x, s, rest);
      assert s == [s[0]] + s[1..];
      [s[0]] + rest
  }

  lemma InsertFrontSorted(x: string, s: seq<string>)
    requires IsSorted(s) && s != [] && LexLe(x, s[0])
    ensures IsSorted([x] + s)
  {
    var r := [x] + s;
    forall i, j | 0 <= i < j < |r| ensures LexLe(r[i], r[j]) {
      if i == 0 {
        if j > 1 { LexLeTransitive(x, s[0], s[j - 1]); }
      } else {
        assert r[i] == s[i - 1] && r[j] == s[j - 1];
      }
    }
  }

  lemma InsertBehindSorted(x: string, s: seq<string>, rest: seq<string>)
    requires IsSorted(s) && s != [] && LexLe(s[0], x)
    requires IsSorted(rest) && multiset(rest) == multiset(s[1..]) + multiset{x}
    ensures IsSorted([s[0]] + rest)
  {
    forall j | 0 <= j < |rest| ensures LexLe(s[0], rest[j]) {
      assert rest[j] in multiset(rest);
      if rest[j] != x {
        assert rest[j] in multiset(s[1..]);
        var k :| 0 <= k < |s[1..]| && s[1..][k] == rest[j];
        assert s[k + 1] == rest[j];
      }
    }
  }

  /** `sorted(s)` for a list of strings. */
  function SortStrings(s: seq<string>): (r: seq<string>)
    ensures IsSorted(r) && multiset(r) == multiset(s)
    decreases |s|
  {
    if s == [] then []
    else
      assert s == [s[0]] + s[1..];
      Insert(s[0], SortStrings(s[1..]))
  }

  /** The first element of a sorted list is below every element of it. */
  lemma SortedHeadIsLeast(a: seq<string>, x: string)
    requires IsSorted(a) && x in a
    ensures LexLe(a[0], x)
  {
    var i :| 0 <= i < |a| && a[i] == x;
    if i == 0 { LexLeReflexive(x); }
  }

  lemma TailMultiset(a: seq<string>)
    requires a != []
    ensures multiset(a[1..]) == multiset(a) - multiset{a[0]}
  {
    assert a == [a[0]] + a[1..];
  }

  /** A sorted permutation is unique, so `SortStrings` agrees with any correct
      sort, Python's among them. */
  lemma {:induction false} SortedUnique(a: seq<string>, b: seq<string>)
    requires IsSorted(a) && IsSorted(b) && multiset(a) == multiset(b)
    ensures a == b
    decreases |a|
  {
    assert |a| == |multiset(a)| == |multiset(b)| == |b|;
    if a != [] {
      SortedHeadsAgree(a, b);
      TailMultiset(a);
      TailMultiset(b);
      SortedTail(a);
      SortedTail(b);
      SortedUnique(a[1..], b[1..]);
      assert a == [a[0]] + a[1..] && b == [b[0]] + b[1..];
    }
  }

  lemma SortedHeadsAgree(a: seq<string>, b: seq<string>)
    requires IsSorted(a) && IsSorted(b) && multiset(a) == multiset(b) && a != [] && b != []
    ensures a[0] == b[0]
  {
    assert a[0] in multiset(a) && b[0] in multiset(b);
    assert a[0] in b && b[0] in a;
    SortedHeadIsLeast(b, a[0]);
    SortedHeadIsLeast(a, b[0]);
    LexLeAntisymmetric(a[0], b[0]);
  }

  lemma SortedTail(a: seq<string>)
    requires IsSorted(a) && a != []
    ensures IsSorted(a[1..])
  {
    forall i, j | 0 <= i < j < |a[1..]| ensures LexLe(a[1..][i], a[1..][j]) {
      assert a[1..][i] == a[i + 1] && a[1..][j] == a[j + 1];
    }
  }

  // ----- list.remove -----

  function FirstIndex<T(==)>(s: seq<T>, x: T): (k: nat)
    requires x in s
    ensures k < |s| && s[k] == x
    ensures forall j :: 0 <= j < k ==> s[j] != x
    decreases |s|
  {
    if s[0] == x then 0 else 1 + FirstIndex(s[1..], x)
  }

  /** `s.remove(x)`: drops the first occurrence of `x` (Python raises
      ValueError when there is none; every caller here passes an element of
      the list). */
  function RemoveFirst<T(==)>(s: seq<T>, x: T): (r: seq<T>)
    requires x in s
    ensures |r| == |s| - 1
  {
    var k := FirstIndex(s, x);
    s[..k] + s[k + 1..]
  }

  /** Removing takes out exactly one copy of the value and nothing else. */
  lemma RemoveFirstMultiset<T>(s: seq<T>, x: T)
    requires x in s
    ensures multiset(RemoveFirst(s, x)) == multiset(s) - multiset{x}
  {
    var k := FirstIndex(s, x);
    assert s == s[..k] + [s[k]] + s[k + 1..];
  }

  /** Removing a value whose first occurrence is at `k` drops index `k`. */
  lemma RemoveFirstAt<T>(s: seq<T>, x: T, k: nat)
    requires k < |s| && s[k] == x && x !in s[..k]
    ensures RemoveFirst(s, x) == s[..k] + s[k + 1..]
  {
    assert forall j :: 0 <= j < k ==> s[..k][j] == s[j];
  }
}
