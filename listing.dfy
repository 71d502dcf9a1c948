/** `displayDiariesList` and the search handler: the entries newest first, the
    totals shown above them, and the plain text the copy button exports. */
module Listing {

  import opened Results
  import opened Text
  import opened Store

  /** Strictly descending in the order `sort()` uses. */
  predicate Descending(s: seq<string>)
  {
    forall i, j :: 0 <= i < j < |s| ==> Below(s[j], s[i])
  }

  /** `x` put into its place in a descending sequence. */
  function InsertDescending(s: seq<string>, x: string): (r: seq<string>)
    requires Descending(s) && x !in s
    ensures Descending(r) && |r| == |s| + 1
    ensures forall y :: y in r <==> y == x || y in s
  {
    if s == [] then [x]
    else if Below(s[0], x) then
      assert forall j :: 0 <= j < |s| ==> Below(s[j], x) by {
        forall j | 0 < j < |s| ensures Below(s[j], x) { BelowTransitive(s[j], s[0], x); }
      }
      [x] + s
    else
      BelowTotal(x, s[0]);
      var rest := InsertDescending(s[1..], x);
      assert forall y :: y in s[1..] ==> Below(y, s[0]);
      [s[0]] + rest
  }

  /** `Object.keys(diaries).sort().reverse()`: every key once, newest first. */
  method SortKeysDescending(keys: set<string>) returns (r: seq<string>)
    ensures Descending(r) && |r| == |keys|
    ensures forall k :: k in r <==> k in keys
  {
    r := [];
    var rest := keys;
    while rest != {}
      invariant Descending(r)
      invariant forall k :: k in keys <==> k in r || k in rest
      invariant forall k :: k in r ==> k !in rest
      invariant |r| + |rest| == |keys|
      decreases |rest|
    {
      var k :| k in rest;
      r := InsertDescending(r, k);
      rest := rest - {k};
    }
  }

  /** There is only one descending arrangement of a set of keys, so the
      listing order does not depend on how the keys were enumerated. */
  lemma {:induction false} DescendingUnique(a: seq<string>, b: seq<string>)
    requires Descending(a) && Descending(b)
    requires forall k :: k in a <==> k in b
    ensures a == b
  {
    assert a != [] ==> a[0] in b;
    assert b != [] ==> b[0] in a;
    if a != [] && b != [] {
      assert a[0] in b && b[0] in a;
      if a[0] != b[0] {
        var i :| 0 <= i < |b| && b[i] == a[0];
        var j :| 0 <= j < |a| && a[j] == b[0];
        BelowAsymmetric(b[i], b[0]);
        assert false;
      }
      assert a == [a[0]] + a[1..] && b == [b[0]] + b[1..];
      forall k ensures k in a[1..] <==> k in b[1..] {
        if k in a[1..] {
          var j :| 1 <= j < |a| && a[j] == k;
          BelowIrreflexive(a[0]);
          assert k != b[0] && k in b;
        }
        if k in b[1..] {
          var j :| 1 <= j < |b| && b[j] == k;
          BelowIrreflexive(b[0]);
          assert k != a[0] && k in a;
        }
      }
      DescendingUnique(a[1..], b[1..]);
    }
  }

  /** One line of the export text: `${date}, ${diaries[date]}` and a newline,
      with the raw text, not the highlighted one. */
  function ExportLine(date: string, text: string): (line: string)
    ensures |line| == |date| + |text| + 3 && line[|line| - 1] == '\n'
  {
    date + ", " + text + "\n"
  }

  /** The export text of the listed dates, built line by line in listing
      order. */
  function ExportText(dates: seq<string>, d: Diaries): (text: string)
    requires forall k :: k in dates ==> k in d
    ensures text == [] <==> dates == []
  {
    if dates == [] then ""
    else
      var last := dates[|dates| - 1];
      ExportText(dates[..|dates| - 1], d) + ExportLine(last, d[last])
  }

  /** The export text starts with the first listed (newest) entry's line and
      continues with the export text of the rest. */
  lemma {:induction false} ExportTextStartsWithFirst(dates: seq<string>, d: Diaries)
    requires dates != [] && forall k :: k in dates ==> k in d
    ensures ExportText(dates, d) == ExportLine(dates[0], d[dates[0]]) + ExportText(dates[1..], d)
  {
    if |dates| > 1 {
      var init, last, rest := dates[..|dates| - 1], dates[|dates| - 1], dates[1..];
      var first := ExportLine(dates[0], d[dates[0]]);
      assert init[0] == dates[0] && rest[|rest| - 1] == last;
      assert init[1..] == rest[..|rest| - 1];
      ExportTextStartsWithFirst(init, d);
      assert ExportText(init, d) == first + ExportText(init[1..], d);
      assert ExportText(rest, d) == ExportText(init[1..], d) + ExportLine(last, d[last]);
      calc {
        ExportText(dates, d);
        ExportText(init, d) + ExportLine(last, d[last]);
        (first + ExportText(init[1..], d)) + ExportLine(last, d[last]);
        first + (ExportText(init[1..], d) + ExportLine(last, d[last]));
        first + ExportText(rest, d);
      }
    } else {
      assert dates[..0] == [] && dates[1..] == [];
    }
  }

  /** The counted matches of `term` in the text of `date`: the case-folded,
      non-overlapping occurrences a global, case-insensitive match finds. */
  function Matches(text: string, term: string): (n: nat)
    requires term != []
    ensures n > 0 <==> Contains(Fold(text), Fold(term))
  {
    var n := Occurrences(Fold(text), Fold(term));
    if Contains(Fold(text), Fold(term)) then
      ContainsHasOccurrence(Fold(text), Fold(term));
      n
    else
      NoOccurrenceWithoutContains(Fold(text), Fold(term));
      n
  }

  /** The match count summed over the listed dates. */
  function MatchTotal(dates: seq<string>, d: Diaries, term: string): (n: nat)
    requires term != [] && forall k :: k in dates ==> k in d
    ensures n == 0 <==> forall k :: k in dates ==> Matches(d[k], term) == 0
  {
    if dates == [] then 0
    else
      var init, last := dates[..|dates| - 1], dates[|dates| - 1];
      assert dates == init + [last];
      MatchTotal(init, d, term) + Matches(d[last], term)
  }

  /** Every listed text that contains the term contributes at least one match. */
  lemma {:induction false} MatchTotalCoversEntries(dates: seq<string>, d: Diaries, term: string)
    requires term != [] && forall k :: k in dates ==> k in d && Contains(d[k], term)
    ensures MatchTotal(dates, d, term) >= |dates|
  {
    if dates != [] {
      var last := dates[|dates| - 1];
      FoldKeepsContains(d[last], term);
      assert Fold(term) != [];
      ContainsHasOccurrence(Fold(d[last]), Fold(term));
      MatchTotalCoversEntries(dates[..|dates| - 1], d, term);
    }
  }

  /** What `displayDiariesList` puts on screen and on the clipboard. */
  datatype ListView = ListView(dates: seq<string>, total: nat, matchCount: nat, exportText: string)

  /** One more listed date adds its line to the export text and its matches
      to the count. */
  lemma ListingStep(dates: seq<string>, i: int, d: Diaries, term: string)
    requires 0 <= i < |dates| && forall k :: k in dates ==> k in d
    ensures ExportText(dates[..i + 1], d) == ExportText(dates[..i], d) + ExportLine(dates[i], d[dates[i]])
    ensures term != [] ==> MatchTotal(dates[..i + 1], d, term) == MatchTotal(dates[..i], d, term) + Matches(d[dates[i]], term)
  {
    assert dates[..i + 1][..i] == dates[..i];
  }

  /** `displayDiariesList(diaries, searchTerm)`: one pass over the keys newest
      first, adding up the match count (only when a term is given) and the
      export text; the total shown is the number of keys. */
  method DisplayDiariesList(diaries: Diaries, searchTerm: string) returns (v: ListView)
    ensures Descending(v.dates) && |v.dates| == v.total == |diaries|
    ensures forall k :: k in v.dates <==> k in diaries
    ensures v.exportText == ExportText(v.dates, diaries)
    ensures searchTerm == "" ==> v.matchCount == 0
    ensures searchTerm != "" ==> v.matchCount == MatchTotal(v.dates, diaries, searchTerm)
  {
    var allContentString := "";
    var matchCount := 0;
    var dates := SortKeysDescending(diaries.Keys);
    var i := 0;
    while i < |dates|
      invariant 0 <= i <= |dates|
      invariant allContentString == ExportText(dates[..i], diaries)
      invariant searchTerm == "" ==> matchCount == 0
      invariant searchTerm != "" ==> matchCount == MatchTotal(dates[..i], diaries, searchTerm)
    {
      var date := dates[i];
      var content := diaries[date];
      ListingStep(dates, i, diaries, searchTerm);
      if searchTerm != "" {
        matchCount := matchCount + Matches(content, searchTerm);
      }
      allContentString := allContentString + ExportLine(date, diaries[date]);
      i := i + 1;
    }
    assert dates[..|dates|] == dates;
    v := ListView(dates, |diaries|, matchCount, allContentString);
  }

  /** The entries whose text contains the term, case-sensitively: the
      `filter`/`reduce` of the search handler. */
  function Filter(d: Diaries, term: string): (r: Diaries)
    ensures forall k :: k in r <==> k in d && Contains(d[k], term)
    ensures forall k :: k in r ==> r[k] == d[k]
  {
    map k | k in d && Contains(d[k], term) :: d[k]
  }

  /** The search handler rejects a term that trims to nothing. */
  datatype SearchError = EmptyTerm

  /** The search button: trim the term, reject it if empty, list the entries
      that contain it. Every listed entry contains the term, so the match
      count is at least the number of entries. */
  method Search(diaries: Diaries, input: string) returns (r: Result<ListView, SearchError>)
    ensures r.Err? <==> Blank(input)
    ensures r.Ok? ==> forall k :: k in r.value.dates <==> k in diaries && Contains(diaries[k], Trim(input))
    ensures r.Ok? ==> Descending(r.value.dates) && r.value.total == |r.value.dates|
    ensures r.Ok? ==> r.value.matchCount == MatchTotal(r.value.dates, diaries, Trim(input))
    ensures r.Ok? ==> r.value.matchCount >= r.value.total
    ensures r.Ok? ==> r.value.exportText == ExportText(r.value.dates, diaries)
  {
    var searchTerm := Trim(input);
    if searchTerm == "" {
      return Err(EmptyTerm);
    }
    var filtered := Filter(diaries, searchTerm);
    var v := DisplayDiariesList(filtered, searchTerm);
    MatchTotalCoversEntries(v.dates, filtered, searchTerm);
    SameTextsSameTotals(v.dates, filtered, diaries, searchTerm);
    r := Ok(v);
  }

  /** The totals only read the texts of the listed dates. */
  lemma {:induction false} SameTextsSameTotals(dates: seq<string>, a: Diaries, b: Diaries, term: string)
    requires term != []
    requires forall k :: k in dates ==> k in a && k in b && a[k] == b[k]
    ensures MatchTotal(dates, a, term) == MatchTotal(dates, b, term)
    ensures ExportText(dates, a) == ExportText(dates, b)
  {
    if dates != [] {
      SameTextsSameTotals(dates[..|dates| - 1], a, b, term);
    }
  }

  /** What a search reports on a record of one entry, as Search's contract
      fixes it: the entry alone, counting its case-insensitive matches, when it
      contains the term as written, and nothing otherwise. */
  lemma SearchOfOneEntry(dates: seq<string>, key: string, text: string, term: string)
    requires term != [] && Descending(dates)
    requires forall k :: k in dates <==> k in map[key := text] && Contains(map[key := text][k], term)
    ensures Contains(text, term) ==> dates == [key] && MatchTotal(dates, map[key := text], term) == Matches(text, term)
    ensures !Contains(text, term) ==> dates == [] && MatchTotal(dates, map[key := text], term) == 0
  {
    if Contains(text, term) {
      DescendingUnique(dates, [key]);
      assert dates[..0] == [];
    } else {
      DescendingUnique(dates, []);
    }
  }

  /** The filter is case-sensitive while the count is not. An entry that holds
      the term only in another case is not found, so it adds nothing to the
      count. */
  lemma OtherCaseOnlyIsNotFound(dates: seq<string>)
    requires Descending(dates)
    requires forall k :: k in dates <==> (k in map["2024-01-01" := "Hello"]
                                        && Contains(map["2024-01-01" := "Hello"][k], "hello"))
    ensures dates == [] && MatchTotal(dates, map["2024-01-01" := "Hello"], "hello") == 0
  {
    assert "Hello"[0..5][0] != "hello"[0];
    assert !OccursAt("Hello", "hello", 0);
    SearchOfOneEntry(dates, "2024-01-01", "Hello", "hello");
  }

  /** Inside a listed entry, occurrences in another case are counted too:
      "Hi hi" is listed for "hi" with two matches. */
  lemma ListedEntryCountsOtherCase(dates: seq<string>)
    requires Descending(dates)
    requires forall k :: k in dates <==> (k in map["2024-01-01" := "Hi hi"]
                                        && Contains(map["2024-01-01" := "Hi hi"][k], "hi"))
    ensures dates == ["2024-01-01"] && MatchTotal(dates, map["2024-01-01" := "Hi hi"], "hi") == 2
  {
    assert OccursAt("Hi hi", "hi", 3);
    SearchOfOneEntry(dates, "2024-01-01", "Hi hi", "hi");
    TwoHiMatches();
  }

  lemma TwoHiMatches()
    ensures Matches("Hi hi", "hi") == 2
  {
    var f := Fold("Hi hi");
    assert f[0] == 'h' && f[1] == 'i' && f[2] == ' ' && f[3] == 'h' && f[4] == 'i';
    assert f == "hi hi";
    FoldOfUnfoldable("hi");
    assert "hi hi"[..2] == "hi" && "hi hi"[2..] == " hi";
    assert " hi"[..2][0] == ' ' && " hi"[1..] == "hi";
    assert "hi"[..2] == "hi" && "hi"[2..] == "";
  }

  /** A search for "cat" over one entry "cat cat dog" lists one entry and
      counts two matches. */
  lemma OneEntryTwoMatches(dates: seq<string>)
    requires Descending(dates)
    requires forall k :: k in dates <==> (k in map["2024-01-01" := "cat cat dog"]
                                        && Contains(map["2024-01-01" := "cat cat dog"][k], "cat"))
    ensures |dates| == 1 && MatchTotal(dates, map["2024-01-01" := "cat cat dog"], "cat") == 2
  {
    CatIsContained();
    TwoCatMatches();
    SearchOfOneEntry(dates, "2024-01-01", "cat cat dog", "cat");
  }

  lemma CatIsContained()
    ensures Contains("cat cat dog", "cat")
  {
    assert OccursAt("cat cat dog", "cat", 0);
  }

  lemma TwoCatMatches()
    ensures Matches("cat cat dog", "cat") == 2
  {
    FoldOfUnfoldable("cat cat dog");
    FoldOfUnfoldable("cat");
    OneCatInCatDog();
    assert " cat dog"[..3][0] == ' ' && " cat dog"[1..] == "cat dog";
    assert Occurrences(" cat dog", "cat") == 1;
    assert "cat cat dog"[..3] == "cat" && "cat cat dog"[3..] == " cat dog";
  }

  lemma OneCatInCatDog()
    ensures Occurrences("cat dog", "cat") == 1
  {
    assert Occurrences("og", "cat") == 0;
    assert "dog"[..3][0] == 'd' && "dog"[1..] == "og";
    assert Occurrences("dog", "cat") == 0;
    assert " dog"[..3][0] == ' ' && " dog"[1..] == "dog";
    assert Occurrences(" dog", "cat") == 0;
    assert "cat dog"[..3] == "cat" && "cat dog"[3..] == " dog";
  }

}
