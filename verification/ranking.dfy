/**
  The keyword ranking engine: the query is normalised into search terms,
  each resume is scored by the number of distinct terms its lower-cased
  text contains, resumes scoring zero are dropped and the rest are ordered
  by score, highest first, equal scores in store order.
 */
module Ranking {
  import opened Strings
  import opened Resumes
  import opened Ordering

  /** `.map(k => k.trim())` */
  function TrimAll(pieces: seq<string>): (r: seq<string>)
    ensures |r| == |pieces|
    ensures forall k :: 0 <= k < |r| ==> r[k] == Trim(pieces[k])
  {
    if pieces == [] then [] else [Trim(pieces[0])] + TrimAll(pieces[1..])
  }

  /** `.filter(Boolean)`: drops the empty strings and keeps the rest in order. */
  function DropEmpty(pieces: seq<string>): (r: seq<string>)
    ensures forall t :: t in r <==> t in pieces && t != ""
    ensures |r| <= |pieces|
  {
    if pieces == [] then []
    else (if pieces[0] == "" then [] else [pieces[0]]) + DropEmpty(pieces[1..])
  }

  /** Only empty strings drop to nothing. */
  lemma DropEmptyOfEmpties(pieces: seq<string>)
    requires forall k :: 0 <= k < |pieces| ==> pieces[k] == ""
    ensures DropEmpty(pieces) == []
  {
  }

  /** The comma-separated pieces of the lower-cased query. */
  function QueryPieces(keywords: string): seq<string> {
    Split(Lower(keywords), ',')
  }

  /** A normalised search term: non-empty, free of commas and of upper-case
      letters, and neither starting nor ending with a space. */
  predicate WellFormedTerm(t: string) {
    && t != ""
    && ',' !in t
    && !IsSpace(t[0]) && !IsSpace(t[|t| - 1])
    && forall c :: c in t ==> !IsUpper(c)
  }

  /** The terms a list of trimmed pieces contributes. */
  lemma TrimAllMembers(pieces: seq<string>)
    ensures forall t :: t in TrimAll(pieces) <==> exists k :: 0 <= k < |pieces| && Trim(pieces[k]) == t
  {
    var trimmed := TrimAll(pieces);
    forall t ensures t in trimmed <==> exists k :: 0 <= k < |pieces| && Trim(pieces[k]) == t {
      if t in trimmed {
        var k :| 0 <= k < |trimmed| && trimmed[k] == t;
      }
    }
  }

  /** Every non-empty trimmed piece of the lower-cased query is well formed. */
  lemma TrimmedPieceWellFormed(keywords: string, k: int)
    requires 0 <= k < |QueryPieces(keywords)|
    requires Trim(QueryPieces(keywords)[k]) != ""
    ensures WellFormedTerm(Trim(QueryPieces(keywords)[k]))
  {
    var piece := QueryPieces(keywords)[k];
    var t := Trim(piece);
    LowerIdempotent(keywords);
    TrimChars(piece);
    var lo, hi := SplitPieceSlice(Lower(keywords), ',', k);
    SplitNoSeparator(Lower(keywords), ',', k);
    forall c | c in t ensures !IsUpper(c) {
      var i :| 0 <= i < |piece| && piece[i] == c;
      assert Lower(keywords)[lo + i] == c;
    }
  }

  /** `keywords.toLowerCase().split(',').map(k => k.trim()).filter(Boolean)`:
      the search terms are exactly the non-empty trimmed pieces of the
      lower-cased query, and each of them is well formed. */
  function SearchTerms(keywords: string): (terms: seq<string>)
    ensures forall t :: t in terms <==>
      t != "" && exists k :: 0 <= k < |QueryPieces(keywords)| && Trim(QueryPieces(keywords)[k]) == t
    ensures forall k :: 0 <= k < |terms| ==> WellFormedTerm(terms[k])
  {
    var pieces := QueryPieces(keywords);
    var terms := DropEmpty(TrimAll(pieces));
    TrimAllMembers(pieces);
    forall k | 0 <= k < |terms| ensures WellFormedTerm(terms[k]) {
      KeptTermWellFormed(keywords, terms[k]);
    }
    terms
  }

  /** Every term the normalisation keeps is well formed. */
  lemma KeptTermWellFormed(keywords: string, t: string)
    requires t in DropEmpty(TrimAll(QueryPieces(keywords)))
    ensures WellFormedTerm(t)
  {
    var pieces := QueryPieces(keywords);
    TrimAllMembers(pieces);
    var j :| 0 <= j < |pieces| && Trim(pieces[j]) == t;
    TrimmedPieceWellFormed(keywords, j);
  }

  /** The query consists of commas and spaces only. */
  predicate OnlySeparators(keywords: string) {
    forall i :: 0 <= i < |keywords| ==> keywords[i] == ',' || IsSpace(keywords[i])
  }

  /** A query of commas and spaces only yields no search terms. */
  lemma OnlySeparatorsNoTerms(keywords: string)
    requires OnlySeparators(keywords)
    ensures SearchTerms(keywords) == []
  {
    var pieces := QueryPieces(keywords);
    forall k | 0 <= k < |pieces| ensures TrimAll(pieces)[k] == "" {
      BlankPiece(keywords, k);
    }
    DropEmptyOfEmpties(TrimAll(pieces));
  }

  /** In a query of commas and spaces only, every piece is all spaces. */
  lemma BlankPiece(keywords: string, k: int)
    requires OnlySeparators(keywords)
    requires 0 <= k < |QueryPieces(keywords)|
    ensures Trim(QueryPieces(keywords)[k]) == ""
  {
    var lower := Lower(keywords);
    var piece := QueryPieces(keywords)[k];
    var lo, hi := SplitPieceSlice(lower, ',', k);
    SplitNoSeparator(lower, ',', k);
    forall i | 0 <= i < |piece| ensures IsSpace(piece[i]) {
      assert piece[i] == lower[lo + i];
      assert piece[i] != ',';
      LowerCharKeepsNonLetters(keywords[lo + i]);
    }
    TrimEmptyIff(piece);
  }

  /** A query holding anything besides commas and spaces yields a term. */
  lemma OtherCharacterGivesTerm(keywords: string, i: int)
    requires 0 <= i < |keywords| && keywords[i] != ',' && !IsSpace(keywords[i])
    ensures SearchTerms(keywords) != []
  {
    var pieces := QueryPieces(keywords);
    var lower := Lower(keywords);
    var c := lower[i];
    LowerCharKeepsNonLetters(keywords[i]);
    var k, m := SplitCovers(lower, ',', i);
    TrimEmptyIff(pieces[k]);
    assert Trim(pieces[k]) in SearchTerms(keywords);
  }

  /** Normalisation yields no terms exactly for the queries made of commas
      and spaces only (the empty query among them). */
  lemma NoSearchTermsIff(keywords: string)
    ensures SearchTerms(keywords) == [] <==> OnlySeparators(keywords)
  {
    if OnlySeparators(keywords) {
      OnlySeparatorsNoTerms(keywords);
    } else {
      var i :| 0 <= i < |keywords| && keywords[i] != ',' && !IsSpace(keywords[i]);
      OtherCharacterGivesTerm(keywords, i);
    }
  }

  /** The distinct terms among `terms`. */
  function TermSet(terms: seq<string>): set<string> {
    set t | t in terms
  }

  /** The `matchedKeywords` set built by the `forEach` over the terms: the
      distinct terms that occur in `text`. */
  function MatchedTerms(terms: seq<string>, text: string): (m: set<string>)
    ensures forall t :: t in m <==> t in terms && Includes(text, t)
  {
    if terms == [] then {}
    else
      var m := MatchedTerms(terms[..|terms| - 1], text);
      var t := terms[|terms| - 1];
      assert terms == terms[..|terms| - 1] + [t];
      if Includes(text, t) then m + {t} else m
  }

  /** A resume's score: the number of distinct terms found in its
      lower-cased content. */
  function Score(terms: seq<string>, content: string): nat {
    |MatchedTerms(terms, Lower(content))|
  }

  /** A subset is no larger than its superset. */
  lemma {:induction false} SubsetCardinality(a: set<string>, b: set<string>)
    requires a <= b
    ensures |a| <= |b|
    decreases |a|
  {
    if a != {} {
      var x :| x in a;
      SubsetCardinality(a - {x}, b - {x});
    }
  }

  /** The score is at most the number of distinct terms, and is positive
      exactly when some term occurs in the lower-cased content. */
  lemma ScoreBounds(terms: seq<string>, content: string)
    ensures Score(terms, content) <= |TermSet(terms)|
    ensures Score(terms, content) > 0 <==> exists t :: t in terms && Includes(Lower(content), t)
  {
    var m := MatchedTerms(terms, Lower(content));
    SubsetCardinality(m, TermSet(terms));
    if exists t :: t in terms && Includes(Lower(content), t) {
      var t :| t in terms && Includes(Lower(content), t);
      assert t in m;
    }
  }

  /** The score depends only on which terms are searched for, not on their
      order or repetition. */
  lemma ScoreDependsOnTermSet(a: seq<string>, b: seq<string>, content: string)
    requires TermSet(a) == TermSet(b)
    ensures Score(a, content) == Score(b, content)
  {
    var ma := MatchedTerms(a, Lower(content));
    var mb := MatchedTerms(b, Lower(content));
    assert forall t :: t in a <==> t in TermSet(a);
    assert forall t :: t in b <==> t in TermSet(b);
    assert ma == mb;
  }

  /** Repeating a term in the query never raises a score. */
  lemma RepeatedTermAddsNothing(terms: seq<string>, t: string, content: string)
    requires t in terms
    ensures Score(terms + [t], content) == Score(terms, content)
  {
    assert TermSet(terms + [t]) == TermSet(terms);
    ScoreDependsOnTermSet(terms + [t], terms, content);
  }

  /** `resumes.map(resume => ({ ...resume, score }))`: every resume, in store
      order, paired with its score. */
  function ScoreAll(resumes: seq<Resume>, terms: seq<string>): (r: seq<ScoredResume>)
    ensures |r| == |resumes|
    ensures forall i :: 0 <= i < |r| ==> r[i] == ScoredResume(resumes[i], Score(terms, resumes[i].content))
  {
    seq(|resumes|, i requires 0 <= i < |resumes| => ScoredResume(resumes[i], Score(terms, resumes[i].content)))
  }

  /** `.filter(r => r.score > 0)`: the entries scoring above zero, in order. */
  function Positive(s: seq<ScoredResume>): (r: seq<ScoredResume>)
    ensures forall x :: x in r <==> x in s && x.score > 0
  {
    if s == [] then []
    else (if s[0].score > 0 then [s[0]] else []) + Positive(s[1..])
  }

  /** Nothing of an all-zero sequence scores above zero. */
  lemma PositiveOfZeros(s: seq<ScoredResume>)
    requires forall i :: 0 <= i < |s| ==> s[i].score == 0
    ensures Positive(s) == []
  {
  }

  /** Dropping zero scores leaves every positive score class as it was. */
  lemma {:induction false} PositiveKeepsClasses(s: seq<ScoredResume>, k: nat)
    requires k > 0
    ensures ScoreClass(Positive(s), k) == ScoreClass(s, k)
    decreases |s|
  {
    if s != [] {
      var head := if s[0].score > 0 then [s[0]] else [];
      PositiveKeepsClasses(s[1..], k);
      ScoreClassAppend(head, Positive(s[1..]), k);
      assert s == [s[0]] + s[1..];
      ScoreClassAppend([s[0]], s[1..], k);
    }
  }

  /** Sorting rearranges and keeps every entry. */
  lemma SortByScoreMembers(s: seq<ScoredResume>)
    ensures forall x :: x in SortByScore(s) <==> x in s
  {
    forall x ensures x in SortByScore(s) <==> x in s {
      assert x in SortByScore(s) <==> x in multiset(SortByScore(s));
    }
  }

  /** The entries of `ScoreAll` are the store's resumes with their scores. */
  lemma ScoreAllMembers(resumes: seq<Resume>, terms: seq<string>)
    ensures forall x :: x in ScoreAll(resumes, terms) <==>
      x.resume in resumes && x.score == Score(terms, x.resume.content)
  {
    var all := ScoreAll(resumes, terms);
    forall x ensures x in all <==> x.resume in resumes && x.score == Score(terms, x.resume.content) {
      if x.resume in resumes {
        var i :| 0 <= i < |resumes| && resumes[i] == x.resume;
        assert all[i].resume == x.resume;
      }
    }
  }

  /** The body of `filteredAndScoredResumes` once the search terms are
      known. With no terms every resume is listed in store order with score
      0. Otherwise exactly the resumes with a positive score are listed,
      each with its own score, highest score first and resumes of equal
      score in store order; the result is a permutation of the
      positive-score entries. */
  function RankByTerms(resumes: seq<Resume>, terms: seq<string>): (r: seq<ScoredResume>)
    ensures terms == [] ==>
      |r| == |resumes| && forall i :: 0 <= i < |r| ==> r[i] == ScoredResume(resumes[i], 0)
    ensures terms != [] ==>
      && NonIncreasing(r)
      && (forall i :: 0 <= i < |r| ==> r[i].score > 0)
      && (forall x :: x in r <==>
            x.resume in resumes && x.score == Score(terms, x.resume.content) && x.score > 0)
      && (forall k: nat :: k > 0 ==> ScoreClass(r, k) == ScoreClass(ScoreAll(resumes, terms), k))
      && multiset(r) == multiset(Positive(ScoreAll(resumes, terms)))
  {
    if terms == [] then
      seq(|resumes|, i requires 0 <= i < |resumes| => ScoredResume(resumes[i], 0))
    else
      var all := ScoreAll(resumes, terms);
      var kept := Positive(all);
      var r := SortByScore(kept);
      SortByScoreStable(kept);
      SortByScoreMembers(kept);
      ScoreAllMembers(resumes, terms);
      assert forall k: nat :: k > 0 ==> ScoreClass(r, k) == ScoreClass(all, k) by {
        forall k: nat | k > 0 ensures ScoreClass(r, k) == ScoreClass(all, k) {
          PositiveKeepsClasses(all, k);
        }
      }
      r
  }

  /** `filteredAndScoredResumes`: the ranking of the store for the query. */
  function Rank(resumes: seq<Resume>, keywords: string): seq<ScoredResume> {
    RankByTerms(resumes, SearchTerms(keywords))
  }

  /** A query whose terms occur in no resume ranks nothing. */
  lemma RankNoMatch(resumes: seq<Resume>, keywords: string)
    requires SearchTerms(keywords) != []
    requires MatchesNothing(resumes, SearchTerms(keywords))
    ensures Rank(resumes, keywords) == []
  {
    var terms := SearchTerms(keywords);
    var all := ScoreAll(resumes, terms);
    forall i | 0 <= i < |all| ensures all[i].score == 0 {
      ScoreBounds(terms, resumes[i].content);
    }
    PositiveOfZeros(all);
    var r := RankByTerms(resumes, terms);
    assert multiset(r) == multiset{};
    assert |r| == |multiset(r)|;
  }

  /** The ranking equals the result of any stable descending sort of the
      positive-score entries: anything sorted by descending score that keeps
      store order among equal scores is the ranking. */
  lemma RankIsTheStableSort(resumes: seq<Resume>, terms: seq<string>, other: seq<ScoredResume>)
    requires terms != []
    requires NonIncreasing(other)
    requires StableWith(Positive(ScoreAll(resumes, terms)), other)
    ensures other == RankByTerms(resumes, terms)
  {
    var kept := Positive(ScoreAll(resumes, terms));
    var r := RankByTerms(resumes, terms);
    assert r == SortByScore(kept);
    SortByScoreStable(kept);
    SortedStableUnique(other, r);
  }

  /** What the results grid shows (the `keywords ? … : resumes` choice). */
  datatype Listing =
    | AllResumes(resumes: seq<Resume>)
    | MatchingResumes(ranked: seq<ScoredResume>)

  /** The raw store while the keyword box is empty, the ranking as soon as
      it holds anything at all, even only commas and spaces. */
  function Displayed(resumes: seq<Resume>, keywords: string): (v: Listing)
    ensures v.AllResumes? <==> keywords == ""
    ensures v.AllResumes? ==> v.resumes == resumes
    ensures v.MatchingResumes? ==> v.ranked == Rank(resumes, keywords)
  {
    if keywords != "" then MatchingResumes(Rank(resumes, keywords)) else AllResumes(resumes)
  }

  /** "No resumes found matching your keywords." appears when the store is
      non-empty (the notice sits inside the `resumes.length > 0` branch;
      an empty store shows "Your resume list is empty" instead), the
      keyword box is non-empty and the ranking is empty. */
  predicate ShowsNoMatchNotice(resumes: seq<Resume>, keywords: string) {
    resumes != [] && keywords != "" && |Rank(resumes, keywords)| == 0
  }

  /** No term of `terms` occurs in the lower-cased content of any resume. */
  predicate MatchesNothing(resumes: seq<Resume>, terms: seq<string>) {
    forall i, t :: 0 <= i < |resumes| && t in terms ==> !Includes(Lower(resumes[i].content), t)
  }

  /** The no-match notice shows exactly when the store is non-empty and the
      query has terms, none of which occurs in any resume's lower-cased
      content. */
  lemma NoMatchNoticeIff(resumes: seq<Resume>, keywords: string)
    ensures ShowsNoMatchNotice(resumes, keywords) <==>
      resumes != [] && keywords != "" && SearchTerms(keywords) != []
      && MatchesNothing(resumes, SearchTerms(keywords))
  {
    if ShowsNoMatchNotice(resumes, keywords) {
      EmptyRankMatchesNothing(resumes, SearchTerms(keywords));
    }
    if resumes != [] && keywords != "" && SearchTerms(keywords) != []
      && MatchesNothing(resumes, SearchTerms(keywords))
    {
      RankNoMatch(resumes, keywords);
    }
  }

  /** The forward half of `NoMatchNoticeIff`: an empty ranking of a
      non-empty store comes from terms that occur nowhere. */
  lemma EmptyRankMatchesNothing(resumes: seq<Resume>, terms: seq<string>)
    requires |RankByTerms(resumes, terms)| == 0
    ensures resumes != [] ==> terms != []
    ensures MatchesNothing(resumes, terms)
  {
    if terms != [] {
      var all := ScoreAll(resumes, terms);
      assert |multiset(Positive(all))| == 0;
      forall i | 0 <= i < |all| ensures all[i].score == 0 {
        assert all[i] !in Positive(all);
      }
      forall i, t | 0 <= i < |resumes| && t in terms
        ensures !Includes(Lower(resumes[i].content), t)
      {
        ScoreBounds(terms, resumes[i].content);
      }
    }
  }

  /** A non-empty query of only commas and spaces lists every resume with
      score 0, and so never shows the no-match notice. */
  lemma TermlessQueryListsAll(resumes: seq<Resume>, keywords: string)
    requires keywords != ""
    requires OnlySeparators(keywords)
    ensures Displayed(resumes, keywords).MatchingResumes?
    ensures |Displayed(resumes, keywords).ranked| == |resumes|
    ensures forall i :: 0 <= i < |resumes| ==>
      Displayed(resumes, keywords).ranked[i] == ScoredResume(resumes[i], 0)
    ensures !ShowsNoMatchNotice(resumes, keywords)
  {
    OnlySeparatorsNoTerms(keywords);
  }
}
