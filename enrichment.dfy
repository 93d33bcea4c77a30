/**
 * Review enrichment: the sentiment class of a compound polarity score and the
 * keyword-based topic labels of a review text.
 */
module Enrichment {
  import opened Reviews

  // ---------------------------------------------------------------------------
  // Sentiment
  // ---------------------------------------------------------------------------

  /** Classifies a compound polarity score at the fixed thresholds 0.05 and -0.05. */
  function AnalyzeSentiment(compound: real): (s: Sentiment)
    ensures s == Positive <==> compound >= 0.05
    ensures s == Negative <==> compound <= -0.05
    ensures s == Neutral <==> -0.05 < compound < 0.05
  {
    if compound >= 0.05 then Positive
    else if compound <= -0.05 then Negative
    else Neutral
  }

  /** Negative < Neutral < Positive. */
  function Rank(s: Sentiment): (r: nat)
    ensures r <= 2
  {
    match s
    case Negative => 0
    case Neutral => 1
    case Positive => 2
  }

  /** A higher score never yields a lower class. */
  lemma SentimentMonotone(a: real, b: real)
    requires a <= b
    ensures Rank(AnalyzeSentiment(a)) <= Rank(AnalyzeSentiment(b))
  {
  }

  // ---------------------------------------------------------------------------
  // The topic table
  // ---------------------------------------------------------------------------

  /** Topic labels with their trigger keywords, in the order the extractor tries them. */
  const TopicKeywords: seq<(string, seq<string>)> := [
    ("professionalism", ["professional", "professionalism", "expert", "expertise", "skilled", "competent"]),
    ("efficiency", ["efficient", "efficiency", "quick", "fast", "timely", "prompt", "speedy"]),
    ("quality", ["quality", "excellent", "perfect", "great", "outstanding", "superb", "top-notch"]),
    ("customer_service", ["service", "helpful", "friendly", "courteous", "attentive", "responsive"]),
    ("communication", ["communication", "communicate", "informed", "updates", "clear", "transparent"]),
    ("timeliness", ["on time", "punctual", "deadline", "schedule", "timely"]),
    ("price", ["price", "cost", "expensive", "cheap", "affordable", "value", "worth"]),
    ("cleanliness", ["clean", "cleanliness", "tidy", "neat", "spotless", "organized"]),
    ("reliability", ["reliable", "dependable", "trustworthy", "consistent", "trust"]),
    ("experience", ["experience", "knowledgeable", "seasoned", "veteran"])
  ]

  /** The label returned when no topic matches. */
  const General: string := "general"

  /** The topic labels of the table are pairwise different and none is the fallback label. */
  lemma TopicNamesDistinct()
    ensures forall i, j :: 0 <= i < j < |TopicKeywords| ==> TopicKeywords[i].0 != TopicKeywords[j].0
    ensures forall i :: 0 <= i < |TopicKeywords| ==> TopicKeywords[i].0 != General
  {
  }

  // ---------------------------------------------------------------------------
  // Lower-casing and whole-word matching
  // ---------------------------------------------------------------------------

  /** ASCII lower-casing of one character. */
  function LowerChar(c: char): (l: char)
    ensures 'A' <= c <= 'Z' ==> 'a' <= l <= 'z' && l as int - c as int == 32
    ensures !('A' <= c <= 'Z') ==> l == c
  {
    if 'A' <= c <= 'Z' then (c as int + 32) as char else c
  }

  /** The text with every ASCII capital replaced by its small letter. */
  function Lower(s: string): (r: string)
    ensures |r| == |s|
    ensures forall i :: 0 <= i < |s| ==> r[i] == LowerChar(s[i])
    ensures forall i :: 0 <= i < |r| ==> !('A' <= r[i] <= 'Z')
    ensures forall i :: 0 <= i < |r| ==> (IsWordChar(r[i]) <==> IsWordChar(s[i]))
  {
    seq(|s|, i requires 0 <= i < |s| => LowerChar(s[i]))
  }

  /** The characters the regular-expression class \w covers, restricted to ASCII. */
  predicate IsWordChar(c: char): (b: bool)
    ensures b ==> '0' <= c <= 'z'
    ensures b <==> 'a' <= LowerChar(c) <= 'z' || '0' <= c <= '9' || c == '_'
  {
    'a' <= c <= 'z' || 'A' <= c <= 'Z' || '0' <= c <= '9' || c == '_'
  }

  /** The zero-width assertion \b at position p: a word character on exactly one side. */
  predicate Boundary(t: string, p: nat): (b: bool)
    ensures b ==> 0 < |t| && p <= |t|
    ensures p == 0 ==> (b <==> 0 < |t| && IsWordChar(t[0]))
    ensures 0 < p == |t| ==> (b <==> IsWordChar(t[p - 1]))
  {
    (0 < p <= |t| && IsWordChar(t[p - 1])) != (p < |t| && IsWordChar(t[p]))
  }

  /** The pattern \b keyword \b matches `t` starting at position i. */
  predicate MatchesAt(t: string, keyword: string, i: nat): (b: bool)
    ensures b ==> i + |keyword| <= |t| && t[i..i + |keyword|] == keyword
    ensures b && keyword != [] && IsWordChar(keyword[0]) ==> i == 0 || !IsWordChar(t[i - 1])
  {
    i + |keyword| <= |t| && t[i..i + |keyword|] == keyword && Boundary(t, i) && Boundary(t, i + |keyword|)
  }

  /** The pattern \b keyword \b matches somewhere in `t`. */
  ghost predicate WholeWordIn(t: string, keyword: string) {
    exists i: nat :: MatchesAt(t, keyword, i)
  }

  /** Scans `t` left to right for a whole-word occurrence of `keyword`. */
  method SearchWholeWord(t: string, keyword: string) returns (found: bool)
    ensures found <==> WholeWordIn(t, keyword)
  {
    if |keyword| > |t| {
      return false;
    }
    var i := 0;
    while i <= |t| - |keyword|
      invariant 0 <= i <= |t| - |keyword| + 1
      invariant forall j: nat :: j < i ==> !MatchesAt(t, keyword, j)
    {
      if MatchesAt(t, keyword, i) {
        return true;
      }
      i := i + 1;
    }
    return false;
  }

  /** A keyword glued to a preceding word character does not match there ("unprofessional"). */
  lemma {:induction false} InsideWordIsNoMatch(prefix: string, keyword: string, suffix: string)
    requires |prefix| > 0 && IsWordChar(prefix[|prefix| - 1])
    requires |keyword| > 0 && IsWordChar(keyword[0])
    ensures !MatchesAt(prefix + keyword + suffix, keyword, |prefix|)
  {
    var t := prefix + keyword + suffix;
    assert t[|prefix| - 1] == prefix[|prefix| - 1];
    assert t[|prefix|] == keyword[0];
  }

  /** A keyword between non-word characters (or the ends of the text) matches, spaces included ("on time"). */
  lemma {:induction false} DelimitedKeywordMatches(prefix: string, keyword: string, suffix: string)
    requires |keyword| > 0 && IsWordChar(keyword[0]) && IsWordChar(keyword[|keyword| - 1])
    requires prefix == [] || !IsWordChar(prefix[|prefix| - 1])
    requires suffix == [] || !IsWordChar(suffix[0])
    ensures MatchesAt(prefix + keyword + suffix, keyword, |prefix|)
    ensures WholeWordIn(prefix + keyword + suffix, keyword)
  {
    var t := prefix + keyword + suffix;
    var e := |prefix| + |keyword|;
    assert t[|prefix|..e] == keyword;
    assert t[|prefix|] == keyword[0];
    assert t[e - 1] == keyword[|keyword| - 1];
    if prefix != [] {
      assert t[|prefix| - 1] == prefix[|prefix| - 1];
    }
    if suffix != [] {
      assert t[e] == suffix[0];
    }
    assert MatchesAt(t, keyword, |prefix|);
  }

  // ---------------------------------------------------------------------------
  // Topic extraction
  // ---------------------------------------------------------------------------

  /** Some keyword of the list matches `t` as a whole word. */
  ghost predicate AnyKeywordIn(keywords: seq<string>, t: string) {
    exists j :: 0 <= j < |keywords| && WholeWordIn(t, keywords[j])
  }

  /** The labels of the table entries with a matching keyword, in table order. */
  ghost function MatchedTopics(table: seq<(string, seq<string>)>, t: string): seq<string> {
    if table == [] then []
    else
      var last := table[|table| - 1];
      MatchedTopics(table[..|table| - 1], t) + (if AnyKeywordIn(last.1, t) then [last.0] else [])
  }

  /** The table positions of the entries with a matching keyword, in increasing order. */
  ghost function MatchingPositions(table: seq<(string, seq<string>)>, t: string): seq<nat> {
    if table == [] then []
    else
      MatchingPositions(table[..|table| - 1], t)
        + (if AnyKeywordIn(table[|table| - 1].1, t) then [|table| - 1] else [])
  }

  /** The topics of a review text: the matched labels, or the single fallback label. */
  ghost function Topics(text: string): (r: seq<string>)
    ensures r != []
  {
    var m := MatchedTopics(TopicKeywords, Lower(text));
    if m == [] then [General] else m
  }

  /**
   * The matched labels are exactly the labels at the increasing list of table
   * positions whose keyword list matches.
   */
  lemma {:induction false} MatchedTopicsExact(table: seq<(string, seq<string>)>, t: string)
    ensures var m, ps := MatchedTopics(table, t), MatchingPositions(table, t);
      && |ps| == |m|
      && (forall i :: 0 <= i < |ps| ==> ps[i] < |table| && m[i] == table[ps[i]].0)
      && (forall i, j :: 0 <= i < j < |ps| ==> ps[i] < ps[j])
      && (forall p :: 0 <= p < |table| ==> (p in ps <==> AnyKeywordIn(table[p].1, t)))
  {
    if table != [] {
      var init := table[..|table| - 1];
      MatchedTopicsExact(init, t);
      var ps0 := MatchingPositions(init, t);
      forall p | 0 <= p < |table| - 1
        ensures table[p] == init[p]
      {
      }
      assert forall i :: 0 <= i < |ps0| ==> ps0[i] < |init|;
    }
  }

  /** No label appears twice in the result. */
  lemma TopicsNoDuplicates(text: string)
    ensures forall i, j :: 0 <= i < j < |Topics(text)| ==> Topics(text)[i] != Topics(text)[j]
  {
    var t := Lower(text);
    MatchedTopicsExact(TopicKeywords, t);
    TopicNamesDistinct();
    var ps := MatchingPositions(TopicKeywords, t);
    forall i, j | 0 <= i < j < |ps|
      ensures TopicKeywords[ps[i]].0 != TopicKeywords[ps[j]].0
    {
      assert ps[i] < ps[j];
    }
  }

  /**
   * The returned topics appear in table order: they are the labels at strictly
   * increasing table positions (unless the fallback is returned).
   */
  lemma TopicsInTableOrder(text: string)
    ensures Topics(text) != [General] ==>
      var ps := MatchingPositions(TopicKeywords, Lower(text));
      && |ps| == |Topics(text)|
      && (forall i :: 0 <= i < |ps| ==> ps[i] < |TopicKeywords| && Topics(text)[i] == TopicKeywords[ps[i]].0)
      && (forall i, j :: 0 <= i < j < |ps| ==> ps[i] < ps[j])
  {
    MatchedTopicsExact(TopicKeywords, Lower(text));
  }

  /** The labels of a table are pairwise different. */
  ghost predicate DistinctNames(table: seq<(string, seq<string>)>) {
    forall i, j :: 0 <= i < j < |table| ==> table[i].0 != table[j].0
  }

  /** With distinct labels, a label is matched exactly when its entry's keyword list matches. */
  lemma MatchedMembership(table: seq<(string, seq<string>)>, t: string, p: nat)
    requires DistinctNames(table) && p < |table|
    ensures table[p].0 in MatchedTopics(table, t) <==> AnyKeywordIn(table[p].1, t)
  {
    MatchedTopicsExact(table, t);
    var m, ps := MatchedTopics(table, t), MatchingPositions(table, t);
    if table[p].0 in m {
      var i :| 0 <= i < |m| && m[i] == table[p].0;
      assert table[ps[i]].0 == table[p].0;
      assert ps[i] == p;
    }
    if AnyKeywordIn(table[p].1, t) {
      var i :| 0 <= i < |ps| && ps[i] == p;
      assert m[i] == table[p].0;
    }
  }

  /** A table label is returned exactly when one of its keywords matches the lower-cased text. */
  lemma TopicMembership(text: string, p: nat)
    requires p < |TopicKeywords|
    ensures TopicKeywords[p].0 in Topics(text) <==> AnyKeywordIn(TopicKeywords[p].1, Lower(text))
  {
    TopicNamesDistinct();
    MatchedMembership(TopicKeywords, Lower(text), p);
  }

  /** The fallback is returned exactly when no keyword of any topic matches. */
  lemma GeneralFallback(text: string)
    ensures Topics(text) == [General] <==>
      forall p :: 0 <= p < |TopicKeywords| ==> !AnyKeywordIn(TopicKeywords[p].1, Lower(text))
  {
    var t := Lower(text);
    MatchedTopicsExact(TopicKeywords, t);
    TopicNamesDistinct();
    var m, ps := MatchedTopics(TopicKeywords, t), MatchingPositions(TopicKeywords, t);
    if m != [] {
      assert m[0] == TopicKeywords[ps[0]].0;
      assert AnyKeywordIn(TopicKeywords[ps[0]].1, t);
    } else {
      forall p | 0 <= p < |TopicKeywords|
        ensures !AnyKeywordIn(TopicKeywords[p].1, t)
      {
        assert p !in ps;
      }
    }
  }

  /** Tries the keywords of one topic in order and stops at the first whole-word match. */
  method SearchKeywords(keywords: seq<string>, t: string) returns (hit: bool)
    ensures hit <==> AnyKeywordIn(keywords, t)
  {
    var k := 0;
    while k < |keywords|
      invariant 0 <= k <= |keywords|
      invariant forall j :: 0 <= j < k ==> !WholeWordIn(t, keywords[j])
    {
      var found := SearchWholeWord(t, keywords[k]);
      if found {
        return true;
      }
      k := k + 1;
    }
    return false;
  }

  /** Extracts the topics of a review text, trying each table entry in order. */
  method ExtractTopics(text: string) returns (topics: seq<string>)
    ensures topics == Topics(text)
  {
    var lowered := Lower(text);
    var matched: seq<string> := [];
    var t := 0;
    while t < |TopicKeywords|
      invariant 0 <= t <= |TopicKeywords|
      invariant matched == MatchedTopics(TopicKeywords[..t], lowered)
    {
      var hit := SearchKeywords(TopicKeywords[t].1, lowered);
      assert TopicKeywords[..t + 1][..t] == TopicKeywords[..t];
      if hit {
        matched := matched + [TopicKeywords[t].0];
      }
      t := t + 1;
    }
    assert TopicKeywords[..|TopicKeywords|] == TopicKeywords;
    topics := if matched != [] then matched else [General];
  }

  /** The phrase "on time" anywhere between non-word characters puts "timeliness" among the topics. */
  lemma OnTimeGivesTimeliness(text: string, prefix: string, suffix: string)
    requires Lower(text) == prefix + "on time" + suffix
    requires prefix == [] || !IsWordChar(prefix[|prefix| - 1])
    requires suffix == [] || !IsWordChar(suffix[0])
    ensures "timeliness" in Topics(text)
  {
    DelimitedKeywordMatches(prefix, "on time", suffix);
    assert TopicKeywords[5].0 == "timeliness" && TopicKeywords[5].1[0] == "on time";
    assert AnyKeywordIn(TopicKeywords[5].1, Lower(text));
    TopicMembership(text, 5);
  }
}
