/** The crawler's filter engine and classifier: case-insensitive keyword
    inclusion and exclusion, whitespace word counting, and vocabulary-based
    categorisation (scripts/crawler/crawler.ts). */
module Filters {
  import opened Seqs
  import opened Text

  /** Whether some keyword, lower-cased, occurs in `lowerText`
      (`keywords.some(k => lowerText.includes(k.toLowerCase()))`). */
  function SomeKeywordIn(lowerText: string, keywords: seq<string>): (b: bool)
    ensures b <==> exists i :: 0 <= i < |keywords| && Occurs(Lower(keywords[i]), lowerText)
    decreases |keywords|
  {
    if |keywords| == 0 then false
    else if Includes(lowerText, Lower(keywords[0])) then true
    else
      var b := SomeKeywordIn(lowerText, keywords[1..]);
      assert b ==> exists i :: 0 <= i < |keywords| && Occurs(Lower(keywords[i]), lowerText) by {
        if b {
          var i :| 0 <= i < |keywords| - 1 && Occurs(Lower(keywords[1..][i]), lowerText);
          assert keywords[1..][i] == keywords[i + 1];
        }
      }
      b
  }

  /** `matchesKeywords`: some keyword, lower-cased, is a substring of the
      lower-cased text. */
  function MatchesKeywords(text: string, keywords: seq<string>): (b: bool)
    ensures b <==> exists i :: 0 <= i < |keywords| && Occurs(Lower(keywords[i]), Lower(text))
    ensures |keywords| == 0 ==> !b
    ensures "" in keywords ==> b
  {
    assert OccursAt("", Lower(text), 0);
    SomeKeywordIn(Lower(text), keywords)
  }

  /** `containsExcludeKeywords`: the same test as `matchesKeywords`, applied to
      the exclusion list. */
  function ContainsExcludeKeywords(text: string, excludeKeywords: seq<string>): (b: bool)
    ensures b <==> exists i :: 0 <= i < |excludeKeywords| && Occurs(Lower(excludeKeywords[i]), Lower(text))
  {
    SomeKeywordIn(Lower(text), excludeKeywords)
  }

  /** The vocabulary entries whose lower-cased form occurs in `lowerText`, in
      vocabulary order and with repetitions kept. */
  function CategoriesIn(lowerText: string, categories: seq<string>): (r: seq<string>)
    ensures IsSubseq(r, categories)
    ensures forall c :: c in r <==> c in categories && Occurs(Lower(c), lowerText)
    ensures forall c :: multiset(r)[c] == if Occurs(Lower(c), lowerText) then multiset(categories)[c] else 0
    decreases |categories|
  {
    if |categories| == 0 then []
    else
      var rest := CategoriesIn(lowerText, categories[1..]);
      assert categories == [categories[0]] + categories[1..];
      assert multiset(categories) == multiset{categories[0]} + multiset(categories[1..]);
      if Includes(lowerText, Lower(categories[0])) then
        assert ([categories[0]] + rest)[1..] == rest;
        [categories[0]] + rest
      else
        rest
  }

  /** `categorizeContent`: the vocabulary entries whose lower-cased form occurs
      in the lower-cased text, in vocabulary order and with repetitions kept. */
  function CategorizeContent(text: string, categories: seq<string>): (r: seq<string>)
    ensures IsSubseq(r, categories)
    ensures forall c :: c in r <==> c in categories && Occurs(Lower(c), Lower(text))
    ensures forall c :: multiset(r)[c] == if Occurs(Lower(c), Lower(text)) then multiset(categories)[c] else 0
  {
    CategoriesIn(Lower(text), categories)
  }

  /** Filtering keeps the relative order of first occurrences: of two
      matching entries, the one met first in the vocabulary is met first in
      the result. */
  lemma {:induction false} CategoriesInOrder(lowerText: string, categories: seq<string>, x: string, y: string)
    requires x in CategoriesIn(lowerText, categories) && y in CategoriesIn(lowerText, categories)
    ensures x in categories && y in categories
    ensures FirstIndex(CategoriesIn(lowerText, categories), x) < FirstIndex(CategoriesIn(lowerText, categories), y)
      <==> FirstIndex(categories, x) < FirstIndex(categories, y)
    decreases |categories|
  {
    var c := categories[0];
    var r := CategoriesIn(lowerText, categories);
    var rest := CategoriesIn(lowerText, categories[1..]);
    if Includes(lowerText, Lower(c)) {
      assert r == [c] + rest;
      if x != c && y != c {
        assert x in rest && y in rest;
        CategoriesInOrder(lowerText, categories[1..], x, y);
      }
    } else {
      assert r == rest;
      assert x != c && y != c;
      CategoriesInOrder(lowerText, categories[1..], x, y);
    }
  }

  /** `categorizeContent` keeps the vocabulary's order of first
      occurrences. */
  lemma CategorizeContentOrder(text: string, categories: seq<string>, x: string, y: string)
    requires x in CategorizeContent(text, categories) && y in CategorizeContent(text, categories)
    ensures x in categories && y in categories
    ensures FirstIndex(CategorizeContent(text, categories), x) < FirstIndex(CategorizeContent(text, categories), y)
      <==> FirstIndex(categories, x) < FirstIndex(categories, y)
  {
    CategoriesInOrder(Lower(text), categories, x, y);
  }

  /** The number of words of `s`: maximal runs of non-whitespace characters. */
  function WordCount(s: string): nat {
    Runs(s, false, false)
  }

  /** `countWords`: `text.trim().split(/\s+/).length`. It is the number of
      words, except that a text without any word counts as one. */
  function CountWords(text: string): (n: nat)
    ensures n >= 1
    ensures n == if WordCount(text) == 0 then 1 else WordCount(text)
  {
    var t := Trim(text);
    SplitWsRuns(t);
    TrimKeepsWords(text);
    if |t| > 0 then TrimmedWords(t); |SplitWs(t)|
    else |SplitWs(t)|
  }

  /** Whether the last character of `a` belongs to the counted class, or `f`
      when `a` is empty. */
  function LastIn(a: string, sp: bool, f: bool): bool {
    if |a| == 0 then f else IsSpace(a[|a| - 1]) == sp
  }

  lemma {:induction false} RunsAppend(a: string, b: string, sp: bool, f: bool)
    ensures Runs(a + b, sp, f) == Runs(a, sp, f) + Runs(b, sp, LastIn(a, sp, f))
    decreases |a|
  {
    if |a| > 0 {
      assert (a + b)[1..] == a[1..] + b;
      RunsAppend(a[1..], b, sp, IsSpace(a[0]) == sp);
    } else {
      assert a + b == b;
    }
  }

  /** A text with no character of the counted class has no run of it. */
  lemma {:induction false} RunsNone(a: string, sp: bool, f: bool)
    requires forall i :: 0 <= i < |a| ==> IsSpace(a[i]) != sp
    ensures Runs(a, sp, f) == 0
    decreases |a|
  {
    if |a| > 0 {
      RunsNone(a[1..], sp, false);
    }
  }

  /** A non-empty text made only of the counted class is a single run. */
  lemma {:induction false} RunsAll(a: string, sp: bool, f: bool)
    requires |a| > 0
    requires forall i :: 0 <= i < |a| ==> IsSpace(a[i]) == sp
    ensures Runs(a, sp, f) == if f then 0 else 1
    ensures LastIn(a, sp, f)
    decreases |a|
  {
    if |a| > 1 {
      RunsAll(a[1..], sp, true);
    }
  }

  /** Word runs and whitespace runs alternate, so their difference depends
      only on the class of the first and last characters. */
  lemma {:induction false} RunsDiff(s: string, p: bool)
    requires |s| > 0
    ensures Runs(s, false, !p) as int - Runs(s, true, p) as int
         == (if IsSpace(s[|s| - 1]) then 0 else 1) - (if p then 0 else 1)
    decreases |s|
  {
    if |s| > 1 {
      RunsDiff(s[1..], IsSpace(s[0]));
    }
  }

  /** A trimmed non-empty text has one more word than it has whitespace runs. */
  lemma TrimmedWords(t: string)
    requires |t| > 0 && !IsSpace(t[0]) && !IsSpace(t[|t| - 1])
    ensures Runs(t, false, false) == 1 + Runs(t, true, false)
  {
    if |t| > 1 {
      RunsDiff(t[1..], false);
    }
  }

  /** Leading and trailing whitespace holds no word. */
  lemma TrimKeepsWords(s: string)
    ensures WordCount(Trim(s)) == WordCount(s)
  {
    var k := TrimParts(s);
    var r := Trim(s);
    var e := k + |r|;
    var lead, trail := s[..k], s[e..];
    SliceThree(s, k, e);
    assert s == lead + (r + trail);
    forall i | 0 <= i < |lead| ensures IsSpace(lead[i]) {
      assert lead[i] == s[i];
    }
    forall i | 0 <= i < |trail| ensures IsSpace(trail[i]) {
      assert trail[i] == s[e + i];
    }
    PaddingKeepsWords(lead, r, trail);
  }

  /** Whitespace around a text adds no word. */
  lemma PaddingKeepsWords(lead: string, r: string, trail: string)
    requires forall i :: 0 <= i < |lead| ==> IsSpace(lead[i])
    requires forall i :: 0 <= i < |trail| ==> IsSpace(trail[i])
    ensures WordCount(lead + (r + trail)) == WordCount(r)
  {
    RunsAppend(lead, r + trail, false, false);
    RunsNone(lead, false, false);
    RunsAppend(r, trail, false, false);
    RunsNone(trail, false, LastIn(r, false, false));
  }

  /** Splitting on whitespace runs gives one piece more than there are runs. */
  lemma {:induction false} SplitWsRuns(s: string)
    ensures |SplitWs(s)| == 1 + Runs(s, true, false)
    decreases |s|
  {
    var k := FirstSpace(s);
    if k == |s| {
      RunsNone(s, true, false);
    } else {
      var head, tail := s[..k], s[k..];
      var rest := TrimStart(tail);
      var m := |tail| - |rest|;
      var gap := tail[..m];
      assert s == head + tail;
      assert tail == gap + rest;
      RunsAppend(head, tail, true, false);
      RunsNone(head, true, false);
      RunsAppend(gap, rest, true, false);
      RunsAll(gap, true, false);
      RunsFlagIrrelevant(rest);
      SplitWsRuns(rest);
    }
  }

  /** Before a text that does not start with whitespace, it does not matter
      whether a whitespace run was open. */
  lemma RunsFlagIrrelevant(s: string)
    requires |s| == 0 || !IsSpace(s[0])
    ensures Runs(s, true, true) == Runs(s, true, false)
  {
  }
}
