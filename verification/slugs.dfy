/** Slug derivation, shared by the article processor (processor.ts), the
    file name built in main.ts and the index entries of main.ts: lower-case,
    drop every character that is neither a word character nor whitespace,
    turn each whitespace run into one `-`; article slugs are then cut to 50
    characters, index slugs are not. */
module Slugs {
  import opened Seqs
  import opened Text

  /** The characters a slug can hold: `[a-z0-9_-]`. */
  predicate IsSlugChar(c: char) {
    ('a' <= c <= 'z') || ('0' <= c <= '9') || c == '_' || c == '-'
  }

  /** No two adjacent hyphens. */
  predicate NoDoubleHyphen(s: string) {
    forall i :: 0 <= i < |s| - 1 ==> !(s[i] == '-' && s[i + 1] == '-')
  }

  /** `.replace(/[^\w\s]/g, '')`: drop every character that is neither a
      word character nor whitespace, keeping the order of the rest. */
  function KeepWordOrSpace(s: string): (r: string)
    ensures IsSubseq(r, s)
    ensures forall c :: c in r <==> c in s && (IsWordChar(c) || IsSpace(c))
    decreases |s|
  {
    if |s| == 0 then ""
    else
      var rest := KeepWordOrSpace(s[1..]);
      assert s == [s[0]] + s[1..];
      if IsWordChar(s[0]) || IsSpace(s[0]) then
        assert ([s[0]] + rest)[1..] == rest;
        [s[0]] + rest
      else
        rest
  }

  /** `.replace(/\s+/g, '-')`: each maximal whitespace run becomes one `-`,
      scanning left to right. */
  function HyphenateSpaces(s: string): (r: string)
    ensures forall c :: c in r ==> c == '-' || (c in s && !IsSpace(c))
    ensures |s| == 0 ==> r == ""
    ensures |s| > 0 && !IsSpace(s[0]) ==> |r| > 0 && r[0] == s[0]
    decreases |s|
  {
    var k := FirstSpace(s);
    if k == |s| then s
    else
      var t := TrimStart(s[k..]);
      var rest := HyphenateSpaces(t);
      TrimStartMembers(s, k);
      s[..k] + "-" + rest
  }

  /** Hyphenating is splitting on whitespace runs and joining with `-`:
      JavaScript's `.replace(/\s+/g, '-')` equals `.split(/\s+/).join('-')`. */
  lemma {:induction false} HyphenateIsJoin(s: string)
    ensures HyphenateSpaces(s) == Join(SplitWs(s), "-")
    decreases |s|
  {
    var k := FirstSpace(s);
    if k < |s| {
      var t := TrimStart(s[k..]);
      HyphenateIsJoin(t);
      var rest := SplitWs(t);
      assert SplitWs(s) == [s[..k]] + rest;
      assert ([s[..k]] + rest)[1..] == rest;
    }
  }

  /** Hyphenating a text without hyphens never puts two hyphens side by
      side: after each hyphen comes a non-whitespace character of the text,
      or nothing. */
  lemma {:induction false} HyphenateNoDouble(s: string)
    requires '-' !in s
    ensures NoDoubleHyphen(HyphenateSpaces(s))
    decreases |s|
  {
    var k := FirstSpace(s);
    if k < |s| {
      var t := TrimStart(s[k..]);
      TrimStartMembers(s, k);
      HyphenateNoDouble(t);
      var rest := HyphenateSpaces(t);
      var r := s[..k] + "-" + rest;
      assert |rest| > 0 ==> rest[0] != '-';
      forall i | 0 <= i < |r| - 1
        ensures !(r[i] == '-' && r[i + 1] == '-')
      {
        if i < k {
          assert r[i] == s[i];
        } else if i > k {
          assert r[i] == rest[i - k - 1] && r[i + 1] == rest[i - k];
        }
      }
    }
  }

  /** The index slug of a name (main.ts): lower-case, keep word characters
      and whitespace, hyphenate whitespace runs; no length limit. */
  function NameSlug(name: string): (r: string)
    ensures forall i :: 0 <= i < |r| ==> IsSlugChar(r[i])
  {
    var kept := KeepWordOrSpace(Lower(name));
    assert forall c :: c in kept ==> !IsUpper(c) && (IsWordChar(c) || IsSpace(c));
    var r := HyphenateSpaces(kept);
    assert forall i :: 0 <= i < |r| ==> r[i] in r;
    r
  }

  /** The article slug of a title (processor.ts and the file name of
      main.ts): the name slug cut to its first 50 characters. */
  function Slug(title: string): (r: string)
    ensures |r| <= 50
    ensures r <= NameSlug(title)
    ensures |NameSlug(title)| <= 50 ==> r == NameSlug(title)
    ensures |NameSlug(title)| > 50 ==> |r| == 50
    ensures forall i :: 0 <= i < |r| ==> IsSlugChar(r[i])
  {
    var n := NameSlug(title);
    var r := Take(n, 50);
    assert forall i :: 0 <= i < |r| ==> r[i] == n[i];
    r
  }

  /** A slug never holds two adjacent hyphens, since a hyphen can only come
      from a whitespace run. */
  lemma SlugNoDoubleHyphen(title: string)
    ensures NoDoubleHyphen(NameSlug(title))
    ensures NoDoubleHyphen(Slug(title))
  {
    var kept := KeepWordOrSpace(Lower(title));
    HyphenateNoDouble(kept);
    var n := NameSlug(title);
    var r := Slug(title);
    assert forall i :: 0 <= i < |r| ==> r[i] == n[i];
  }

  /** Splitting a name slug at its hyphens gives back the words of the
      filtered, lower-cased name: the slug loses no word and merges none. */
  lemma NameSlugWords(name: string)
    ensures SplitOn(NameSlug(name), '-') == SplitWs(KeepWordOrSpace(Lower(name)))
  {
    var kept := KeepWordOrSpace(Lower(name));
    HyphenateIsJoin(kept);
    var parts := SplitWs(kept);
    forall i | 0 <= i < |parts|
      ensures '-' !in parts[i]
    {
      SplitWsChars(kept, i);
    }
    SplitOnJoin(parts, '-');
  }

  /** What `TrimStart` keeps of the text after index `k` comes from the text. */
  lemma TrimStartMembers(s: string, k: nat)
    requires k <= |s|
    ensures forall c :: c in TrimStart(s[k..]) ==> c in s
  {
    var t := TrimStart(s[k..]);
    forall c | c in t ensures c in s {
      var j :| 0 <= j < |t| && t[j] == c;
      assert t[j] == s[k..][|s[k..]| - |t| + j];
    }
  }

  /** Every piece of a whitespace split is made of characters of the text. */
  lemma {:induction false} SplitWsChars(s: string, i: nat)
    requires i < |SplitWs(s)|
    ensures forall c :: c in SplitWs(s)[i] ==> c in s
    decreases |s|
  {
    var k := FirstSpace(s);
    if k < |s| && i > 0 {
      var t := TrimStart(s[k..]);
      assert SplitWs(s)[i] == SplitWs(t)[i - 1];
      SplitWsChars(t, i - 1);
      TrimStartMembers(s, k);
    }
  }

  /** A title with no ASCII letter, digit, underscore or whitespace (one
      written entirely in CJK characters and punctuation, say) has an empty
      slug, with case mapped as in ASCII. */
  lemma NoWordCharsEmptySlug(title: string)
    requires forall i :: 0 <= i < |title| ==> !IsWordChar(title[i]) && !IsSpace(title[i])
    ensures NameSlug(title) == ""
    ensures Slug(title) == ""
  {
  }
}
