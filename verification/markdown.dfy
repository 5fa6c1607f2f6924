/** The Markdown side of the article processor (processor.ts): the regular
    expression pipeline of `extractExcerpt` and the fenced code-block rule
    registered with the HTML-to-Markdown converter. */
module Markdown {
  import opened Wrappers
  import opened Seqs
  import opened Text

  /** The eight global replacements of `extractExcerpt`, in the order the
      source applies them. */
  datatype Rule =
    | Heading     // /#+\s+/g      -> ''
    | Bold        // /\*\*/g       -> ''
    | Italic      // /\*/g         -> ''
    | Link        // /\[([^\]]+)\]\([^)]+\)/g  -> '$1'
    | Image       // /!\[([^\]]+)\]\([^)]+\)/g -> ''
    | Fence       // /```[\s\S]*?```/g         -> ''
    | InlineCode  // /`([^`]+)`/g  -> '$1'
    | Newlines    // /\n+/g        -> ' '

  /** The character every match of a rule starts with. */
  function KeyChar(rule: Rule): char {
    match rule
    case Heading => '#'
    case Bold => '*'
    case Italic => '*'
    case Link => '['
    case Image => '!'
    case Fence => '`'
    case InlineCode => '`'
    case Newlines => '\n'
  }

  /** A match at the start of the remaining text: how many characters it
      consumes and what replaces them. */
  datatype Hit = Hit(len: nat, repl: string)

  /** Length of the longest prefix of `t` made only of `c`. */
  function CountLeading(t: string, c: char): (n: nat)
    ensures n <= |t|
    ensures forall i :: 0 <= i < n ==> t[i] == c
    ensures n < |t| ==> t[n] != c
    decreases |t|
  {
    if |t| == 0 || t[0] != c then 0 else 1 + CountLeading(t[1..], c)
  }

  /** The first index `j >= i` at which `pat` occurs in `t`: the end of a
      lazy `[\s\S]*?` followed by `pat`. */
  function FindFrom(t: string, pat: string, i: nat): (j: Option<nat>)
    ensures j.Some? ==> i <= j.value && OccursAt(pat, t, j.value)
    ensures j.Some? ==> forall k :: i <= k < j.value ==> !OccursAt(pat, t, k)
    ensures j.None? ==> forall k :: i <= k ==> !OccursAt(pat, t, k)
    decreases |t| - i
  {
    if i + |pat| > |t| then None
    else if t[i..i + |pat|] == pat then Some(i)
    else FindFrom(t, pat, i + 1)
  }

  /** `\[([^\]]+)\]\([^)]+\)` at the start of `t`. Both classes are greedy
      and exclude the character that ends them, so the only candidate code
      is the longest run without `]`, and the only candidate target the
      longest run without `)`. The replacement is the code. */
  function LinkAt(t: string): (h: Option<Hit>)
    ensures h.Some? ==> 4 <= h.value.len <= |t| && t[0] == '['
    ensures h.Some? ==> 1 <= |h.value.repl| < |t| && h.value.repl == t[1..1 + |h.value.repl|]
    ensures h.Some? ==> ']' !in h.value.repl
    ensures h.Some? ==> forall c :: c in h.value.repl ==> c in t
    ensures h.Some? ==> var k := |h.value.repl|;
      && k + 5 <= h.value.len
      && t[k + 1] == ']' && t[k + 2] == '('
      && t[h.value.len - 1] == ')' && ')' !in t[k + 3..h.value.len - 1]
  {
    if |t| == 0 || t[0] != '[' then None
    else
      var n := IndexOf(t[1..], ']');
      if n == 0 || n + 3 >= |t| || t[n + 2] != '(' then None
      else
        var m := IndexOf(t[n + 3..], ')');
        if m == 0 || n + 3 + m >= |t| then None
        else
          var text := t[1..1 + n];
          assert forall i :: 0 <= i < n ==> text[i] == t[1..][i] && text[i] == t[1 + i];
          Some(Hit(n + m + 4, text))
  }

  /** The length of the whitespace run of `t` starting at `n`. */
  function LeadingSpaces(t: string, n: nat): (w: nat)
    requires n <= |t|
    ensures n + w <= |t|
    ensures forall i :: n <= i < n + w ==> IsSpace(t[i])
    ensures n + w < |t| ==> !IsSpace(t[n + w])
  {
    var rest := t[n..];
    var w := |rest| - |TrimStart(rest)|;
    assert forall i :: 0 <= i < w ==> IsSpace(rest[i]);
    assert forall i :: n <= i < n + w ==> t[i] == rest[i - n];
    w
  }

  /** `#+\s+` at the start of `t`: the whole run of `#` (a shorter one would
      be followed by `#`, not whitespace), then the whole whitespace run. */
  function HeadingAt(t: string): (h: Option<Hit>)
    ensures h.Some? ==> 2 <= h.value.len <= |t| && t[0] == '#' && h.value.repl == ""
    ensures h.Some? ==> forall i :: 0 <= i < h.value.len ==> t[i] == '#' || IsSpace(t[i])
    ensures h.Some? ==> IsSpace(t[h.value.len - 1])
    ensures h.Some? ==> h.value.len < |t| ==> !IsSpace(t[h.value.len])
    ensures h.Some? ==> forall i, j :: 0 <= i < j < h.value.len && IsSpace(t[i]) ==> IsSpace(t[j])
  {
    if |t| == 0 || t[0] != '#' then None
    else
      var n := CountLeading(t, '#');
      var w := LeadingSpaces(t, n);
      if w == 0 then None
      else Some(Hit(n + w, ""))
  }

  /** ``` ```[\s\S]*?``` ``` at the start of `t`: up to the first closing
      fence that does not overlap the opening one. */
  function FenceAt(t: string): (h: Option<Hit>)
    ensures h.Some? ==> 6 <= h.value.len <= |t| && StartsWith(t, "```") && h.value.repl == ""
    ensures h.Some? ==> EndsWith(t[..h.value.len], "```")
  {
    if !StartsWith(t, "```") then None
    else match FindFrom(t, "```", 3)
      case Some(j) =>
        assert t[..j + 3][j..] == t[j..j + 3];
        Some(Hit(j + 3, ""))
      case None => None
  }

  /** `` `([^`]+)` `` at the start of `t`; the replacement is the code. */
  function InlineCodeAt(t: string): (h: Option<Hit>)
    ensures h.Some? ==> 3 <= h.value.len <= |t| && t[0] == '`'
    ensures h.Some? ==> forall c :: c in h.value.repl ==> c in t && c != '`'
    ensures h.Some? ==> h.value.len == |h.value.repl| + 2 && h.value.repl == t[1..h.value.len - 1]
    ensures h.Some? ==> t[h.value.len - 1] == '`'
  {
    if |t| == 0 || t[0] != '`' then None
    else
      var n := IndexOf(t[1..], '`');
      if n == 0 || n + 1 >= |t| then None
      else
        var code := t[1..1 + n];
        assert forall c :: c in code ==> c in t && c != '`' by {
          forall c | c in code ensures c in t && c != '`' {
            var j :| 0 <= j < |code| && code[j] == c;
            assert t[1 + j] == c && t[1..][j] == c;
          }
        }
        Some(Hit(n + 2, code))
  }

  /** `!\[([^\]]+)\]\([^)]+\)` at the start of `t`: `!` and a link. */
  function ImageAt(t: string): (h: Option<Hit>)
    ensures h.Some? ==> 5 <= h.value.len <= |t| && t[0] == '!' && h.value.repl == ""
    ensures h.Some? <==> |t| > 0 && t[0] == '!' && LinkAt(t[1..]).Some?
  {
    if |t| == 0 || t[0] != '!' then None
    else match LinkAt(t[1..])
      case Some(h) => Some(Hit(h.len + 1, ""))
      case None => None
  }

  /** `\n+` at the start of `t`: the whole run of line feeds, replaced by
      one space. */
  function NewlinesAt(t: string): (h: Option<Hit>)
    ensures h.Some? <==> |t| > 0 && t[0] == '\n'
    ensures h.Some? ==> 1 <= h.value.len <= |t| && h.value.repl == " "
    ensures h.Some? ==> forall i :: 0 <= i < h.value.len ==> t[i] == '\n'
    ensures h.Some? ==> h.value.len < |t| ==> t[h.value.len] != '\n'
  {
    if |t| == 0 || t[0] != '\n' then None
    else Some(Hit(CountLeading(t, '\n'), " "))
  }

  /** The match of `rule` at the start of `t`, if any. */
  function MatchAt(rule: Rule, t: string): (h: Option<Hit>)
    ensures h.Some? ==> 1 <= h.value.len <= |t| && t[0] == KeyChar(rule)
    ensures h.Some? ==> forall c :: c in h.value.repl ==> c in t || (rule == Newlines && c == ' ')
    ensures (rule == Italic || rule == Newlines) && |t| > 0 && t[0] == KeyChar(rule) ==> h.Some?
  {
    match rule
    case Heading => HeadingAt(t)
    case Bold =>
      if |t| >= 2 && t[0] == '*' && t[1] == '*' then Some(Hit(2, "")) else None
    case Italic =>
      if |t| > 0 && t[0] == '*' then Some(Hit(1, "")) else None
    case Link => LinkAt(t)
    case Image => ImageAt(t)
    case Fence => FenceAt(t)
    case InlineCode => InlineCodeAt(t)
    case Newlines => NewlinesAt(t)
  }

  /** `s.replace(re, repl)` with a global `re`: scan left to right; at each
      position either a match is replaced and the scan resumes after it, or
      the character is kept and the scan moves one on. */
  function ReplaceAll(rule: Rule, s: string): (r: string)
    ensures forall c :: c in r ==> c in s || (rule == Newlines && c == ' ')
    ensures rule == Italic || rule == Newlines ==> KeyChar(rule) !in r
    ensures KeyChar(rule) !in s ==> r == s
    decreases |s|
  {
    if |s| == 0 then ""
    else match MatchAt(rule, s)
      case Some(h) =>
        var rest := ReplaceAll(rule, s[h.len..]);
        assert forall c :: c in s[h.len..] ==> c in s;
        h.repl + rest
      case None =>
        var rest := ReplaceAll(rule, s[1..]);
        assert s == [s[0]] + s[1..];
        [s[0]] + rest
  }

  /** The markup-stripping part of `extractExcerpt`: the eight replacements
      in source order, then `trim`. */
  function Clean(markdown: string): (r: string)
    ensures '*' !in r && '\n' !in r
    ensures forall c :: c in r ==> c in markdown || c == ' '
  {
    var s1 := ReplaceAll(Heading, markdown);
    var s2 := ReplaceAll(Bold, s1);
    var s3 := ReplaceAll(Italic, s2);
    var s4 := ReplaceAll(Link, s3);
    var s5 := ReplaceAll(Image, s4);
    var s6 := ReplaceAll(Fence, s5);
    var s7 := ReplaceAll(InlineCode, s6);
    var s8 := ReplaceAll(Newlines, s7);
    TrimMembers(s8);
    Trim(s8)
  }

  /** The truncation branch of `extractExcerpt`: the first `maxLength`
      characters, trimmed, and `...`. */
  function Ellipsize(text: string, maxLength: nat): (r: string)
    requires maxLength < |text|
    ensures |r| <= maxLength + 3
    ensures forall c :: c in r ==> c in text || c == '.'
    ensures EndsWith(r, "...") && r[..|r| - 3] == Trim(text[..maxLength])
  {
    var cut := Trim(text[..maxLength]);
    TrimMembers(text[..maxLength]);
    assert forall c :: c in text[..maxLength] ==> c in text;
    var r := cut + "...";
    assert r[..|r| - 3] == cut;
    r
  }

  /** `extractExcerpt(markdown, maxLength)`: the cleaned text when it fits,
      otherwise its first `maxLength` characters, trimmed, and `...`. */
  function ExtractExcerpt(markdown: string, maxLength: nat): (r: string)
    ensures |r| <= maxLength + 3
    ensures '*' !in r && '\n' !in r
    ensures |Clean(markdown)| <= maxLength ==> r == Clean(markdown)
    ensures |Clean(markdown)| > maxLength ==>
      && EndsWith(r, "...")
      && r[..|r| - 3] == Trim(Clean(markdown)[..maxLength])
  {
    var text := Clean(markdown);
    if |text| > maxLength then Ellipsize(text, maxLength) else text
  }

  /** A link `[text](target)` with a non-empty text free of `]` and a
      non-empty target free of `)` is matched whole and replaced by its text. */
  lemma LinkBecomesText(text: string, target: string, rest: string)
    requires |text| > 0 && ']' !in text
    requires |target| > 0 && ')' !in target
    ensures LinkAt(['['] + text + [']', '('] + target + [')'] + rest) == Some(Hit(|text| + |target| + 4, text))
  {
    var t := ['['] + text + [']', '('] + target + [')'] + rest;
    var n := |text|;
    LinkDelimiters(text, target, rest);
    LinkAtFound(t, n, |target|);
  }

  /** Where the delimiters of a well-formed link are. */
  lemma LinkDelimiters(text: string, target: string, rest: string)
    requires |text| > 0 && ']' !in text
    requires |target| > 0 && ')' !in target
    ensures var t := ['['] + text + [']', '('] + target + [')'] + rest; var n := |text|;
      && t[0] == '[' && n + 3 + |target| < |t| && t[n + 2] == '(' && t[1..1 + n] == text
      && IndexOf(t[1..], ']') == n && IndexOf(t[n + 3..], ')') == |target|
  {
    var tail := ['('] + target + [')'] + rest;
    var t := ['['] + text + [']'] + tail;
    var n := |text|;
    assert ['['] + text + [']', '('] + target + [')'] + rest == t;
    assert t[0] == '[' && n + 3 + |target| < |t| && t[n + 2] == '(' && t[1..1 + n] == text;
    assert IndexOf(t[1..], ']') == n by {
      assert t[1..] == text + [']'] + tail;
      IndexOfConcat(text, ']', tail);
    }
    assert IndexOf(t[n + 3..], ')') == |target| by {
      assert t[n + 3..] == target + [')'] + rest;
      IndexOfConcat(target, ')', rest);
    }
  }

  /** The match `LinkAt` reports once both delimiters are located. */
  lemma LinkAtFound(t: string, n: nat, m: nat)
    requires |t| > 0 && t[0] == '['
    requires 0 < n && n + 3 < |t| && IndexOf(t[1..], ']') == n && t[n + 2] == '('
    requires 0 < m && n + 3 + m < |t| && IndexOf(t[n + 3..], ')') == m
    ensures LinkAt(t) == Some(Hit(n + m + 4, t[1..1 + n]))
  {
  }

  /** A run of `#` followed by a whitespace run is matched whole: both
      quantifiers of `#+\s+` are greedy. */
  lemma HeadingFound(hashes: string, spaces: string, rest: string)
    requires |hashes| > 0 && forall i :: 0 <= i < |hashes| ==> hashes[i] == '#'
    requires |spaces| > 0 && forall i :: 0 <= i < |spaces| ==> IsSpace(spaces[i])
    requires |rest| == 0 || !IsSpace(rest[0])
    ensures HeadingAt(hashes + spaces + rest) == Some(Hit(|hashes| + |spaces|, ""))
  {
    var t := hashes + spaces + rest;
    var h := |hashes|;
    assert forall i :: 0 <= i < h ==> t[i] == hashes[i];
    assert forall i :: h <= i < h + |spaces| ==> t[i] == spaces[i - h];
    assert t[h] != '#';
    var n := CountLeading(t, '#');
    assert n == h;
    assert h + |spaces| < |t| ==> t[h + |spaces|] == rest[0];
    assert LeadingSpaces(t, n) == |spaces|;
  }

  /** A code block is matched up to its first closing fence: when the
      body, with the first two backticks of the closing fence, holds no
      fence, the match is the whole block. */
  lemma FenceFound(body: string, rest: string)
    requires !Occurs("```", body + "``")
    ensures FenceAt("```" + body + "```" + rest) == Some(Hit(|body| + 6, ""))
  {
    var t := "```" + body + "```" + rest;
    var e := 3 + |body|;
    assert t[..3] == "```";
    assert t[e..e + 3] == "```";
    assert OccursAt("```", t, e);
    assert t[3..e + 2] == body + "``";
    forall k | 3 <= k < e
      ensures !OccursAt("```", t, k)
    {
      if OccursAt("```", t, k) {
        assert t[k..k + 3] == t[3..e + 2][k - 3..k];
        assert OccursAt("```", body + "``", k - 3);
      }
    }
    assert FindFrom(t, "```", 3) == Some(e);
  }

  /** Inline code with a non-empty body free of backticks is matched whole
      and replaced by its body. */
  lemma InlineCodeFound(code: string, rest: string)
    requires |code| > 0 && '`' !in code
    ensures InlineCodeAt("`" + code + "`" + rest) == Some(Hit(|code| + 2, code))
  {
    var t := "`" + code + "`" + rest;
    assert t[1..] == code + ['`'] + rest;
    IndexOfConcat(code, '`', rest);
    assert t[1..1 + |code|] == code;
  }

  /** Because links are replaced before images, an image `![alt](src)` loses
      only its brackets and target: the link rule leaves `!alt`, which the
      image rule no longer recognises. */
  lemma ImageLeavesBang(alt: string, src: string)
    requires |alt| > 0 && ']' !in alt
    requires |src| > 0 && ')' !in src
    ensures ReplaceAll(Link, ['!', '['] + alt + [']', '('] + src + [')']) == ['!'] + alt
  {
    var link := ['['] + alt + [']', '('] + src + [')'];
    var s := ['!', '['] + alt + [']', '('] + src + [')'];
    assert s == ['!'] + link && s[1..] == link;
    assert MatchAt(Link, s) == None;
    ReplaceAllSkip(Link, s);
    assert ReplaceAll(Link, link) == alt by {
      LinkBecomesText(alt, src, []);
      assert link + [] == link;
      assert MatchAt(Link, link) == Some(Hit(|link|, alt));
      ReplaceAllReplace(Link, link);
      assert link[|link|..] == [];
      assert alt + ReplaceAll(Link, []) == alt;
    }
  }

  /** Where the rule does not match, the scan keeps the character. */
  lemma ReplaceAllSkip(rule: Rule, s: string)
    requires |s| > 0 && MatchAt(rule, s).None?
    ensures ReplaceAll(rule, s) == [s[0]] + ReplaceAll(rule, s[1..])
  {
  }

  /** Where the rule matches, the scan replaces the match. */
  lemma ReplaceAllReplace(rule: Rule, s: string)
    requires |s| > 0 && MatchAt(rule, s).Some?
    ensures MatchAt(rule, s).value.len <= |s|
    ensures ReplaceAll(rule, s) == MatchAt(rule, s).value.repl + ReplaceAll(rule, s[MatchAt(rule, s).value.len..])
  {
  }

  /** The image rule finds nothing to remove in `!alt` when `alt` holds no
      `[`. */
  lemma BangTextSurvivesImageRule(alt: string)
    requires '!' !in alt && '[' !in alt
    ensures ReplaceAll(Image, ['!'] + alt) == ['!'] + alt
  {
    var s := ['!'] + alt;
    assert s[1..] == alt;
    if |alt| > 0 {
      assert alt[0] != '[';
    }
    assert LinkAt(alt) == None;
    assert MatchAt(Image, s) == None;
  }

  /** A text without any of the characters the rules look for is left alone
      by all eight replacements. */
  lemma ReplacementsKeep(s: string)
    requires '#' !in s && '*' !in s && '[' !in s && '!' !in s && '`' !in s && '\n' !in s
    ensures ReplaceAll(Newlines, ReplaceAll(InlineCode, ReplaceAll(Fence, ReplaceAll(Image,
      ReplaceAll(Link, ReplaceAll(Italic, ReplaceAll(Bold, ReplaceAll(Heading, s)))))))) == s
  {
    assert KeyChar(Heading) == '#' && KeyChar(Bold) == '*' && KeyChar(Italic) == '*';
    assert KeyChar(Link) == '[' && KeyChar(Image) == '!' && KeyChar(Fence) == '`';
    assert KeyChar(InlineCode) == '`' && KeyChar(Newlines) == '\n';
  }

  /** A trimmed text that uses none of the characters the rules look for is
      its own excerpt when it fits. */
  lemma PlainTextIsItsOwnExcerpt(s: string, maxLength: nat)
    requires '#' !in s && '*' !in s && '[' !in s && '!' !in s && '`' !in s && '\n' !in s
    requires |s| == 0 || (!IsSpace(s[0]) && !IsSpace(s[|s| - 1]))
    requires |s| <= maxLength
    ensures ExtractExcerpt(s, maxLength) == s
  {
    ReplacementsKeep(s);
    TrimUnpadded(s);
  }

  /** The first five rules on an image: only `!` and the text survive. */
  lemma ImageFirstRules(alt: string, src: string)
    requires |alt| > 0 && '#' !in alt && '*' !in alt && '[' !in alt && ']' !in alt && '!' !in alt
    requires |src| > 0 && '#' !in src && '*' !in src && ')' !in src
    ensures ReplaceAll(Image, ReplaceAll(Link, ReplaceAll(Italic, ReplaceAll(Bold, ReplaceAll(Heading,
      ['!', '['] + alt + [']', '('] + src + [')']))))) == ['!'] + alt
  {
    var s := ['!', '['] + alt + [']', '('] + src + [')'];
    assert '#' !in s && '*' !in s;
    assert KeyChar(Heading) == '#' && KeyChar(Bold) == '*' && KeyChar(Italic) == '*';
    assert ReplaceAll(Italic, ReplaceAll(Bold, ReplaceAll(Heading, s))) == s;
    ImageLeavesBang(alt, src);
    BangTextSurvivesImageRule(alt);
  }

  /** The last three rules leave a text without backquote or line feed alone. */
  lemma LastRulesKeep(s: string)
    requires '`' !in s && '\n' !in s
    ensures ReplaceAll(Newlines, ReplaceAll(InlineCode, ReplaceAll(Fence, s))) == s
  {
    assert KeyChar(Fence) == '`' && KeyChar(InlineCode) == '`' && KeyChar(Newlines) == '\n';
  }

  /** The whole pipeline on an image with alternative text: the excerpt is
      `!` followed by the text, not empty. */
  lemma ImageExcerpt(alt: string, src: string, maxLength: nat)
    requires |alt| > 0 && !IsSpace(alt[|alt| - 1]) && |alt| < maxLength
    requires '#' !in alt && '*' !in alt && '[' !in alt && ']' !in alt && '!' !in alt && '`' !in alt && '\n' !in alt
    requires |src| > 0 && '#' !in src && '*' !in src && ')' !in src
    ensures ExtractExcerpt(['!', '['] + alt + [']', '('] + src + [')'], maxLength) == ['!'] + alt
  {
    var s := ['!', '['] + alt + [']', '('] + src + [')'];
    var s5 := ['!'] + alt;
    assert Clean(s) == s5 by {
      ImageFirstRules(alt, src);
      LastRulesKeep(s5);
      TrimUnpadded(s5);
    }
    assert |Clean(s)| <= maxLength;
  }

  /** Length of the longest prefix of `t` made of word characters. */
  function WordRun(t: string): (n: nat)
    ensures n <= |t|
    ensures forall i :: 0 <= i < n ==> IsWordChar(t[i])
    ensures n < |t| ==> !IsWordChar(t[n])
    decreases |t|
  {
    if |t| == 0 || !IsWordChar(t[0]) then 0 else 1 + WordRun(t[1..])
  }

  /** `language-` followed by a word character starts at index `i`. */
  predicate LanguageAt(cls: string, i: int) {
    0 <= i && i + 10 <= |cls| && cls[i..i + 9] == "language-" && IsWordChar(cls[i + 9])
  }

  /** `lang` is the whole word run after a `language-` that starts at `i`. */
  predicate LanguageMatch(cls: string, i: int, lang: string) {
    && LanguageAt(cls, i)
    && OccursAt(lang, cls, i + 9)
    && (i + 9 + |lang| == |cls| || !IsWordChar(cls[i + 9 + |lang|]))
  }

  /** `cls.match(/language-(\w+)/)`, first group, or `""` without a match:
      the word run after the leftmost `language-` that is followed by a word
      character. */
  function CodeLanguage(cls: string): (lang: string)
    ensures forall c :: c in lang ==> IsWordChar(c)
    decreases |cls|
  {
    if |cls| < 10 then ""
    else if cls[..9] == "language-" && IsWordChar(cls[9]) then
      var n := WordRun(cls[9..]);
      assert forall j :: 0 <= j < n ==> cls[9..9 + n][j] == cls[9..][j];
      cls[9..9 + n]
    else CodeLanguage(cls[1..])
  }

  /** The language is empty exactly when nothing matches, and otherwise is
      the whole word run of the leftmost match. */
  lemma {:induction false} CodeLanguageMatches(cls: string)
    ensures CodeLanguage(cls) == "" <==> forall i :: !LanguageAt(cls, i)
    ensures CodeLanguage(cls) != "" ==> exists i ::
      && LanguageMatch(cls, i, CodeLanguage(cls))
      && forall j :: j < i ==> !LanguageAt(cls, j)
    decreases |cls|
  {
    var lang := CodeLanguage(cls);
    if |cls| < 10 {
    } else if cls[..9] == "language-" && IsWordChar(cls[9]) {
      var n := WordRun(cls[9..]);
      assert cls[0..9] == "language-";
      assert LanguageAt(cls, 0);
      assert lang[0] == cls[9];
      assert cls[9..9 + |lang|] == lang;
      assert 9 + n < |cls| ==> cls[9 + n] == cls[9..][n];
      assert LanguageMatch(cls, 0, lang);
    } else {
      var tail := cls[1..];
      CodeLanguageMatches(tail);
      assert !LanguageAt(cls, 0) by {
        assert cls[0..9] == cls[..9];
      }
      LanguageAtShift(cls);
      if lang != "" {
        var i :| LanguageMatch(tail, i, lang) && forall j :: j < i ==> !LanguageAt(tail, j);
        LanguageMatchShift(cls, i, lang);
      }
    }
  }

  /** Matches of the text after its first character are the matches of the
      text, one position further. */
  lemma LanguageAtShift(cls: string)
    requires |cls| > 0
    ensures forall i :: LanguageAt(cls[1..], i) ==> LanguageAt(cls, i + 1)
    ensures forall i :: LanguageAt(cls, i) && i > 0 ==> LanguageAt(cls[1..], i - 1)
  {
    var tail := cls[1..];
    forall i | LanguageAt(tail, i) ensures LanguageAt(cls, i + 1) {
      assert cls[i + 1..i + 10] == tail[i..i + 9];
    }
    forall i | LanguageAt(cls, i) && i > 0 ensures LanguageAt(tail, i - 1) {
      assert cls[i..i + 9] == tail[i - 1..i + 8];
    }
  }

  lemma LanguageMatchShift(cls: string, i: int, lang: string)
    requires |cls| > 0 && LanguageMatch(cls[1..], i, lang)
    ensures LanguageMatch(cls, i + 1, lang)
  {
    var tail := cls[1..];
    assert cls[i + 1..i + 10] == tail[i..i + 9];
    assert cls[i + 10..i + 10 + |lang|] == tail[i + 9..i + 9 + |lang|];
    assert i + 10 + |lang| < |cls| ==> cls[i + 10 + |lang|] == tail[i + 9 + |lang|];
  }

  /** The `codeBlocks` rule: the block's content fenced, the language from
      the element's `class` attribute (`""` when it has none) on the opening
      fence. */
  function CodeBlock(cls: string, content: string): (b: string)
    ensures |b| == |CodeLanguage(cls)| + |content| + 10
  {
    "\n```" + CodeLanguage(cls) + "\n" + content + "\n```\n"
  }

  /** Reads a fenced block back: the info string up to the first line break
      after the opening fence, and the text before the closing fence. */
  function ParseCodeBlock(b: string): (r: Option<(string, string)>)
    ensures r.Some? ==> '\n' !in r.value.0
  {
    if |b| < 10 || b[..4] != "\n```" || !EndsWith(b, "\n```\n") then None
    else
      var k := IndexOf(b[4..], '\n');
      if 4 + k + 1 > |b| - 5 then None
      else
        assert forall j :: 0 <= j < k ==> b[4..4 + k][j] == b[4..][j];
        Some((b[4..4 + k], b[4 + k + 1..|b| - 5]))
  }

  /** The fenced block gives back its language and its content unchanged:
      a language is made of word characters, so it cannot hide a line break. */
  lemma CodeBlockRoundTrip(cls: string, content: string)
    ensures ParseCodeBlock(CodeBlock(cls, content)) == Some((CodeLanguage(cls), content))
  {
    var lang := CodeLanguage(cls);
    var b := CodeBlock(cls, content);
    assert b[..4] == "\n```";
    assert b[4..] == lang + "\n" + content + "\n```\n";
    assert '\n' !in lang by {
      assert !IsWordChar('\n');
    }
    IndexOfAt(b[4..], '\n', |lang|);
    assert b[4..4 + |lang|] == lang;
    assert b[4 + |lang| + 1..|b| - 5] == content;
    assert b[|b| - 5..] == "\n```\n";
  }
}
