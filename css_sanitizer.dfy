/**
 * `sanitize_css` (custom-page-styles.php:514-546): strip markup, refuse text
 * whose '{' and '}' counts differ, delete five case-insensitive deny-list
 * patterns one `preg_replace` pass each, in order, and trim.
 */
module CssSanitizer {

  import opened Wrappers
  import opened PhpString

  // ---------------------------------------------------------------------------
  // The deny-list patterns
  // ---------------------------------------------------------------------------

  /**
   * A deny-list regular expression: `word` matched case-insensitively,
   * followed, when `close` is present, by `\s*` and that character.
   */
  datatype Pattern = Pattern(word: string, close: Option<char>)

  /** `/@import/i`, `/javascript:/i`, `/expression\s*\(/i`, `/behavior\s*:/i`, `/-moz-binding/i`. */
  const DangerousPatterns: seq<Pattern> := [
    Pattern("@import", None),
    Pattern("javascript:", None),
    Pattern("expression", Some('(')),
    Pattern("behavior", Some(':')),
    Pattern("-moz-binding", None)
  ]

  /** Every pattern matches at least one character, so each pass makes progress. */
  predicate WellFormed(ps: seq<Pattern>)
  {
    forall p :: p in ps ==> p.word != []
  }

  /** PCRE's `\s`: space, tab, line feed, vertical tab, form feed, carriage return. */
  predicate IsRegexSpace(c: char)
  {
    c == ' ' || c == '\t' || c == '\n' || c == '\U{0B}' || c == '\U{0C}' || c == '\r'
  }

  /** The length of the run of `\s` characters at the start of `s` (greedy `\s*`). */
  function SpaceRun(s: string): (n: nat)
    ensures n <= |s|
    ensures forall i :: 0 <= i < n ==> IsRegexSpace(s[i])
    ensures n < |s| ==> !IsRegexSpace(s[n])
  {
    if s != [] && IsRegexSpace(s[0]) then 1 + SpaceRun(s[1..]) else 0
  }

  /** `s` starts with `word` up to ASCII case (the words are written in lower case). */
  predicate StartsWithFold(s: string, word: string)
  {
    word == [] || (s != [] && Lower(s[0]) == word[0] && StartsWithFold(s[1..], word[1..]))
  }

  lemma {:induction false} StartsWithFoldAt(s: string, word: string, k: nat)
    requires StartsWithFold(s, word) && k < |word|
    ensures k < |s| && Lower(s[k]) == word[k]
  {
    if k > 0 {
      StartsWithFoldAt(s[1..], word[1..], k - 1);
    }
  }

  lemma {:induction false} StartsWithFoldLength(s: string, word: string)
    requires StartsWithFold(s, word)
    ensures |word| <= |s|
  {
    if word != [] {
      StartsWithFoldLength(s[1..], word[1..]);
    }
  }

  /**
   * The length of the match of `p` anchored at the start of `s`, if any. The
   * closing character is never a `\s` character, so the greedy `\s*` gives
   * the only possible match.
   */
  function MatchLength(p: Pattern, s: string): (r: Option<nat>)
    ensures r.Some? ==> |p.word| <= r.value <= |s|
  {
    if !StartsWithFold(s, p.word) then None
    else
      StartsWithFoldLength(s, p.word);
      match p.close
      case None => Some(|p.word|)
      case Some(c) =>
        var k := |p.word| + SpaceRun(s[|p.word|..]);
        if k < |s| && s[k] == c then Some(k + 1) else None
  }

  /**
   * `preg_replace($pattern, '', $s)`: scan left to right, delete each match,
   * and resume after it; text produced by a deletion is not scanned again.
   */
  function RemoveAll(p: Pattern, s: string): (r: string)
    requires p.word != []
    ensures |r| <= |s|
    decreases |s|
  {
    if s == [] then []
    else match MatchLength(p, s)
      case Some(n) => RemoveAll(p, s[n..])
      case None => [s[0]] + RemoveAll(p, s[1..])
  }

  /** The `foreach` over the patterns: one `preg_replace` per pattern, in order. */
  function RemovePatterns(ps: seq<Pattern>, s: string): (r: string)
    requires WellFormed(ps)
    ensures |r| <= |s|
  {
    if ps == [] then s else RemovePatterns(ps[1..], RemoveAll(ps[0], s))
  }

  // ---------------------------------------------------------------------------
  // What a pass can delete
  // ---------------------------------------------------------------------------

  /** A character that some match of `p` could contain. */
  predicate Removable(p: Pattern, c: char)
  {
    Lower(c) in p.word || (p.close.Some? && (IsRegexSpace(c) || c == p.close.value))
  }

  lemma MatchAvoids(p: Pattern, s: string, c: char)
    requires !Removable(p, c)
    requires MatchLength(p, s).Some?
    ensures c !in s[..MatchLength(p, s).value]
  {
    var n := MatchLength(p, s).value;
    forall i | 0 <= i < n ensures s[i] != c {
      if i < |p.word| {
        StartsWithFoldAt(s, p.word, i);
      } else {
        assert p.close.Some?;
        var run := SpaceRun(s[|p.word|..]);
        if i < |p.word| + run {
          assert s[|p.word|..][i - |p.word|] == s[i];
        }
      }
    }
  }

  /** A pass never changes how often a character that no match contains occurs. */
  lemma {:induction false} RemoveAllKeepsCount(p: Pattern, s: string, c: char)
    requires p.word != [] && !Removable(p, c)
    ensures Count(RemoveAll(p, s), c) == Count(s, c)
    decreases |s|
  {
    if s != [] {
      match MatchLength(p, s)
      case Some(n) =>
        MatchAvoids(p, s, c);
        assert s == s[..n] + s[n..];
        CountConcat(s[..n], s[n..], c);
        RemoveAllKeepsCount(p, s[n..], c);
      case None =>
        CountConcat([s[0]], RemoveAll(p, s[1..]), c);
        RemoveAllKeepsCount(p, s[1..], c);
    }
  }

  lemma {:induction false} RemovePatternsKeepsCount(ps: seq<Pattern>, s: string, c: char)
    requires WellFormed(ps)
    requires forall p :: p in ps ==> !Removable(p, c)
    ensures Count(RemovePatterns(ps, s), c) == Count(s, c)
  {
    if ps != [] {
      RemoveAllKeepsCount(ps[0], s, c);
      RemovePatternsKeepsCount(ps[1..], RemoveAll(ps[0], s), c);
    }
  }

  /** Where `p` matches nowhere, a pass leaves the text as it was. */
  lemma {:induction false} RemoveAllWithoutMatch(p: Pattern, s: string)
    requires p.word != []
    requires forall i :: 0 <= i < |s| ==> MatchLength(p, s[i..]).None?
    ensures RemoveAll(p, s) == s
    decreases |s|
  {
    if s != [] {
      assert MatchLength(p, s[0..]).None?;
      assert s[0..] == s;
      forall i | 0 <= i < |s[1..]| ensures MatchLength(p, s[1..][i..]).None? {
        assert s[1..][i..] == s[i + 1..];
      }
      RemoveAllWithoutMatch(p, s[1..]);
    }
  }

  /** A pass only ever deletes: wherever it changes the text, the text gets shorter. */
  lemma {:induction false} RemoveAllShortensOnMatch(p: Pattern, s: string, i: nat)
    requires p.word != [] && i < |s|
    requires MatchLength(p, s[i..]).Some?
    ensures |RemoveAll(p, s)| < |s|
    decreases |s|
  {
    match MatchLength(p, s)
    case Some(n) =>
    case None =>
      if i != 0 {
        assert s[1..][i - 1..] == s[i..];
        RemoveAllShortensOnMatch(p, s[1..], i - 1);
      }
  }

  // ---------------------------------------------------------------------------
  // sanitize_css
  // ---------------------------------------------------------------------------

  /** The brace check of `sanitize_css`: the numbers of '{' and '}' differ. */
  predicate Unbalanced(s: string)
  {
    Count(s, '{') != Count(s, '}')
  }

  /** What `sanitize_css` returns for text whose tags are already stripped. */
  function SanitizedText(stripped: string): string
  {
    if Unbalanced(stripped) then "" else Trim(RemovePatterns(DangerousPatterns, stripped))
  }

  lemma BracesNotRemovable()
    ensures forall p :: p in DangerousPatterns ==> !Removable(p, '{') && !Removable(p, '}')
  {
    forall i | 0 <= i < |DangerousPatterns|
      ensures !Removable(DangerousPatterns[i], '{') && !Removable(DangerousPatterns[i], '}')
    {
      var w := DangerousPatterns[i].word;
      forall k | 0 <= k < |w| ensures w[k] != '{' && w[k] != '}' {
      }
    }
  }

  /**
   * Unbalanced text is refused as a whole; otherwise neither the pattern
   * passes nor the trim delete a brace, so both brace counts survive and the
   * result is balanced in every case.
   */
  lemma SanitizedBraces(stripped: string)
    ensures Unbalanced(stripped) ==> SanitizedText(stripped) == ""
    ensures !Unbalanced(stripped) ==>
              Count(SanitizedText(stripped), '{') == Count(stripped, '{') &&
              Count(SanitizedText(stripped), '}') == Count(stripped, '}')
    ensures !Unbalanced(SanitizedText(stripped))
  {
    if !Unbalanced(stripped) {
      var removed := RemovePatterns(DangerousPatterns, stripped);
      BracesNotRemovable();
      RemovePatternsKeepsCount(DangerousPatterns, stripped, '{');
      RemovePatternsKeepsCount(DangerousPatterns, stripped, '}');
      TrimKeepsCount(removed, '{');
      TrimKeepsCount(removed, '}');
    }
  }

  /** The result never starts or ends with a trim character, and is never longer than the input. */
  lemma SanitizedShape(stripped: string)
    ensures NoOuterSpace(SanitizedText(stripped))
    ensures |SanitizedText(stripped)| <= |stripped|
  {
  }

  /**
   * `sanitize_css($css)`. `stripTags` stands for `wp_strip_all_tags`;
   * `unbalanced` reports the validation notice the source queues before
   * returning "".
   */
  method SanitizeCss(stripTags: string -> string, raw: string) returns (css: string, unbalanced: bool)
    ensures unbalanced <==> Unbalanced(stripTags(raw))
    ensures css == SanitizedText(stripTags(raw))
    ensures unbalanced ==> css == ""
  {
    css := stripTags(raw);
    ghost var stripped := css;
    var openBraces := Count(css, '{');
    var closeBraces := Count(css, '}');
    if openBraces != closeBraces {
      css, unbalanced := "", true;
      return;
    }
    unbalanced := false;
    var i := 0;
    while i < |DangerousPatterns|
      invariant 0 <= i <= |DangerousPatterns|
      invariant RemovePatterns(DangerousPatterns[i..], css) == RemovePatterns(DangerousPatterns, stripped)
    {
      assert DangerousPatterns[i..][1..] == DangerousPatterns[i + 1..];
      css := RemoveAll(DangerousPatterns[i], css);
      i := i + 1;
    }
    css := Trim(css);
  }

  // ---------------------------------------------------------------------------
  // Single pass: the output is not free of the patterns
  // ---------------------------------------------------------------------------

  /** A pass copies a prefix none of whose characters can begin a match. */
  lemma {:induction false} RemoveAllCopiesPrefix(p: Pattern, prefix: string, rest: string)
    requires p.word != []
    requires forall i :: 0 <= i < |prefix| ==> Lower(prefix[i]) != p.word[0]
    ensures RemoveAll(p, prefix + rest) == prefix + RemoveAll(p, rest)
  {
    if prefix == [] {
      assert prefix + rest == rest;
    } else {
      var s := prefix + rest;
      assert s[0] == prefix[0];
      assert s[1..] == prefix[1..] + rest;
      RemoveAllCopiesPrefix(p, prefix[1..], rest);
    }
  }

  /** One position that differs up to case rules out a match. */
  lemma {:induction false} FoldMismatchAt(s: string, word: string, k: nat)
    requires k < |word| && k < |s| && Lower(s[k]) != word[k]
    ensures !StartsWithFold(s, word)
  {
    if k > 0 && Lower(s[0]) == word[0] {
      FoldMismatchAt(s[1..], word[1..], k - 1);
    }
  }

  /** A word written in lower case matches at the start of any text it begins. */
  lemma {:induction false} FoldMatchesItself(word: string, rest: string)
    requires forall i :: 0 <= i < |word| ==> Lower(word[i]) == word[i]
    ensures StartsWithFold(word + rest, word)
  {
    if word != [] {
      assert (word + rest)[1..] == word[1..] + rest;
      FoldMatchesItself(word[1..], rest);
    }
  }

  // The pass of `/@import/i` over "@imp" + "@import" + "ort", one piece at
  // a time.

  lemma ImportPassInner()
    ensures RemoveAll(Pattern("@import", None), "@import" + "ort") == "ort"
  {
    var p := Pattern("@import", None);
    FoldMatchesItself("@import", "ort");
    assert ("@import" + "ort")[7..] == "ort";
    RemoveAllCopiesPrefix(p, "ort", []);
    assert "ort" + [] == "ort";
  }

  lemma ImportPassImp()
    ensures RemoveAll(Pattern("@import", None), "imp" + ("@import" + "ort")) == "imp" + "ort"
  {
    ImportPassInner();
    RemoveAllCopiesPrefix(Pattern("@import", None), "imp", "@import" + "ort");
  }

  lemma ImportPassWhole()
    ensures RemoveAll(Pattern("@import", None), "@" + ("imp" + ("@import" + "ort"))) == "@" + ("imp" + "ort")
  {
    var p := Pattern("@import", None);
    var s := "@" + ("imp" + ("@import" + "ort"));
    assert s[4] == '@';
    FoldMismatchAt(s, p.word, 4);
    assert s[1..] == "imp" + ("@import" + "ort");
    ImportPassImp();
  }

  /**
   * Deleting the inner "@import" of "@imp@importort" joins its two halves
   * into a fresh "@import", which the single pass does not revisit: the
   * output of a pass can still match the pattern it was made by.
   */
  lemma SinglePassRebuildsImport()
    ensures RemoveAll(DangerousPatterns[0], "@imp@importort") == "@import"
    ensures MatchLength(DangerousPatterns[0], "@import") == Some(7)
  {
    assert DangerousPatterns[0] == Pattern("@import", None);
    assert "@imp@importort" == "@" + ("imp" + ("@import" + "ort"));
    assert "@import" == "@" + ("imp" + "ort");
    ImportPassWhole();
    FoldMatchesItself("@import", []);
    assert "@import" + [] == "@import";
  }
}
