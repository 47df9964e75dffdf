/**
 * The PHP and WordPress string built-ins that the styles manager relies on,
 * written out over `string` (a sequence of characters standing for PHP's bytes).
 */
module PhpString {

  import opened Wrappers

  // ---------------------------------------------------------------------------
  // substr_count with a one-character needle
  // ---------------------------------------------------------------------------

  /** The number of occurrences of `c` in `s`. */
  function Count(s: string, c: char): (n: nat)
    ensures n <= |s|
    ensures n == 0 <==> c !in s
  {
    if s == [] then 0 else (if s[0] == c then 1 else 0) + Count(s[1..], c)
  }

  lemma {:induction false} CountConcat(a: string, b: string, c: char)
    ensures Count(a + b, c) == Count(a, c) + Count(b, c)
  {
    if a == [] {
      assert a + b == b;
    } else {
      assert (a + b)[0] == a[0];
      assert (a + b)[1..] == a[1..] + b;
      CountConcat(a[1..], b, c);
    }
  }

  // ---------------------------------------------------------------------------
  // ASCII case folding (PCRE's /i outside UTF mode)
  // ---------------------------------------------------------------------------

  function Lower(c: char): char
  {
    if 'A' <= c <= 'Z' then (c as int + 32) as char else c
  }

  // ---------------------------------------------------------------------------
  // PHP's empty() on a string, and absint()
  // ---------------------------------------------------------------------------

  /** `empty($s)` for a string: true for "" and also for "0". */
  predicate PhpEmpty(s: string)
  {
    s == "" || s == "0"
  }

  /** `absint($i)`: the absolute value of the integer. */
  function AbsInt(i: int): nat
  {
    if i < 0 then -i else i
  }

  // ---------------------------------------------------------------------------
  // strpos($haystack, $needle) !== false
  // ---------------------------------------------------------------------------

  predicate StartsWith(s: string, prefix: string)
  {
    |prefix| <= |s| && s[..|prefix|] == prefix
  }

  /**
   * `strpos($hay, $needle) !== false`: `needle` occurs somewhere in `hay`.
   * An empty needle is found at offset 0, as in PHP 8.
   */
  predicate Contains(hay: string, needle: string)
    decreases |hay|
  {
    StartsWith(hay, needle) || (hay != [] && Contains(hay[1..], needle))
  }

  /** `needle` occurs in `hay` at offset `i`. */
  predicate OccursAt(hay: string, needle: string, i: int)
  {
    0 <= i && i + |needle| <= |hay| && hay[i..i + |needle|] == needle
  }

  /** The search agrees with "some window of `hay` equals `needle`", both ways. */
  lemma {:induction false} ContainsIff(hay: string, needle: string)
    ensures Contains(hay, needle) <==> exists i :: OccursAt(hay, needle, i)
  {
    if StartsWith(hay, needle) {
      assert OccursAt(hay, needle, 0);
    } else if hay != [] {
      ContainsIff(hay[1..], needle);
      if Contains(hay[1..], needle) {
        var i :| OccursAt(hay[1..], needle, i);
        assert hay[i + 1..i + 1 + |needle|] == hay[1..][i..i + |needle|];
        assert OccursAt(hay, needle, i + 1);
      }
      if exists i :: OccursAt(hay, needle, i) {
        var i :| OccursAt(hay, needle, i);
        if i != 0 {
          assert hay[1..][i - 1..i - 1 + |needle|] == hay[i..i + |needle|];
          assert OccursAt(hay[1..], needle, i - 1);
        }
      }
    }
  }

  lemma StartsWithConcat(a: string, b: string)
    ensures StartsWith(a + b, a) && (a + b)[|a|..] == b
  {
    assert (a + b)[..|a|] == a;
  }

  // ---------------------------------------------------------------------------
  // trim() with PHP's default character list " \t\n\r\0\x0B"
  // ---------------------------------------------------------------------------

  predicate IsTrimSpace(c: char)
  {
    c == ' ' || c == '\t' || c == '\n' || c == '\r' || c == '\0' || c == '\U{0B}'
  }

  /** `ltrim($s)`: the longest suffix of `s` that does not start with a trim character. */
  function TrimLeft(s: string): (r: string)
    ensures |r| <= |s|
    ensures r != [] ==> !IsTrimSpace(r[0])
    ensures forall i :: 0 <= i < |s| - |r| ==> IsTrimSpace(s[i])
  {
    if s != [] && IsTrimSpace(s[0]) then TrimLeft(s[1..]) else s
  }

  /** What `ltrim` keeps is a suffix of its input. */
  lemma {:induction false} TrimLeftIsSuffix(s: string)
    ensures TrimLeft(s) == s[|s| - |TrimLeft(s)|..]
  {
    if s != [] && IsTrimSpace(s[0]) {
      TrimLeftIsSuffix(s[1..]);
    }
  }

  /** `rtrim($s)`: the longest prefix of `s` that does not end with a trim character. */
  function TrimRight(s: string): (r: string)
    ensures |r| <= |s|
    ensures r != [] ==> !IsTrimSpace(r[|r| - 1])
    ensures forall i :: |r| <= i < |s| ==> IsTrimSpace(s[i])
  {
    if s != [] && IsTrimSpace(s[|s| - 1]) then TrimRight(s[..|s| - 1]) else s
  }

  /** What `rtrim` keeps is a prefix of its input. */
  lemma {:induction false} TrimRightIsPrefix(s: string)
    ensures TrimRight(s) == s[..|TrimRight(s)|]
  {
    if s != [] && IsTrimSpace(s[|s| - 1]) {
      TrimRightIsPrefix(s[..|s| - 1]);
    }
  }

  predicate NoOuterSpace(s: string)
  {
    s != [] ==> !IsTrimSpace(s[0]) && !IsTrimSpace(s[|s| - 1])
  }

  /** `trim($s)`: neither end of the result is a trim character. */
  function Trim(s: string): (r: string)
    ensures NoOuterSpace(r)
  {
    var l := TrimLeft(s);
    var r := TrimRight(l);
    TrimRightIsPrefix(l);
    assert r != [] ==> r[0] == l[0];
    r
  }

  lemma {:induction false} TrimLeftKeepsCount(s: string, c: char)
    requires !IsTrimSpace(c)
    ensures Count(TrimLeft(s), c) == Count(s, c)
  {
    if s != [] && IsTrimSpace(s[0]) {
      TrimLeftKeepsCount(s[1..], c);
    }
  }

  lemma {:induction false} TrimRightKeepsCount(s: string, c: char)
    requires !IsTrimSpace(c)
    ensures Count(TrimRight(s), c) == Count(s, c)
  {
    if s != [] && IsTrimSpace(s[|s| - 1]) {
      var init := s[..|s| - 1];
      assert s == init + [s[|s| - 1]];
      CountConcat(init, [s[|s| - 1]], c);
      TrimRightKeepsCount(init, c);
    }
  }

  /** Trimming never changes how often a non-space character occurs. */
  lemma TrimKeepsCount(s: string, c: char)
    requires !IsTrimSpace(c)
    ensures Count(Trim(s), c) == Count(s, c)
  {
    TrimLeftKeepsCount(s, c);
    TrimRightKeepsCount(TrimLeft(s), c);
  }

  // ---------------------------------------------------------------------------
  // Decimal formatting of integers (string concatenation and sprintf's %d)
  // ---------------------------------------------------------------------------

  predicate IsDigit(c: char)
  {
    '0' <= c <= '9'
  }

  predicate AllDigits(s: string)
  {
    forall i :: 0 <= i < |s| ==> IsDigit(s[i])
  }

  function DigitChar(d: nat): (c: char)
    requires d < 10
    ensures IsDigit(c)
  {
    ('0' as int + d) as char
  }

  function DigitValue(c: char): (d: nat)
    requires IsDigit(c)
    ensures d < 10
  {
    c as int - '0' as int
  }

  /** The decimal spelling of `n`, without sign or leading zeros. */
  function NatToString(n: nat): (s: string)
    ensures s != [] && AllDigits(s)
  {
    if n < 10 then [DigitChar(n)] else NatToString(n / 10) + [DigitChar(n % 10)]
  }

  /** Reads a run of decimal digits back as a number. */
  function ParseNat(s: string): nat
    requires AllDigits(s)
  {
    if s == [] then 0 else ParseNat(s[..|s| - 1]) * 10 + DigitValue(s[|s| - 1])
  }

  lemma {:induction false} ParseNatToString(n: nat)
    ensures ParseNat(NatToString(n)) == n
  {
    var s := NatToString(n);
    if n >= 10 {
      ParseNatToString(n / 10);
      assert s[..|s| - 1] == NatToString(n / 10);
    }
  }

  lemma NatToStringInjective(a: nat, b: nat)
    requires NatToString(a) == NatToString(b)
    ensures a == b
  {
    ParseNatToString(a);
    ParseNatToString(b);
  }

  /** `%d` and string conversion of a PHP integer. */
  function IntToString(i: int): (s: string)
    ensures s != []
  {
    if i < 0 then "-" + NatToString(-i) else NatToString(i)
  }

  // ---------------------------------------------------------------------------
  // trailingslashit / untrailingslashit
  // ---------------------------------------------------------------------------

  predicate IsSlash(c: char)
  {
    c == '/' || c == '\\'
  }

  /** `untrailingslashit($s)`: `rtrim($s, '/\\')`. */
  function UntrailingSlashIt(s: string): (r: string)
    ensures |r| <= |s| && r == s[..|r|]
    ensures r != [] ==> !IsSlash(r[|r| - 1])
    ensures forall i :: |r| <= i < |s| ==> IsSlash(s[i])
  {
    if s != [] && IsSlash(s[|s| - 1]) then UntrailingSlashIt(s[..|s| - 1]) else s
  }

  /** `trailingslashit($s)`: drop every trailing slash or backslash, then add one '/'. */
  function TrailingSlashIt(s: string): (r: string)
  {
    UntrailingSlashIt(s) + "/"
  }

  /** A path that does not end in a separator just gets a '/' appended. */
  lemma TrailingSlashItAppends(s: string)
    requires s != [] && !IsSlash(s[|s| - 1])
    ensures TrailingSlashIt(s) == s + "/"
  {
  }

  // ---------------------------------------------------------------------------
  // dirname / basename on paths that do not end in '/'
  // ---------------------------------------------------------------------------

  /** The index of the last '/' in `p`, or -1. */
  function LastSlash(p: string): (k: int)
    ensures -1 <= k < |p|
    ensures k >= 0 ==> p[k] == '/'
    ensures forall j :: k < j < |p| ==> p[j] != '/'
  {
    if p == [] then -1 else if p[|p| - 1] == '/' then |p| - 1 else LastSlash(p[..|p| - 1])
  }

  function Dirname(p: string): string
  {
    var k := LastSlash(p);
    if k < 0 then "." else if k == 0 then "/" else p[..k]
  }

  function Basename(p: string): string
  {
    p[LastSlash(p) + 1..]
  }

  /**
   * Splitting `dir + "/" + name` gives back `dir` and `name`, for a
   * directory without a trailing slash and a non-empty name without one:
   * the paths on which PHP's `dirname` and `basename`, which also strip
   * trailing and repeated separators, agree with this model.
   */
  lemma DirnameBasenameOfJoin(dir: string, name: string)
    requires dir != [] && !IsSlash(dir[|dir| - 1])
    requires name != [] && '/' !in name
    ensures Dirname(dir + "/" + name) == dir
    ensures Basename(dir + "/" + name) == name
  {
    var p := dir + "/" + name;
    assert p[|dir|] == '/';
    forall j | |dir| < j < |p| ensures p[j] != '/' {
      assert p[j] == name[j - |dir| - 1];
    }
    assert LastSlash(p) == |dir|;
    assert p[..|dir|] == dir;
    assert p[|dir| + 1..] == name;
  }

  // ---------------------------------------------------------------------------
  // Reading one line
  // ---------------------------------------------------------------------------

  /** The text before the first '\n' and the text after it; None without a '\n'. */
  function SplitLine(s: string): (r: Option<(string, string)>)
    ensures r.Some? ==> '\n' !in r.value.0 && s == r.value.0 + "\n" + r.value.1
  {
    if s == [] then None
    else if s[0] == '\n' then Some(([], s[1..]))
    else match SplitLine(s[1..])
      case None => None
      case Some((line, rest)) => Some(([s[0]] + line, rest))
  }

  lemma {:induction false} SplitLineOfJoin(line: string, rest: string)
    requires '\n' !in line
    ensures SplitLine(line + "\n" + rest) == Some((line, rest))
  {
    var s := line + "\n" + rest;
    if line == [] {
      assert s[1..] == rest;
    } else {
      assert s[1..] == line[1..] + "\n" + rest;
      SplitLineOfJoin(line[1..], rest);
      assert [s[0]] + line[1..] == line;
    }
  }
}
