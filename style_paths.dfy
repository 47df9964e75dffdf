/**
 * Names, locations and contents of the generated stylesheets
 * (custom-page-styles.php:62, 125-148, 581-616, 646-647, 681-682, 709-728).
 */
module StylePaths {

  import opened Wrappers
  import opened PhpString

  /** `CSS_DIR_NAME`. */
  const CssDirName := "custom-page-styles"

  /** The handle prefixes of the item's own and of the borrowed stylesheet. */
  const OwnHandlePrefix := "custom-page-styles-"
  const SelectedHandlePrefix := "custom-page-styles-selected-"

  /** The two protective files written when the directory is first created. */
  const IndexFileName := "index.php"
  const IndexFileContent := "<?php // Silence is golden"
  const HtaccessFileName := ".htaccess"
  const HtaccessFileContent :=
    "# Prevent PHP execution in uploads directory\n<Files *.php>\ndeny from all\n</Files>\n"

  // ---------------------------------------------------------------------------
  // Paths and URLs
  // ---------------------------------------------------------------------------

  /** `trailingslashit($upload_dir['basedir']) . CSS_DIR_NAME`. */
  function CssDir(basedir: string): (d: string)
    ensures d != [] && !IsSlash(d[|d| - 1])
  {
    TrailingSlashIt(basedir) + CssDirName
  }

  /** `trailingslashit($upload_dir['baseurl']) . CSS_DIR_NAME`. */
  function CssUrl(baseurl: string): string
  {
    TrailingSlashIt(baseurl) + CssDirName
  }

  /** `'post-styles-' . $post_id . '.css'`. */
  function FileName(id: nat): string
  {
    "post-styles-" + NatToString(id) + ".css"
  }

  /** The id a stylesheet file name was made from, if it is one. */
  function FileNameId(name: string): Option<nat>
  {
    if |name| < 17 || name[..12] != "post-styles-" || name[|name| - 4..] != ".css" then None
    else
      var digits := name[12..|name| - 4];
      if digits != [] && AllDigits(digits) then Some(ParseNat(digits)) else None
  }

  /** A file name gives back the id it was built from; in particular it names no directory. */
  lemma FileNameRoundTrip(id: nat)
    ensures FileNameId(FileName(id)) == Some(id)
    ensures '/' !in FileName(id)
  {
    var name := FileName(id);
    var digits := NatToString(id);
    assert name[..12] == "post-styles-";
    assert name[|name| - 4..] == ".css";
    assert name[12..|name| - 4] == digits;
    ParseNatToString(id);
    forall i | 0 <= i < |name| ensures name[i] != '/' {
      if 12 <= i < |name| - 4 {
        assert name[i] == digits[i - 12];
      }
    }
  }

  /** Two different ids never share a stylesheet file name. */
  lemma FileNameInjective(a: nat, b: nat)
    requires FileName(a) == FileName(b)
    ensures a == b
  {
    FileNameRoundTrip(a);
    FileNameRoundTrip(b);
  }

  /** `trailingslashit($css_dir) . $filename`. */
  function CssFilePath(cssDir: string, id: nat): string
  {
    TrailingSlashIt(cssDir) + FileName(id)
  }

  /**
   * The stylesheet of `id` lies directly inside the directory: its dirname
   * is the directory and its basename is the file name.
   */
  lemma CssFilePathSplits(basedir: string, id: nat)
    ensures CssFilePath(CssDir(basedir), id) == CssDir(basedir) + "/" + FileName(id)
    ensures Dirname(CssFilePath(CssDir(basedir), id)) == CssDir(basedir)
    ensures Basename(CssFilePath(CssDir(basedir), id)) == FileName(id)
  {
    FileNameRoundTrip(id);
    DirnameBasenameOfJoin(CssDir(basedir), FileName(id));
  }

  /** Different ids have different stylesheet paths in the same directory. */
  lemma CssFilePathInjective(cssDir: string, a: nat, b: nat)
    requires CssFilePath(cssDir, a) == CssFilePath(cssDir, b)
    ensures a == b
  {
    var t := TrailingSlashIt(cssDir);
    assert FileName(a) == CssFilePath(cssDir, a)[|t|..];
    assert FileName(b) == CssFilePath(cssDir, b)[|t|..];
    FileNameInjective(a, b);
  }

  function IndexFilePath(cssDir: string): string
  {
    TrailingSlashIt(cssDir) + IndexFileName
  }

  function HtaccessFilePath(cssDir: string): string
  {
    TrailingSlashIt(cssDir) + HtaccessFileName
  }

  /** The stylesheet paths never coincide with the directory or its two protective files. */
  lemma CssFilePathDistinct(basedir: string, id: nat)
    ensures CssFilePath(CssDir(basedir), id) != CssDir(basedir)
    ensures CssFilePath(CssDir(basedir), id) != IndexFilePath(CssDir(basedir))
    ensures CssFilePath(CssDir(basedir), id) != HtaccessFilePath(CssDir(basedir))
  {
    var d := CssDir(basedir);
    var t := TrailingSlashIt(d);
    var f := CssFilePath(d, id);
    assert |f| > |d|;
    assert f[|t|] == 'p';
    assert IndexFilePath(d)[|t|] == 'i';
    assert HtaccessFilePath(d)[|t|] == '.';
  }

  // ---------------------------------------------------------------------------
  // The generated file
  // ---------------------------------------------------------------------------

  /** What a generated stylesheet says: the item id, the generation time and the CSS. */
  datatype GeneratedSheet = GeneratedSheet(postId: nat, generated: string, css: string)

  const HeaderStart := "/**\n * Custom Page Styles for Post ID: "
  const GeneratedLabel := " * Generated: "
  const HeaderEnd := " */\n\n"

  /**
   * The `sprintf` of the file content: a comment block with the id and the
   * `current_time('mysql')` text, a blank line, then the CSS verbatim.
   */
  function FormatSheet(sheet: GeneratedSheet): string
  {
    HeaderStart + NatToString(sheet.postId) + "\n" + GeneratedLabel + sheet.generated + "\n" + HeaderEnd + sheet.css
  }

  /** Reads a generated file back: header fields and the CSS that follows the blank line. */
  function ParseSheet(content: string): Option<GeneratedSheet>
  {
    if !StartsWith(content, HeaderStart) then None
    else match SplitLine(content[|HeaderStart|..])
      case None => None
      case Some((idText, afterId)) =>
        if idText == [] || !AllDigits(idText) || !StartsWith(afterId, GeneratedLabel) then None
        else match SplitLine(afterId[|GeneratedLabel|..])
          case None => None
          case Some((generated, afterTime)) =>
            if !StartsWith(afterTime, HeaderEnd) then None
            else Some(GeneratedSheet(ParseNat(idText), generated, afterTime[|HeaderEnd|..]))
  }

  /**
   * Reading a generated file back gives its id, its timestamp and exactly
   * the CSS that was written, whenever the timestamp is a single line.
   */
  lemma {:induction false} SheetRoundTrip(sheet: GeneratedSheet)
    requires '\n' !in sheet.generated
    ensures ParseSheet(FormatSheet(sheet)) == Some(sheet)
  {
    var digits := NatToString(sheet.postId);
    var rest3 := HeaderEnd + sheet.css;
    var rest2 := GeneratedLabel + (sheet.generated + "\n" + rest3);
    var rest1 := digits + "\n" + rest2;
    var content := FormatSheet(sheet);
    assert content == HeaderStart + rest1;
    StartsWithConcat(HeaderStart, rest1);
    assert '\n' !in digits by {
      forall i | 0 <= i < |digits| ensures digits[i] != '\n' {
        assert IsDigit(digits[i]);
      }
    }
    SplitLineOfJoin(digits, rest2);
    StartsWithConcat(GeneratedLabel, sheet.generated + "\n" + rest3);
    SplitLineOfJoin(sheet.generated, rest3);
    StartsWithConcat(HeaderEnd, sheet.css);
    ParseNatToString(sheet.postId);
  }
}
