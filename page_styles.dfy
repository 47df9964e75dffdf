/**
 * `Custom_Page_Styles_Manager` (custom-page-styles.php:27-733) as an object
 * over the state it changes: the per-post metadata (the CSS text and the
 * borrowed post id), the filesystem, the stylesheet registrations of the
 * page being rendered, and the queued admin notices.
 */
module PageStyles {

  import opened Wrappers
  import opened PhpString
  import opened StylePaths
  import opened CssSanitizer
  import opened Publisher

  /** What a `save_post` request carries besides the post id. */
  datatype SaveRequest = SaveRequest(
    nonceValid: bool,                        // the nonce field is set and wp_verify_nonce accepts it
    doingAutosave: bool,                     // DOING_AUTOSAVE
    canEditPost: bool,                       // current_user_can('edit_post', $post_id)
    postType: string,                        // $post->post_type
    enabledTypesOption: Option<seq<string>>, // the stored option, None when unset
    cssField: Option<string>,                // $_POST['custom_page_styles_css'], unslashed
    selectedField: Option<int>)              // $_POST['custom_page_styles_selected'], as an integer

  /** `get_option(OPTION_ENABLED_POST_TYPES, array('post', 'page'))`. */
  function EnabledTypes(option: Option<seq<string>>): seq<string>
  {
    GetOr(option, ["post", "page"])
  }

  /** The four early returns of `save_meta_box` all pass. */
  predicate GuardsPass(req: SaveRequest)
  {
    req.nonceValid && !req.doingAutosave && req.canEditPost && req.postType in EnabledTypes(req.enabledTypesOption)
  }

  /** `get_post_meta($id, META_KEY_CSS, true)`: the stored text, or "" when there is none. */
  function MetaCss(cssMeta: map<int, string>, id: int): string
  {
    if id in cssMeta then cssMeta[id] else ""
  }

  class StylesManager {

    const env: Env

    /** META_KEY_CSS per post id. */
    var cssMeta: map<int, string>
    /** META_KEY_SELECTED per post id: the borrowed post's id. */
    var selectedMeta: map<int, int>
    var disk: Disk
    /** The `wp_enqueue_style` calls made so far, in order. */
    var enqueued: seq<Registration>
    /** The `add_settings_error` notices queued so far, in order. */
    var notices: seq<Notice>

    constructor (env: Env, cssMeta: map<int, string>, selectedMeta: map<int, int>, disk: Disk)
      ensures this.env == env && this.cssMeta == cssMeta && this.selectedMeta == selectedMeta && this.disk == disk
      ensures enqueued == [] && notices == []
    {
      this.env := env;
      this.cssMeta := cssMeta;
      this.selectedMeta := selectedMeta;
      this.disk := disk;
      enqueued := [];
      notices := [];
    }

    /** `create_css_directory`. */
    method CreateCssDirectory(now: Timestamp) returns (ok: bool)
      modifies this`disk
      ensures DiskStep(disk, ok, None) == CreateDirectory(env, old(disk), now)
    {
      var dir := CssDir(env.basedir);
      if dir in disk {
        return true;
      }
      if !env.mkdirSucceeds {
        return false;
      }
      disk := disk[dir := Directory(now.unix)];
      if env.filesystemAvailable {
        if env.writesSucceed {
          disk := disk[IndexFilePath(dir) := File(IndexFileContent, now.unix)];
          disk := disk[HtaccessFilePath(dir) := File(HtaccessFileContent, now.unix)];
        }
      }
      return true;
    }

    /** `generate_css_file($post_id, $css)`. */
    method GenerateCssFile(postId: int, css: string, now: Timestamp) returns (ok: bool)
      modifies this`disk, this`notices
      ensures var step := Generate(env, old(disk), postId, css, now);
              disk == step.disk && ok == step.ok && notices == old(notices) + NoticeSeq(step.notice)
    {
      if PhpEmpty(css) {
        return false;
      }
      var id := AbsInt(postId);
      if id <= 0 {
        return false;
      }
      var dirOk := CreateCssDirectory(now);
      if !dirOk {
        notices := notices + [DirectoryError];
        return false;
      }
      ok := WriteCssFile(id, css, now);
    }

    /** The steps of `generate_css_file` once the directory exists. */
    method WriteCssFile(id: nat, css: string, now: Timestamp) returns (ok: bool)
      modifies this`disk, this`notices
      ensures var step := WriteSheet(env, old(disk), id, css, now);
              disk == step.disk && ok == step.ok && notices == old(notices) + NoticeSeq(step.notice)
    {
      var dir := CssDir(env.basedir);
      var file := CssFilePath(dir, id);
      var realDir := RealPath(env, dir);
      var realFile := ResolvedWritePath(env, file);
      if realDir.None? || !Contains(realFile, realDir.value) {
        notices := notices + [InvalidPath];
        return false;
      }
      if !env.filesystemAvailable {
        notices := notices + [FilesystemError];
        return false;
      }
      var content := FormatSheet(GeneratedSheet(id, now.mysql, css));
      if !env.writesSucceed {
        notices := notices + [WriteError];
        return false;
      }
      disk := disk[file := File(content, now.unix)];
      return true;
    }

    /** `delete_css_file($post_id)`. */
    method DeleteCssFile(postId: int) returns (ok: bool)
      modifies this`disk
      ensures DiskStep(disk, ok, None) == Delete(env, old(disk), postId)
      ensures ok ==> SheetPath(env, AbsInt(postId)) !in disk
    {
      var id := AbsInt(postId);
      if id <= 0 {
        return false;
      }
      var dir := CssDir(env.basedir);
      var file := CssFilePath(dir, id);
      if file in disk {
        var realDir := RealPath(env, dir);
        var realFile := RealPath(env, file);
        if realDir.None? || realFile.None? || !Contains(realFile.value, realDir.value) {
          return false;
        }
        if env.filesystemAvailable {
          if env.writesSucceed {
            disk := disk - {file};
            return true;
          }
          return false;
        }
      }
      return false;
    }

    /** Store non-empty sanitised CSS and publish it to its file. */
    method StoreCss(postId: int, css: string, now: Timestamp)
      modifies this`cssMeta, this`disk, this`notices
      ensures var step := Generate(env, old(disk), postId, css, now);
              cssMeta == old(cssMeta)[postId := css] &&
              disk == step.disk && notices == old(notices) + NoticeSeq(step.notice)
    {
      cssMeta := cssMeta[postId := css];
      var _ := GenerateCssFile(postId, css, now);
    }

    /** Drop the CSS meta and the file of a post whose sanitised CSS is empty. */
    method ClearCss(postId: int)
      modifies this`cssMeta, this`disk
      ensures cssMeta == old(cssMeta) - {postId} && disk == Delete(env, old(disk), postId).disk
    {
      cssMeta := cssMeta - {postId};
      var _ := DeleteCssFile(postId);
    }

    /**
     * The CSS half of `save_meta_box`, given what `sanitize_css` returned and
     * whether it queued the unbalanced-braces notice: store and publish
     * non-empty CSS, otherwise delete the meta and the file.
     */
    method ApplyCss(postId: int, css: string, unbalanced: bool, now: Timestamp)
      modifies this`cssMeta, this`disk, this`notices
      ensures var queued := if unbalanced then [UnbalancedBraces] else [];
              var step := Generate(env, old(disk), postId, css, now);
              if !PhpEmpty(css) then
                cssMeta == old(cssMeta)[postId := css] &&
                disk == step.disk && notices == old(notices) + queued + NoticeSeq(step.notice)
              else
                cssMeta == old(cssMeta) - {postId} &&
                disk == Delete(env, old(disk), postId).disk && notices == old(notices) + queued
    {
      if unbalanced {
        notices := notices + [UnbalancedBraces];
      }
      if !PhpEmpty(css) {
        StoreCss(postId, css, now);
      } else {
        ClearCss(postId);
      }
    }

    /**
     * The borrowed-id half of `save_meta_box`: keep the id only when it is
     * positive and that post's CSS meta is not empty; the id may be this
     * post's own.
     */
    method SaveSelectedField(postId: int, value: int)
      modifies this`selectedMeta
      ensures var selected := AbsInt(value);
              if selected > 0 && !PhpEmpty(MetaCss(cssMeta, selected))
              then selectedMeta == old(selectedMeta)[postId := selected]
              else selectedMeta == old(selectedMeta) - {postId}
    {
      var selected := AbsInt(value);
      if selected > 0 {
        var selectedCss := MetaCss(cssMeta, selected);
        if !PhpEmpty(selectedCss) {
          selectedMeta := selectedMeta[postId := selected];
        } else {
          selectedMeta := selectedMeta - {postId};
        }
      } else {
        selectedMeta := selectedMeta - {postId};
      }
    }

    /**
     * `save_meta_box($post_id, $post)`. `stripTags` stands for
     * `wp_strip_all_tags`.
     */
    method SaveMetaBox(postId: int, req: SaveRequest, stripTags: string -> string, now: Timestamp)
      modifies this`cssMeta, this`selectedMeta, this`disk, this`notices
      // A failed guard changes nothing.
      ensures !GuardsPass(req) ==>
                cssMeta == old(cssMeta) && selectedMeta == old(selectedMeta) &&
                disk == old(disk) && notices == old(notices)
      // Without a CSS field the CSS meta and the files stay as they were.
      ensures GuardsPass(req) && req.cssField.None? ==>
                cssMeta == old(cssMeta) && disk == old(disk) && notices == old(notices)
      // Non-empty sanitised CSS is stored and written out.
      ensures GuardsPass(req) && req.cssField.Some? ==>
                var css := SanitizedText(stripTags(req.cssField.value));
                var step := Generate(env, old(disk), postId, css, now);
                !PhpEmpty(css) ==>
                  cssMeta == old(cssMeta)[postId := css] &&
                  disk == step.disk && notices == old(notices) + NoticeSeq(step.notice)
      // Empty sanitised CSS, unbalanced braces included, deletes the meta and the file.
      ensures GuardsPass(req) && req.cssField.Some? && PhpEmpty(SanitizedText(stripTags(req.cssField.value))) ==>
                cssMeta == old(cssMeta) - {postId} &&
                disk == Delete(env, old(disk), postId).disk &&
                notices == old(notices) + (if Unbalanced(stripTags(req.cssField.value)) then [UnbalancedBraces] else [])
      // The borrowed id is checked against the CSS meta as this save left it.
      ensures GuardsPass(req) && req.selectedField.Some? ==>
                var selected := AbsInt(req.selectedField.value);
                if selected > 0 && !PhpEmpty(MetaCss(cssMeta, selected))
                then selectedMeta == old(selectedMeta)[postId := selected]
                else selectedMeta == old(selectedMeta) - {postId}
      ensures req.selectedField.None? ==> selectedMeta == old(selectedMeta)
    {
      if !req.nonceValid || req.doingAutosave || !req.canEditPost {
        return;
      }
      var enabled := EnabledTypes(req.enabledTypesOption);
      if req.postType !in enabled {
        return;
      }
      if req.cssField.Some? {
        var css, unbalanced := SanitizeCss(stripTags, req.cssField.value);
        ApplyCss(postId, css, unbalanced, now);
      }
      if req.selectedField.Some? {
        SaveSelectedField(postId, req.selectedField.value);
      }
    }

    /** `enqueue_post_style($post_id, $css_dir, $css_url, $handle_prefix)`. */
    method EnqueuePostStyle(postId: int, cssDir: string, cssUrl: string, prefix: string)
      modifies this`enqueued
      ensures enqueued == old(enqueued) + OptionSeq(Serve(env, disk, postId, cssDir, cssUrl, prefix))
    {
      var id := AbsInt(postId);
      if id <= 0 {
        return;
      }
      var filename := FileName(id);
      var file := TrailingSlashIt(cssDir) + filename;
      if file !in disk {
        return;
      }
      var realDir := RealPath(env, cssDir);
      var realFile := RealPath(env, file);
      if realDir.None? || realFile.None? || !Contains(realFile.value, realDir.value) {
        return;
      }
      enqueued := enqueued + [Registration(prefix + NatToString(id), TrailingSlashIt(cssUrl) + filename, [], disk[file].mtime)];
    }

    /**
     * `enqueue_custom_styles`. `singular` is `is_singular()` and `postId` is
     * `get_the_ID()`, 0 when there is no current post.
     */
    method EnqueueCustomStyles(singular: bool, postId: int)
      modifies this`enqueued
      ensures enqueued == old(enqueued) + PageStyles(env, disk, selectedMeta, singular, postId)
    {
      if !singular {
        return;
      }
      if postId == 0 {
        return;
      }
      var dir := CssDir(env.basedir);
      var url := CssUrl(env.baseurl);
      ghost var before := enqueued;
      EnqueuePostStyle(postId, dir, url, OwnHandlePrefix);
      ghost var own := OptionSeq(Serve(env, disk, postId, dir, url, OwnHandlePrefix));
      var selected := AbsInt(if postId in selectedMeta then selectedMeta[postId] else 0);
      if selected > 0 {
        EnqueuePostStyle(selected, dir, url, SelectedHandlePrefix);
        ghost var borrowed := OptionSeq(Serve(env, disk, selected, dir, url, SelectedHandlePrefix));
        assert enqueued == before + (own + borrowed);
      } else {
        assert enqueued == before + (own + []);
      }
    }
  }

  /** Nothing stops an item from borrowing its own stylesheet. */
  method SelfBorrowAccepted(env: Env, disk: Disk) returns (selected: map<int, int>)
    ensures selected == map[42 := 42]
  {
    var manager := new StylesManager(env, map[42 := "a{}"], map[], disk);
    var req := SaveRequest(true, false, true, "page", None, None, Some(42));
    manager.SaveMetaBox(42, req, s => s, Timestamp("", 0));
    selected := manager.selectedMeta;
  }

  /**
   * Submitting CSS with unbalanced braces does not keep the stored CSS: the
   * meta is deleted, a notice is queued, and when the filesystem cooperates
   * the published file is gone as well.
   */
  method UnbalancedSaveErases(env: Env, disk: Disk) returns (stored: map<int, string>, queued: seq<Notice>, published: bool)
    ensures stored == map[] && queued == [UnbalancedBraces]
    ensures Cooperative(env, disk, 7) ==> !published
  {
    var manager := new StylesManager(env, map[7 := "p{}"], map[], disk);
    var req := SaveRequest(true, false, true, "post", None, Some("p{"), None);
    manager.SaveMetaBox(7, req, s => s, Timestamp("", 0));
    if Cooperative(env, disk, 7) {
      FileTracksMeta(env, disk, 7, "", Timestamp("", 0));
    }
    stored, queued := manager.cssMeta, manager.notices;
    published := SheetPath(env, 7) in manager.disk;
  }
}
