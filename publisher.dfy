/**
 * The file side of the styles manager as transitions on an abstract disk:
 * `create_css_directory` (custom-page-styles.php:125-152),
 * `generate_css_file` (555-629), `delete_css_file` (637-665),
 * `enqueue_post_style` (702-732) and `enqueue_custom_styles` (670-692).
 */
module Publisher {

  import opened Wrappers
  import opened PhpString
  import opened StylePaths

  /**
   * What the host provides and this code cannot see into: the upload base
   * directory and URL, `realpath` as a partial map from a path to its
   * resolved form, whether `get_filesystem` yields a filesystem, whether
   * `wp_mkdir_p` succeeds, and whether `put_contents`/`delete` succeed.
   */
  datatype Env = Env(
    basedir: string,
    baseurl: string,
    realpath: map<string, string>,
    filesystemAvailable: bool,
    mkdirSucceeds: bool,
    writesSucceed: bool)

  /** `current_time('mysql')` and the clock a write stamps as the file's mtime. */
  datatype Timestamp = Timestamp(mysql: string, unix: int)

  datatype Node = File(content: string, mtime: int) | Directory(mtime: int)

  /** The filesystem: what exists at each path. */
  type Disk = map<string, Node>

  /** The admin notices queued with `add_settings_error`. */
  datatype Notice = UnbalancedBraces | DirectoryError | InvalidPath | FilesystemError | WriteError

  /** The new disk, the boolean the PHP function returns, and the notice it queued. */
  datatype DiskStep = DiskStep(disk: Disk, ok: bool, notice: Option<Notice>)

  /** One `wp_enqueue_style($handle, $src, $deps, $ver)` call. */
  datatype Registration = Registration(handle: string, src: string, deps: seq<string>, version: int)

  function RealPath(env: Env, p: string): Option<string>
  {
    if p in env.realpath then Some(env.realpath[p]) else None
  }

  /** The managed directory and the path of the stylesheet of `id` in it. */
  function SheetDir(env: Env): string
  {
    CssDir(env.basedir)
  }

  function SheetPath(env: Env, id: nat): string
  {
    CssFilePath(SheetDir(env), id)
  }

  function NoticeSeq(n: Option<Notice>): seq<Notice>
  {
    match n
    case None => []
    case Some(x) => [x]
  }

  /**
   * The confinement test of `delete_css_file` and `enqueue_post_style`: both
   * paths resolve and the resolved directory occurs somewhere in the resolved
   * file path (`strpos`, not a prefix test).
   */
  predicate Confined(env: Env, dir: string, file: string)
  {
    RealPath(env, dir).Some? && RealPath(env, file).Some? &&
    Contains(RealPath(env, file).value, RealPath(env, dir).value)
  }

  // ---------------------------------------------------------------------------
  // create_css_directory
  // ---------------------------------------------------------------------------

  function CreateDirectory(env: Env, disk: Disk, now: Timestamp): DiskStep
  {
    var dir := SheetDir(env);
    if dir in disk then DiskStep(disk, true, None)
    else if !env.mkdirSucceeds then DiskStep(disk, false, None)
    else
      var made := disk[dir := Directory(now.unix)];
      if env.filesystemAvailable && env.writesSucceed then
        DiskStep(made[IndexFilePath(dir) := File(IndexFileContent, now.unix)]
                     [HtaccessFilePath(dir) := File(HtaccessFileContent, now.unix)], true, None)
      else DiskStep(made, true, None)
  }

  /**
   * What `create_css_directory` promises: it succeeds exactly when the
   * directory is already there or `wp_mkdir_p` creates it, and then the
   * directory exists; a failure leaves the disk alone; a fresh directory
   * gets `index.php` and `.htaccess` with their fixed contents when the
   * filesystem accepts the writes; and a second call changes nothing.
   */
  lemma CreateDirectoryPromises(env: Env, disk: Disk, now: Timestamp, later: Timestamp)
    ensures var step := CreateDirectory(env, disk, now);
            (step.ok <==> SheetDir(env) in disk || env.mkdirSucceeds) &&
            (step.ok ==> SheetDir(env) in step.disk) &&
            (!step.ok ==> step.disk == disk) &&
            step.notice.None?
    ensures var d := CreateDirectory(env, disk, now).disk;
            var dir := SheetDir(env);
            dir !in disk && env.mkdirSucceeds && env.filesystemAvailable && env.writesSucceed ==>
              IndexFilePath(dir) in d && d[IndexFilePath(dir)] == File(IndexFileContent, now.unix) &&
              HtaccessFilePath(dir) in d && d[HtaccessFilePath(dir)] == File(HtaccessFileContent, now.unix)
    ensures var step := CreateDirectory(env, disk, now);
            step.ok ==> CreateDirectory(env, step.disk, later) == DiskStep(step.disk, true, None)
  {
    var dir := SheetDir(env);
    TrailingSlashItAppends(dir);
    assert IndexFilePath(dir) != HtaccessFilePath(dir) by {
      var t := TrailingSlashIt(dir);
      assert IndexFilePath(dir)[|t|] == 'i';
      assert HtaccessFilePath(dir)[|t|] == '.';
    }
    assert |IndexFilePath(dir)| > |dir| && |HtaccessFilePath(dir)| > |dir|;
  }

  // ---------------------------------------------------------------------------
  // generate_css_file
  // ---------------------------------------------------------------------------

  /**
   * The path `generate_css_file` checks: `realpath(dirname($css_file))`
   * (the empty string when it is `false`) joined to the basename.
   */
  function ResolvedWritePath(env: Env, file: string): string
  {
    GetOr(RealPath(env, Dirname(file)), "") + "/" + Basename(file)
  }

  /**
   * The part of `generate_css_file` after the directory exists: the
   * confinement test, the filesystem checks and the write of the sheet of
   * `id` (not 0) holding `css`.
   */
  function WriteSheet(env: Env, disk: Disk, id: nat, css: string, now: Timestamp): DiskStep
  {
    var dir := SheetDir(env);
    var file := CssFilePath(dir, id);
    var realDir := RealPath(env, dir);
    if realDir.None? || !Contains(ResolvedWritePath(env, file), realDir.value) then
      DiskStep(disk, false, Some(InvalidPath))
    else if !env.filesystemAvailable then DiskStep(disk, false, Some(FilesystemError))
    else if !env.writesSucceed then DiskStep(disk, false, Some(WriteError))
    else
      var content := FormatSheet(GeneratedSheet(id, now.mysql, css));
      DiskStep(disk[file := File(content, now.unix)], true, None)
  }

  function Generate(env: Env, disk: Disk, postId: int, css: string, now: Timestamp): DiskStep
  {
    if PhpEmpty(css) then DiskStep(disk, false, None)
    else
      var id := AbsInt(postId);
      if id == 0 then DiskStep(disk, false, None)
      else
        var made := CreateDirectory(env, disk, now);
        if !made.ok then DiskStep(made.disk, false, Some(DirectoryError))
        else WriteSheet(env, made.disk, id, css, now)
  }

  /** The paths `generate_css_file` may create or overwrite for `id`. */
  predicate GenerateMayTouch(env: Env, id: nat, p: string)
  {
    var dir := SheetDir(env);
    p == dir || p == IndexFilePath(dir) || p == HtaccessFilePath(dir) || p == CssFilePath(dir, id)
  }

  /**
   * `generate_css_file` succeeds exactly when the CSS is not empty, the id is
   * not 0, the directory exists or can be made, the directory resolves, and
   * the filesystem is there and accepts the write. The confinement test adds
   * nothing: the file's parent is the directory itself, so the resolved
   * directory is always found at offset 0 of the path it is checked against.
   */
  lemma GenerateSucceedsIff(env: Env, disk: Disk, postId: int, css: string, now: Timestamp)
    ensures Generate(env, disk, postId, css, now).ok <==>
            !PhpEmpty(css) && AbsInt(postId) != 0 &&
            (SheetDir(env) in disk || env.mkdirSucceeds) &&
            RealPath(env, SheetDir(env)).Some? &&
            env.filesystemAvailable && env.writesSucceed
  {
    var id := AbsInt(postId);
    var dir := SheetDir(env);
    CssFilePathSplits(env.basedir, id);
    var resolvedDir := RealPath(env, dir);
    if resolvedDir.Some? {
      var resolved := ResolvedWritePath(env, CssFilePath(dir, id));
      assert resolved == resolvedDir.value + ("/" + FileName(id));
      StartsWithConcat(resolvedDir.value, "/" + FileName(id));
    }
  }

  /**
   * After a successful `generate_css_file` the stylesheet of `id` holds the
   * header and then the CSS: reading it back gives the id, the timestamp and
   * exactly the CSS.
   */
  lemma GenerateWritesSheet(env: Env, disk: Disk, postId: int, css: string, now: Timestamp)
    requires Generate(env, disk, postId, css, now).ok
    requires '\n' !in now.mysql
    ensures var d := Generate(env, disk, postId, css, now).disk;
            var file := SheetPath(env, AbsInt(postId));
            file in d && d[file].File? && d[file].mtime == now.unix &&
            ParseSheet(d[file].content) == Some(GeneratedSheet(AbsInt(postId), now.mysql, css))
  {
    GenerateWritesFile(env, disk, postId, css, now);
    SheetRoundTrip(GeneratedSheet(AbsInt(postId), now.mysql, css));
  }

  /** A successful `generate_css_file` leaves the formatted sheet at the item's path. */
  lemma GenerateWritesFile(env: Env, disk: Disk, postId: int, css: string, now: Timestamp)
    requires Generate(env, disk, postId, css, now).ok
    ensures var d := Generate(env, disk, postId, css, now).disk;
            var file := SheetPath(env, AbsInt(postId));
            file in d && d[file] == File(FormatSheet(GeneratedSheet(AbsInt(postId), now.mysql, css)), now.unix)
  {
  }

  /**
   * `generate_css_file` changes at most the directory, its two protective
   * files and the stylesheet of `id`; when it fails it leaves that stylesheet
   * as it was, and when the directory already existed it touches nothing but
   * the stylesheet.
   */
  lemma GenerateFrame(env: Env, disk: Disk, postId: int, css: string, now: Timestamp, p: string)
    ensures var d := Generate(env, disk, postId, css, now).disk;
            !GenerateMayTouch(env, AbsInt(postId), p) ==> (p in d <==> p in disk) && (p in disk ==> d[p] == disk[p])
    ensures var step := Generate(env, disk, postId, css, now);
            var file := SheetPath(env, AbsInt(postId));
            !step.ok ==> (file in step.disk <==> file in disk) && (file in disk ==> step.disk[file] == disk[file])
    ensures var d := Generate(env, disk, postId, css, now).disk;
            SheetDir(env) in disk && p != SheetPath(env, AbsInt(postId)) ==>
              (p in d <==> p in disk) && (p in disk ==> d[p] == disk[p])
  {
    CssFilePathDistinct(env.basedir, AbsInt(postId));
  }

  /** Writing the stylesheet of one id never touches the stylesheet of another. */
  lemma GenerateKeepsOtherSheets(env: Env, disk: Disk, postId: int, css: string, now: Timestamp, other: nat)
    requires other != AbsInt(postId)
    ensures var d := Generate(env, disk, postId, css, now).disk;
            var file := SheetPath(env, other);
            (file in d <==> file in disk) && (file in disk ==> d[file] == disk[file])
  {
    var file := SheetPath(env, other);
    CssFilePathDistinct(env.basedir, other);
    if file == SheetPath(env, AbsInt(postId)) {
      CssFilePathInjective(SheetDir(env), other, AbsInt(postId));
    }
    GenerateFrame(env, disk, postId, css, now, file);
  }

  // ---------------------------------------------------------------------------
  // delete_css_file
  // ---------------------------------------------------------------------------

  function Delete(env: Env, disk: Disk, postId: int): DiskStep
  {
    var id := AbsInt(postId);
    if id == 0 then DiskStep(disk, false, None)
    else
      var dir := SheetDir(env);
      var file := CssFilePath(dir, id);
      if file !in disk then DiskStep(disk, false, None)
      else if !Confined(env, dir, file) then DiskStep(disk, false, None)
      else if !env.filesystemAvailable || !env.writesSucceed then DiskStep(disk, false, None)
      else DiskStep(disk - {file}, true, None)
  }

  /**
   * `delete_css_file` removes the stylesheet of `id` and nothing else, and
   * only when the id is not 0, the file exists, it passes the confinement
   * test and the filesystem accepts the deletion; otherwise the disk is
   * unchanged.
   */
  lemma DeleteSucceedsIff(env: Env, disk: Disk, postId: int)
    ensures var step := Delete(env, disk, postId);
            var file := SheetPath(env, AbsInt(postId));
            (step.ok <==> AbsInt(postId) != 0 && file in disk && Confined(env, SheetDir(env), file) &&
                          env.filesystemAvailable && env.writesSucceed) &&
            (step.ok ==> step.disk == disk - {file}) &&
            (!step.ok ==> step.disk == disk) &&
            step.notice.None?
  {
  }

  // ---------------------------------------------------------------------------
  // enqueue_post_style and enqueue_custom_styles
  // ---------------------------------------------------------------------------

  function Serve(env: Env, disk: Disk, postId: int, cssDir: string, cssUrl: string, prefix: string): Option<Registration>
  {
    var id := AbsInt(postId);
    if id == 0 then None
    else
      var file := CssFilePath(cssDir, id);
      if file !in disk then None
      else if !Confined(env, cssDir, file) then None
      else Some(Registration(prefix + NatToString(id), TrailingSlashIt(cssUrl) + FileName(id), [], disk[file].mtime))
  }

  /**
   * `enqueue_post_style` registers a stylesheet exactly when the id is not
   * 0, the file exists and it passes the confinement test; it fails closed
   * otherwise. The registration names the file's public URL, which ends in
   * the stylesheet's file name, and carries its mtime as the version.
   */
  lemma ServeIff(env: Env, disk: Disk, postId: int, cssDir: string, cssUrl: string, prefix: string)
    ensures var r := Serve(env, disk, postId, cssDir, cssUrl, prefix);
            var file := CssFilePath(cssDir, AbsInt(postId));
            (r.Some? <==> AbsInt(postId) != 0 && file in disk && Confined(env, cssDir, file)) &&
            (r.Some? ==> r.value.handle == prefix + NatToString(AbsInt(postId)) &&
                         StartsWith(r.value.src, TrailingSlashIt(cssUrl)) &&
                         r.value.src[|TrailingSlashIt(cssUrl)|..] == FileName(AbsInt(postId)) &&
                         r.value.deps == [] && r.value.version == disk[file].mtime)
  {
    StartsWithConcat(TrailingSlashIt(cssUrl), FileName(AbsInt(postId)));
  }

  /** Once `delete_css_file` has succeeded, the item's stylesheet is no longer served. */
  lemma ServeAfterDelete(env: Env, disk: Disk, postId: int, prefix: string)
    requires Delete(env, disk, postId).ok
    ensures Serve(env, Delete(env, disk, postId).disk, postId, SheetDir(env), CssUrl(env.baseurl), prefix) == None
  {
  }

  /**
   * Once `generate_css_file` has succeeded, and provided the new file
   * resolves inside the resolved directory, the page links the new file
   * with the write's mtime as its version.
   */
  lemma ServeAfterGenerate(env: Env, disk: Disk, postId: int, css: string, now: Timestamp, prefix: string)
    requires Generate(env, disk, postId, css, now).ok
    requires Confined(env, SheetDir(env), SheetPath(env, AbsInt(postId)))
    ensures Serve(env, Generate(env, disk, postId, css, now).disk, postId, SheetDir(env), CssUrl(env.baseurl), prefix)
            == Some(Registration(prefix + NatToString(AbsInt(postId)),
                                 CssUrl(env.baseurl) + "/" + FileName(AbsInt(postId)), [], now.unix))
  {
    GenerateWritesFile(env, disk, postId, css, now);
    TrailingSlashItAppends(CssUrl(env.baseurl));
  }

  /**
   * An environment in which every filesystem step of the item `id`
   * succeeds: the directory exists or can be made, the filesystem accepts
   * writes and deletions, and the directory and the item's file, when
   * present, resolve with the file inside the directory.
   */
  predicate Cooperative(env: Env, disk: Disk, id: nat)
  {
    (SheetDir(env) in disk || env.mkdirSucceeds) &&
    env.filesystemAvailable && env.writesSucceed &&
    RealPath(env, SheetDir(env)).Some? &&
    (SheetPath(env, id) in disk ==> Confined(env, SheetDir(env), SheetPath(env, id)))
  }

  /**
   * In a cooperative environment the file follows the CSS meta of a
   * positive id: storing non-empty CSS leaves the file in place, and
   * clearing the CSS leaves no file behind, whether or not one existed.
   */
  lemma FileTracksMeta(env: Env, disk: Disk, postId: int, css: string, now: Timestamp)
    requires postId > 0 && Cooperative(env, disk, postId)
    ensures !PhpEmpty(css) ==> SheetPath(env, postId) in Generate(env, disk, postId, css, now).disk
    ensures SheetPath(env, postId) !in Delete(env, disk, postId).disk
  {
    GenerateSucceedsIff(env, disk, postId, css, now);
    if !PhpEmpty(css) {
      GenerateWritesFile(env, disk, postId, css, now);
    }
    DeleteSucceedsIff(env, disk, postId);
  }

  /**
   * The confinement test is a substring test: a file that resolves to any
   * path with the resolved directory somewhere inside it, even after an
   * unrelated leading part, is deleted or served like one inside the
   * directory.
   */
  lemma ConfinementIsSubstringTest(env: Env, dir: string, file: string, outside: string, rest: string)
    requires dir in env.realpath && file in env.realpath
    requires env.realpath[file] == outside + env.realpath[dir] + rest
    ensures Confined(env, dir, file)
  {
    var realDir := env.realpath[dir];
    ContainsIff(env.realpath[file], realDir);
    assert env.realpath[file][|outside|..|outside| + |realDir|] == realDir;
    assert OccursAt(env.realpath[file], realDir, |outside|);
  }

  /** The two handles of one page never collide, whatever the two ids are. */
  lemma HandlesDistinct(a: nat, b: nat)
    ensures OwnHandlePrefix + NatToString(a) != SelectedHandlePrefix + NatToString(b)
  {
    var own := OwnHandlePrefix + NatToString(a);
    var sel := SelectedHandlePrefix + NatToString(b);
    assert IsDigit(own[|OwnHandlePrefix|]);
    assert sel[|OwnHandlePrefix|] == 's';
  }

  lemma OwnHandleNotSelected(n: nat)
    ensures !StartsWith(OwnHandlePrefix + NatToString(n), SelectedHandlePrefix)
  {
    var own := OwnHandlePrefix + NatToString(n);
    assert IsDigit(own[|OwnHandlePrefix|]);
    if |SelectedHandlePrefix| <= |own| {
      assert own[..|SelectedHandlePrefix|][|OwnHandlePrefix|] == own[|OwnHandlePrefix|];
    }
  }

  /**
   * `enqueue_custom_styles`: nothing off singular views or without a current
   * item; otherwise the item's own stylesheet, then the stylesheet whose id
   * is stored as borrowed, when that id is positive.
   */
  function PageStyles(env: Env, disk: Disk, selectedMeta: map<int, int>, singular: bool, postId: int): seq<Registration>
  {
    if !singular || postId == 0 then []
    else
      var dir := SheetDir(env);
      var url := CssUrl(env.baseurl);
      var own := Serve(env, disk, postId, dir, url, OwnHandlePrefix);
      var selected := AbsInt(if postId in selectedMeta then selectedMeta[postId] else 0);
      OptionSeq(own) + (if selected > 0 then OptionSeq(Serve(env, disk, selected, dir, url, SelectedHandlePrefix)) else [])
  }

  function OptionSeq<T>(o: Option<T>): seq<T>
  {
    match o
    case None => []
    case Some(x) => [x]
  }

  /**
   * A page links at most two stylesheets, under different handles; the
   * first, when its file exists and is confined, is the item's own, and a
   * borrowed one is linked only for a positive stored id whose file exists.
   */
  lemma PageStylesShape(env: Env, disk: Disk, selectedMeta: map<int, int>, singular: bool, postId: int)
    ensures var regs := PageStyles(env, disk, selectedMeta, singular, postId);
            |regs| <= 2 &&
            (!singular || postId == 0 ==> regs == []) &&
            (|regs| == 2 ==> regs[0].handle != regs[1].handle) &&
            (singular && postId != 0 && Serve(env, disk, postId, SheetDir(env), CssUrl(env.baseurl), OwnHandlePrefix).Some? ==>
               regs[0] == Serve(env, disk, postId, SheetDir(env), CssUrl(env.baseurl), OwnHandlePrefix).value) &&
            (forall r :: r in regs && StartsWith(r.handle, SelectedHandlePrefix) ==>
               postId in selectedMeta && AbsInt(selectedMeta[postId]) > 0 &&
               SheetPath(env, AbsInt(selectedMeta[postId])) in disk)
  {
    var regs := PageStyles(env, disk, selectedMeta, singular, postId);
    if singular && postId != 0 {
      var dir := SheetDir(env);
      var url := CssUrl(env.baseurl);
      var own := Serve(env, disk, postId, dir, url, OwnHandlePrefix);
      var selected := AbsInt(if postId in selectedMeta then selectedMeta[postId] else 0);
      if |regs| == 2 {
        HandlesDistinct(AbsInt(postId), selected);
      }
      forall r | r in regs && StartsWith(r.handle, SelectedHandlePrefix)
        ensures postId in selectedMeta && AbsInt(selectedMeta[postId]) > 0 &&
                SheetPath(env, AbsInt(selectedMeta[postId])) in disk
      {
        if own.Some? && r == own.value {
          OwnHandleNotSelected(AbsInt(postId));
        }
      }
    }
  }
}
