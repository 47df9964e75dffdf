# Custom Page Styles: the CSS persistence and publishing pipeline in Dafny

This project models the core of the WordPress plugin "Custom Page Styles", in
`custom-page-styles.php`, class `Custom_Page_Styles_Manager`. The core is the
path from an editor's CSS to the stylesheets a page links:

- `sanitize_css` strips markup. It refuses text whose `{` and `}` counts
  differ, deletes five case-insensitive deny-list patterns in one pass each,
  and trims the result.
- `save_meta_box` checks four guards. It then stores or deletes the post's
  CSS meta, and the optional borrowed post id.
- `generate_css_file` and `delete_css_file` keep one file per post in step
  with the CSS meta. That file is `post-styles-<id>.css`, in the
  `custom-page-styles` directory under the uploads base directory.
  `create_css_directory` creates the directory and its two protective files.
- `enqueue_custom_styles` and `enqueue_post_style` turn the stored state into
  stylesheet registrations: the post's own sheet, then the borrowed one.
  They check that the file exists and use the same `realpath`/`strpos`
  confinement test as `delete_css_file`.
- `sanitize_post_types` filters the enabled post types setting, keeping order.
  `get_available_styles` turns query rows into `id => label` entries.

Modules:

- `Wrappers`: `Option`.
- `PhpString`: the PHP built-ins the core relies on, with PHP's own rules:
  - `substr_count`;
  - `empty()`, which treats `"0"` as empty;
  - `absint`;
  - `strpos(...) !== false`;
  - `trim` with its default character list;
  - `%d` formatting;
  - `trailingslashit`;
  - `dirname` and `basename`.
- `CssSanitizer`: the sanitiser, including the patterns' regular-expression
  semantics.
- `StylePaths`: directory, file names and URLs, and the generated file format.
- `Publisher`: the file operations as pure transitions over an abstract disk.
- `PageStyles`: class `StylesManager`, whose methods change the metadata
  maps, the disk, the registrations and the notices in place. Each method is
  proved equal to the transition it performs.
- `PostTypes`: `sanitize_post_types`.
- `StyleChoices`: the labels built by `get_available_styles`.

Calls into the host become parameters:

- `wp_strip_all_tags` and `sanitize_key` are functions passed in.
- The nonce, autosave and capability checks are booleans of a `SaveRequest`.
- `realpath` is a partial map.
- `current_time` and `filemtime` are a `Timestamp`.
- Whether `get_filesystem`, `wp_mkdir_p` and `put_contents`/`delete` succeed
  are booleans of an `Env`.

Behaviours of the code worth knowing:

- Unbalanced braces do not leave the earlier CSS alone. `sanitize_css`
  returns `""`, so `save_meta_box` deletes the stored CSS and, when the
  filesystem cooperates, the published file (`PageStyles.UnbalancedSaveErases`).
- Nothing stops a post from borrowing its own stylesheet
  (`PageStyles.SelfBorrowAccepted`). Only the candidate list of
  `get_available_styles` leaves the current post out.
- Each pattern is removed in a single pass, so the output is not free of the
  patterns: `"@imp@importort"` becomes `"@import"`
  (`CssSanitizer.SinglePassRebuildsImport`).
- Confinement is a substring test, not a prefix test
  (`Publisher.ConfinementIsSubstringTest`). In `generate_css_file` it can
  never fail once the directory resolves, because the tested path is built
  from the directory itself (`Publisher.GenerateSucceedsIff`).

## Model

| member | source | states |
|---|---|---|
| CssSanitizer.SanitizeCss | custom-page-styles.php:514-546 | It reports the unbalanced-braces notice exactly when the stripped text has different `{` and `}` counts, and then returns `""`. Otherwise it returns the five deny-list passes applied in the listed order, then trimmed. |
| CssSanitizer.SanitizedBraces | custom-page-styles.php:519-545 | Unbalanced input gives `""`. Balanced input keeps both brace counts through the passes and the trim. The result is balanced either way. |
| CssSanitizer.SanitizedShape | custom-page-styles.php:545 | The result has no trim character at either end and is never longer than the stripped input. |
| CssSanitizer.BracesNotRemovable | custom-page-styles.php:533-539 | No deny-list pattern can match a `{` or a `}`. |
| CssSanitizer.RemoveAllKeepsCount | custom-page-styles.php:542 | A single `preg_replace` pass never changes how often a character occurs if no match of the pattern can contain it. |
| CssSanitizer.RemovePatternsKeepsCount | custom-page-styles.php:541-543 | The same holds for the whole `foreach` over the patterns. |
| CssSanitizer.RemoveAllWithoutMatch | custom-page-styles.php:542 | A pass leaves text in which the pattern matches nowhere unchanged. |
| CssSanitizer.RemoveAllShortensOnMatch | custom-page-styles.php:542 | A pass over text in which the pattern matches somewhere makes it strictly shorter. |
| CssSanitizer.RemoveAllCopiesPrefix | custom-page-styles.php:542 | A pass copies unchanged a prefix none of whose characters can start a match. |
| CssSanitizer.SinglePassRebuildsImport | custom-page-styles.php:533-543 | The `/@import/i` pass turns `"@imp@importort"` into `"@import"`, which the same pattern matches again. |
| PhpString.ContainsIff | custom-page-styles.php:654 | `strpos($hay, $needle) !== false` holds exactly when the needle occurs at some offset of the haystack. |
| PhpString.TrimKeepsCount | custom-page-styles.php:545 | `trim` never changes how often a non-space character occurs. |
| PhpString.ParseNatToString | custom-page-styles.php:581 | Reading back the decimal digits that `.` or `%d` writes for an id gives the id. |
| PhpString.DirnameBasenameOfJoin | custom-page-styles.php:586 | `dirname` and `basename` of `dir/name` give back `dir` and `name`, for a non-empty directory with no trailing separator and a non-empty name with no `/`. Those are the paths on which PHP's slash-stripping `dirname` and `basename` agree with the model. |
| StylePaths.FileNameRoundTrip | custom-page-styles.php:581 | `post-styles-<id>.css` gives back its id and contains no `/`. |
| StylePaths.FileNameInjective | custom-page-styles.php:581 | Different ids never share a file name. |
| StylePaths.CssFilePathSplits | custom-page-styles.php:581-586 | The file path is the directory, `/`, then the file name, and `dirname` and `basename` recover the two. |
| StylePaths.CssFilePathInjective | custom-page-styles.php:581-582 | Different ids have different file paths in the same directory. |
| StylePaths.CssFilePathDistinct | custom-page-styles.php:138-147 | A post's stylesheet path is never the directory itself, `index.php` or `.htaccess`. |
| StylePaths.SheetRoundTrip | custom-page-styles.php:611-616 | Parsing a generated file gives back the id, the timestamp and exactly the CSS, provided the timestamp is one line. |
| Publisher.GenerateSucceedsIff | custom-page-styles.php:555-629 | `generate_css_file` returns true exactly when all of these hold: the CSS is not empty, `absint(id)` is not 0, the directory exists or can be made, the directory resolves, and the filesystem is there and accepts the write. |
| Publisher.GenerateWritesSheet | custom-page-styles.php:611-618 | After a successful generate, the post's file has the write's mtime and parses back to the id, the timestamp and the CSS. |
| Publisher.GenerateFrame | custom-page-styles.php:555-629 | Generate touches only the directory, its two protective files and the post's file. A failed generate leaves the post's file as it was. With the directory already present, only the post's file can change. |
| Publisher.GenerateKeepsOtherSheets | custom-page-styles.php:581-618 | Generating one post's file never changes another post's file. |
| Publisher.DeleteSucceedsIff | custom-page-styles.php:637-665 | `delete_css_file` succeeds exactly when all of these hold: the id is not 0, the file exists, it passes confinement, and the filesystem accepts the deletion. It then removes that file only. Otherwise the disk is unchanged. It queues no notice. |
| Publisher.ServeIff | custom-page-styles.php:702-732 | A registration is made exactly when the id is not 0, the file exists and it passes confinement. Its handle is prefix + id, its URL is the directory URL + the file name, it has no dependencies, and its version is the file's mtime. |
| Publisher.ServeAfterDelete | custom-page-styles.php:637-665 | After a successful delete the post's sheet is not served. |
| Publisher.ServeAfterGenerate | custom-page-styles.php:702-732 | After a successful generate whose file resolves inside the directory, the sheet is served with the write's time as its version. |
| Publisher.FileTracksMeta | custom-page-styles.php:474-488 | When the environment cooperates, the file of a positive id is present after non-empty CSS is stored and absent after the CSS is cleared. |
| Publisher.ConfinementIsSubstringTest | custom-page-styles.php:654 | Any resolved file path that contains the resolved directory anywhere passes the confinement test, even one that starts outside it. |
| Publisher.HandlesDistinct | custom-page-styles.php:685-690 | The own and the borrowed handles never coincide, whatever the two ids. |
| Publisher.PageStylesShape | custom-page-styles.php:670-692 | A page links at most two sheets, under different handles. Off singular views, or with no current post, it links none. The post's own sheet comes first. A borrowed sheet appears only for a positive stored id whose file exists. |
| Publisher.CreateDirectoryPromises | custom-page-styles.php:125-152 | `create_css_directory` succeeds exactly when the directory exists already or `wp_mkdir_p` makes it, and the directory then exists. A failure leaves the disk alone and it never queues a notice. A freshly made directory gets `index.php` and `.htaccess` with their fixed contents when the filesystem accepts the writes. A second call after a success changes nothing and succeeds. |
| PageStyles.StylesManager.CreateCssDirectory | custom-page-styles.php:125-152 | Changes the disk exactly as `CreateDirectory` prescribes and returns its result. |
| PageStyles.StylesManager.GenerateCssFile | custom-page-styles.php:555-578 | The new disk, the result and the queued notice are those of `Generate`. |
| PageStyles.StylesManager.WriteCssFile | custom-page-styles.php:580-628 | The new disk, the result and the queued notice are those of the confinement, filesystem and write steps (`WriteSheet`). |
| PageStyles.StylesManager.DeleteCssFile | custom-page-styles.php:637-665 | The new disk and the result are those of `Delete`. |
| PageStyles.StylesManager.ApplyCss | custom-page-styles.php:474-487 | Non-empty CSS is stored and generated. Empty CSS deletes the meta and the file. The unbalanced notice comes before any notice from generating. |
| PageStyles.StylesManager.SaveSelectedField | custom-page-styles.php:491-505 | The borrowed id is stored when `absint` of the field is positive and that post's CSS meta is non-empty. Otherwise it is deleted. |
| PageStyles.StylesManager.SaveMetaBox | custom-page-styles.php:449-506 | A failed guard changes nothing. An absent CSS field leaves the CSS meta, the disk and the notices alone. Present CSS is stored and published, or deleted together with its file. The borrowed id is checked against the CSS meta as this save left it, and may be the post's own id. |
| PageStyles.StylesManager.EnqueuePostStyle | custom-page-styles.php:702-732 | Appends exactly the registration `Serve` gives, or nothing. |
| PageStyles.StylesManager.EnqueueCustomStyles | custom-page-styles.php:670-692 | Appends exactly the registrations `PageStyles` gives: the own sheet, then the borrowed one. |
| PageStyles.SelfBorrowAccepted | custom-page-styles.php:491-505 | Saving post 42 with itself as the borrowed id stores 42 → 42. |
| PageStyles.UnbalancedSaveErases | custom-page-styles.php:474-487 | Saving `"p{"` over stored CSS deletes the CSS meta and queues the unbalanced-braces notice. When the environment cooperates, the post's file is gone afterwards too. |
| PostTypes.SanitizePostTypes | custom-page-styles.php:219-235 | A value that is not an array gives `[]`. Otherwise the result is the sanitised keys that name registered types, in submitted order, so every kept name is registered. |
| PostTypes.KeepRegisteredMembership | custom-page-styles.php:227-232 | A name is kept exactly when it is registered and some submitted entry sanitises to it. |
| PostTypes.KeepRegisteredConcat | custom-page-styles.php:227-232 | Filtering a concatenation gives the concatenation of the filtered parts, so order is kept. |
| PostTypes.KeepRegisteredIdempotent | custom-page-styles.php:219-235 | Sanitising the saved list again changes nothing, as long as `sanitize_key` leaves registered names unchanged. |
| StyleChoices.AvailableStyles | custom-page-styles.php:409-441 | The `id => label` array built row by row has distinct keys and never offers the current post. |
| StyleChoices.ChoicesLookup | custom-page-styles.php:428-438 | Each id appears once and carries the label of the last row with that id. |
| StyleChoices.ChoicesHasId | custom-page-styles.php:412-438 | An id is offered exactly when some post with that id has non-empty CSS, is published and is not the current post. |
| StyleChoices.QueryRowsHasId | custom-page-styles.php:412-425 | The query rows include an id exactly when some post with that id passes the filter. |
| StyleChoices.CurrentNeverOffered | custom-page-styles.php:419 | The post being edited never appears among its own choices. |
| StyleChoices.LabelDisambiguates | custom-page-styles.php:432-437 | Two items with the same title and type but different ids never get the same label, so the id in the label tells them apart. |
| StyleChoices.PutKeepsDistinct | custom-page-styles.php:432 | `$styles[$id] = ...` keeps the keys of a PHP array distinct. |

## Left out

- Admin screens and HTML output are not modelled: `add_settings_page`, `register_settings`, the render functions, `add_meta_box`, `render_meta_box` and `enqueue_admin_styles`. They produce markup and have no logic to prove.
- Hook registration, the singleton, `activate`'s option default and `get_filesystem`'s internals are host plumbing. Whether a filesystem is obtained is a boolean of `Env`.
- The SQL query of `get_available_styles` is a database call. It is modelled as a filter over a list of posts given in `post_modified DESC` order. `DISTINCT` is not modelled, since a post has one CSS meta row.
- `realpath`, symlinks, `file_exists`, `filemtime`, `current_time`, nonces, capabilities, `wp_strip_all_tags` and `sanitize_key` are foreign calls. They are parameters or partial maps, and their internals are not modelled.
- `dirname` and `basename` are modelled for paths with no trailing or repeated `/`, where PHP's stripping of separators does not come into play. The generated paths are always of that form.
- Strings are sequences of characters. Byte-level UTF-8 behaviour of `preg_replace` and `trim` is not modelled, and `/i` folds ASCII letters only.
- `$_POST` values are modelled after `wp_unslash` and after PHP's conversion to an integer. A selected field that is not numeric reaches `absint` as a plain integer.
- `sanitize_post_types` is modelled for an array of strings. Entries of other types are not modelled.
- Concurrent saves are not modelled; the code takes no locks. The sequential order is modelled: the meta is written first, then the file. A failed file write leaves the new meta in place with no file for it.
- uninstall.php is not part of this model. It deletes bulk data under other key and directory names.
- PageStyles.StylesManager.SaveMetaBox: `update_post_meta` runs `wp_unslash` on the value it stores, and that is not modelled. The model stores the sanitised CSS exactly as written to the file. For CSS containing `\`, the real stored meta loses the backslashes while the published file keeps them, and a later save of the edit form, which is filled from the meta, drops them from the file too.
- StyleChoices.LabelDisambiguates: stated for ids of zero or more, which is what database post ids are. Negative ids, which the `int` row type admits, are not covered.
