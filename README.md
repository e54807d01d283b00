# Colour and image matcher for WooCommerce variations, modelled in Dafny

The repository holds two near-duplicate WordPress/WooCommerce batch scripts.
Each reads a correspondence file. The file holds product-name lines, and under
each name, lines that pair a variation SKU with a colour. For every SKU it finds,
a script sets the variation's colour attribute and attaches a photo. The photo is
picked from an image tree: the first directory whose name contains the product's
model name, then the smallest file whose name starts with the colour number.
Each script returns a log of what happened and a count of the successes.

- `script-for-wpcode.php` first folds the whole file into a SKU-to-descriptor
  map. It then walks every variation of every variable product in the catalog.
- `wc-color-image-matcher.php` handles each entry line as soon as it reads it.
  It uses the most recent product-name line for the model name.

The model is split as the code is:

- `php.dfy` (module `Php`): the parts of PHP that the scripts rely on. These are
  `trim`, `empty`, `explode`/`implode` on "\n", `stripos`, `explode(' ', s, 2)`,
  and the PCRE classes `\s`, `\d` and `[a-zA-Z0-9]`.
- `images.dfy` (module `Images`): `find_image_by_model_and_color`, which the two
  files share apart from the glob pattern. The pattern is a parameter.
  - The filesystem is an input value: whether the root exists, its sub-directories
    in listing order, and each one's entries with their sizes.
  - The directory search and the smallest-file search are loops.
  - Each loop is proved against a specification function.
- `wpcode.dfy` (module `WpCode`): the parse loop, `extract_color_number`,
  `extract_model_name` with its `Drops` rule, the `N*.*` glob and the nested
  variation loop.
  - The catalog is an input value: products with their variations.
  - For each variation it records whether `wc_get_product` loaded it, its SKU,
    and the booleans that `update_variation_color` and
    `assign_image_to_variation` return.
- `matcher.dfy` (module `Matcher`): the stricter entry pattern, the streaming
  loop, the `N{,.*,-*.*}` brace glob and the fallback-only `extract_model_name`.
  - `find_variation_by_sku` is a map from SKU to variation id. A missing key or
    id 0 means "not found", since PHP treats both as false.
  - The colour-update and image-assignment results are functions of the line
    number of the entry.
- `variants.dfy` (module `Variants`): what the two scripts do differently with
  the same input, and where they agree.

Log lines are datatypes, one constructor per message the scripts append to
`$log`. They are not the message text.

Regular expressions follow PCRE semantics.
- Every greedy class repetition in these patterns is followed by a class it
  does not overlap, so backtracking cannot change the match.
- The one exception is `\s+(.+)$` in `script-for-wpcode.php`. When nothing is
  left for `.+`, the `\s+` gives a character back. That is possible only for a
  separator ending in a form feed, which `trim` keeps.
- The positive classes (`\s`, `\d`, `[a-zA-Z0-9]`, `[a-zA-Z0-9-]`) are ASCII.
  Multi-byte UTF-8 text, such as the Cyrillic product names, is never in one of
  them. It is in the negated class `[^,\s]` and in `.`, which take any character
  but the few they exclude.

## Model

| member | source | states |
|---|---|---|
| Php.Trim | script-for-wpcode.php:47 | the result is the slice of the input after its leading run of trimmable characters, only trimmable characters are removed from either end, neither end of the result is trimmable, and a line stays free of line feeds |
| Php.Split | script-for-wpcode.php:38 | `explode("\n")` gives at least one piece and no piece holds a line feed |
| Php.JoinSplit | script-for-wpcode.php:38 | joining the pieces with "\n" gives the text back |
| Php.SplitJoin | script-for-wpcode.php:38 | lines without line feeds, joined with "\n" and split again, come back unchanged |
| Php.StrIPos | script-for-wpcode.php:263 | `stripos` returns the first position where the needle occurs ignoring ASCII case, or nothing when it occurs nowhere |
| Php.AfterFirstSpace | wc-color-image-matcher.php:95-96 | with a space, the result is what follows the first space; without one, it is the whole name |
| Php.IsEmpty | script-for-wpcode.php:50 | `empty()` on a string: true for "" and for "0" (no contract; `WpCode.ZeroLineIsBlank` and `WpCode.ClassifyLine` state its effect) |
| Php.Join | script-for-wpcode.php:143 | `implode("\n")`: the first piece, then, when there are more, a line feed before the rest; `Php.JoinSplit` and `Php.SplitJoin` make it the inverse of `explode` |
| Php.FilterAppend | wc-color-image-matcher.php:209 | filtering a concatenation filters each part, so the kept entries stay in listing order |
| Php.FilterSingle | script-for-wpcode.php:277 | one entry is kept exactly when it matches |
| Php.SpanAt | wc-color-image-matcher.php:38 | a greedy class repetition stops at the first character outside the class |
| Images.FirstModelDir | script-for-wpcode.php:259-267 | the first directory in listing order whose name contains the model name ignoring case, or nothing when none does |
| Images.FindModelDir | script-for-wpcode.php:256-267 | the directory loop that breaks at the first match returns `FirstModelDir` |
| Images.MinIndex | script-for-wpcode.php:284-297 | an index of least size such that every earlier candidate is strictly larger |
| Images.MinIndexUnique | script-for-wpcode.php:292 | the least-size, first-on-ties index is unique |
| Images.SmallestImage | script-for-wpcode.php:286-298 | the loop from `PHP_INT_MAX` with strict `<` picks the first smallest candidate, or none when every size is `PHP_INT_MAX` or more |
| Images.Resolve | script-for-wpcode.php:248-303 | an image is found only when the root is a directory and some directory names the model, and it comes from the first such directory; `Images.ResolveDirectory` gives the converse |
| Images.Choose | script-for-wpcode.php:279-302 | a chosen image is one of the candidates, in the searched directory; `Images.ChooseSmallest` says which one and when there is none |
| Images.ResolveDirectory | script-for-wpcode.php:250-272 | no image when the root is not a directory or no directory names the model; when the root is a directory, the first naming directory decides: the result is what `Choose` gives for that directory's candidates, whatever they are |
| Images.FirstModelDirIs | script-for-wpcode.php:259-267 | a naming directory with no naming directory before it is the one the loop stops at |
| Images.ChooseSmallest | wc-color-image-matcher.php:211-233 | no image exactly when there is no candidate, or several all of size `PHP_INT_MAX` or more; otherwise one candidate, of least size when there are several, every earlier one strictly larger |
| Images.FindImage | script-for-wpcode.php:248-303 | the whole search (root check, directory loop, glob, argmin) computes `Resolve` |
| WpCode.MatchEntry | script-for-wpcode.php:55-57 | a match splits off a non-empty SKU that is a prefix of the line and a non-empty descriptor that is a suffix of it, and leaves at least one separator character between them |
| WpCode.MatchEntrySpec | script-for-wpcode.php:55-57 | a line matches exactly when it has the entry shape; the SKU is the maximal leading run of `[a-zA-Z0-9-]`, and the descriptor is what is left after the longest separator that still leaves one |
| WpCode.MatchEntryAt | script-for-wpcode.php:55-57 | a SKU, a whitespace run and a descriptor starting with a non-space character match as exactly that SKU and descriptor |
| WpCode.ClassifyLine | script-for-wpcode.php:47-64 | a line is skipped exactly when its trimmed text is "" or "0"; an entry carries the match of the trimmed text; any other line carries its trimmed text, which is neither skipped nor an entry |
| WpCode.Classify | script-for-wpcode.php:46-64 | one classification per line of the file |
| WpCode.ZeroLineIsBlank | script-for-wpcode.php:47-52 | a line holding "0", or only trimmable characters (here a space and a tab), is skipped |
| WpCode.FormFeedLineIsContext | script-for-wpcode.php:47-63 | a line holding only a form feed is not skipped: `trim` keeps it, so it becomes `$current_product` |
| WpCode.ParseCorrespondence | script-for-wpcode.php:37-65 | the parse loop over the lines computes the fold of their classifications: the map and `$current_product` |
| WpCode.ParseKeys | script-for-wpcode.php:55-60 | a SKU is a key of the map exactly when some line is an entry for it |
| WpCode.ParseLastWins | script-for-wpcode.php:60 | the value stored for a SKU is the descriptor of its last entry line |
| WpCode.ParseIgnoresBlankLines | script-for-wpcode.php:50-52 | removing skipped lines changes neither the map nor `$current_product` |
| WpCode.ParseNoContext | script-for-wpcode.php:61-64 | `$current_product` stays "" when every line is skipped or an entry |
| WpCode.ParseLastContext | script-for-wpcode.php:61-64 | `$current_product` is the text of the last line that is neither skipped nor an entry |
| WpCode.ExtractColorNumber | script-for-wpcode.php:164-177 | a colour number exists exactly when the descriptor starts with a digit, and it is the maximal leading digit run with leading zeros kept |
| WpCode.ColorNumberIsDigitRun | script-for-wpcode.php:166-173 | both rules return the maximal leading digit run, whatever follows it |
| WpCode.ColorNumberOfRest | script-for-wpcode.php:171-173 | the colour number of the rest of a line from a run of digits onward is that run |
| WpCode.ColorNumberZero | script-for-wpcode.php:113 | "0 / White" yields "0", which the truth test rejects; "White" yields nothing |
| WpCode.ExtractModelName | script-for-wpcode.php:149-159 | with a `Drops\s+[^,\s]` match the model is non-empty and holds no ',' and no whitespace; `WpCode.ModelNameAfterMarker` and `WpCode.ModelNameWithoutMarker` pin it in both cases |
| WpCode.FindDrops | script-for-wpcode.php:151 | the leftmost position where `Drops\s+` can be followed by a `[^,\s]` character, or nothing |
| WpCode.DropsAtMarker | script-for-wpcode.php:151 | a `Drops\s+` match at a position starts its token exactly after the whole whitespace run |
| WpCode.ModelNameWithoutMarker | script-for-wpcode.php:155-158 | without a `Drops\s+[^,\s]` match, the fallback rule gives the result |
| WpCode.ModelNameAfterMarker | script-for-wpcode.php:151-153 | with a leftmost match, the result is the whole `[^,\s]` run after its whitespace |
| WpCode.ModelNameExample | script-for-wpcode.php:151-153 | "Drops Soft Tweed" gives "Soft" |
| WpCode.NoMarkerWithoutD | script-for-wpcode.php:151 | a name without the letter 'D' holds no `Drops` match |
| WpCode.ModelNameFallbackExample | script-for-wpcode.php:157-158 | "BrandX Soft" gives "Soft" |
| WpCode.StarDotStar | script-for-wpcode.php:276-277 | a name matching `N*.*` starts with the colour number and is longer than it (the '.' comes after it) |
| WpCode.Candidates | script-for-wpcode.php:276-277 | the candidates are exactly the listed entries that match `N*.*`; `Php.FilterAppend` keeps them in listing order |
| WpCode.CandidatesExample | script-for-wpcode.php:276-277 | `01*.*` lists "010.jpg" and "01-2.jpg" in listing order, and not "01" |
| WpCode.VariationLog | script-for-wpcode.php:84-136 | one variation never adds a summary line; `WpCode.VariationOutcome` gives the skip and colour-failure cases, `WpCode.ColorNumberMissingLine` the missing colour number, and `WpCode.VariationSucceeds` when a success line appears |
| WpCode.VariationOutcome | script-for-wpcode.php:84-136 | at most one log line per variation; none exactly when it is not loaded, its SKU is empty or "0", or it is not in the map; a failed colour update gives that one line whatever the images and the assignment would be |
| WpCode.VariationSucceeds | script-for-wpcode.php:84-124 | a variation logs a success line, and so is counted, exactly when it is loaded, has a non-empty SKU the map knows, its colour update succeeds, its descriptor gives a truthy colour number, an image is found and the assignment succeeds |
| WpCode.ColorNumberMissingLine | script-for-wpcode.php:110-135 | after a successful colour update, a descriptor without a truthy colour number (none, or "0") gives exactly the missing-colour-number line |
| WpCode.ZeroColorNumberIsMissing | script-for-wpcode.php:110-135 | a variation whose descriptor is "0 / White" gets the missing-colour-number line |
| WpCode.ProcessVariation | script-for-wpcode.php:81-136 | one variation's handling appends `VariationLog`, and reports a success exactly when that holds a success line |
| WpCode.ProcessProduct | script-for-wpcode.php:80-137 | the inner loop appends the log of every variation in order and counts its successes |
| WpCode.UpdateVariations | script-for-wpcode.php:73-140 | the log is every variation's lines in catalog order followed by the summary, and `$processed_count` is the number of success lines |
| WpCode.UpdateProductVariationsWithColors | script-for-wpcode.php:27-144 | a missing file gives the one error message; otherwise the report is the variation log of the file's map followed by the summary |
| Matcher.MatchEntry | wc-color-image-matcher.php:38-40 | a match has a non-empty SKU that is a prefix of the line, followed by at least one more character |
| Matcher.MatchEntryHasShape | wc-color-image-matcher.php:38 | a match comes from an entry shape: SKU, whitespace, digits, whitespace, '/' |
| Matcher.MatchEntryOfShape | wc-color-image-matcher.php:38-41 | any entry shape determines the match: its SKU and colour number |
| Matcher.MatchEntrySpec | wc-color-image-matcher.php:38-41 | a line matches exactly when it has the entry shape, and every shape gives the same SKU and colour number |
| Matcher.ColorInfoKeepsSeparator | wc-color-image-matcher.php:42 | the colour information drops the SKU and one character; the rest of the separator stays at its front, followed by the colour number and the '/' |
| Matcher.ClassifyLine | wc-color-image-matcher.php:29-42 | a line is skipped exactly when its trimmed text is "" or "0"; an entry carries the match of the trimmed text and what follows its SKU and one more character; any other line carries its trimmed text, which is neither skipped nor an entry |
| Matcher.Classify | wc-color-image-matcher.php:28-81 | one classification per line of the file |
| Matcher.FindVariation | wc-color-image-matcher.php:45-47 | a variation is found exactly when the SKU has a non-zero id, and the id found is that one |
| Matcher.ExtractModelName | wc-color-image-matcher.php:92-97 | without a space the model is the whole name; with one, it is what follows the first space |
| Matcher.BraceMatch | wc-color-image-matcher.php:209 | every name matching `N{,.*,-*.*}` starts with the colour number |
| Matcher.BraceGlob | wc-color-image-matcher.php:209 | the matches of `N`, then of `N.*`, then of `N-*.*`, each in listing order (no contract; `Matcher.BraceGlobMembers` states its members and `Php.FilterAppend` the order within each part) |
| Matcher.BraceGlobMembers | wc-color-image-matcher.php:209 | the candidates are exactly the files named `N`, `N.` and anything, or `N-` and anything holding a '.' |
| Matcher.BraceMatchExamples | wc-color-image-matcher.php:208-209 | for "01": "01", "01.jpg" and "01-2.jpg" are candidates; "010.jpg" and "01-2" are not |
| Matcher.ModelNameExample | wc-color-image-matcher.php:93-96 | "Drops Soft Tweed" gives "Soft Tweed" |
| Matcher.EntryLog | wc-color-image-matcher.php:40-77 | every entry line adds one or two log lines, none of them a summary |
| Matcher.EntryOutcome | wc-color-image-matcher.php:45-77 | a missing variation gives exactly the "not found" line; otherwise the image outcome line comes last, preceded by the colour failure exactly when the colour update failed, and the image outcome does not depend on the colour update |
| Matcher.EntrySucceeds | wc-color-image-matcher.php:45-71 | an entry logs a success line, and so is counted, exactly when its variation is found, an image is found and the assignment succeeds, whatever the colour update gives |
| Matcher.NoContext | wc-color-image-matcher.php:78-81 | `$current_product` stays "" while every line is skipped or an entry |
| Matcher.LastContext | wc-color-image-matcher.php:78-81 | `$current_product` is the last line that is neither skipped nor an entry |
| Matcher.EntryUsesLatestContext | wc-color-image-matcher.php:60-63 | each entry's log lines are computed from the most recent preceding product line, or from "" when there is none |
| Matcher.LogOnlyGrows | wc-color-image-matcher.php:48-80 | the log only grows, and only entry lines add to it |
| Matcher.ProcessEntry | wc-color-image-matcher.php:40-77 | one entry's handling appends `EntryLog` and counts its success lines |
| Matcher.ProcessLines | wc-color-image-matcher.php:23-84 | the streaming loop's log is the fold of the classified lines followed by the summary, and `$processed_count` is the number of success lines |
| Matcher.UpdateProductVariationsWithColors | wc-color-image-matcher.php:7-87 | a missing file gives the one error message; otherwise the report is the streamed log followed by the summary |
| Variants.StrictEntryIsEntry | wc-color-image-matcher.php:38 | every line the strict pattern accepts, the loose pattern of the other script accepts, with the same SKU, and its colour number is the one captured |
| Variants.HyphenatedSku | script-for-wpcode.php:55 | "AB-1 01 / Black" is an entry only for the map-building script |
| Variants.ModelNamesDiffer | wc-color-image-matcher.php:92-97 | "Drops Soft Tweed" gives "Soft" in one script and "Soft Tweed" in the other |
| Variants.GlobsDiffer | wc-color-image-matcher.php:209 | for "01", "010.jpg" is a candidate only of `01*.*`, and "01" only of the brace pattern |

## Left out

- `update_variation_color` in both files: the taxonomy, term and post-meta calls and `$parent->save()` are WordPress calls. Their result is an input boolean.
- `assign_image_to_variation`: the temporary copy, `media_handle_sideload`, `unlink` and the `_thumbnail_id` meta are filesystem and media I/O. Its result is an input boolean.
- `write_log`: an append to a file with a timestamp, so I/O and the clock. Only the returned `$log` is modelled, so the messages written only to the file are absent (the missing root, the missing model directory, the empty glob).
- `find_variation_by_sku`: an SQL query. It is an input map.
- `wc_get_products`, `get_available_variations` and `wc_get_product`: the catalog is an input sequence of products and variations.
- `file_exists` and `file_get_contents`: the file is an optional input text. A read failure for an existing file is not modelled.
- `echo`, `run_color_matcher` and the `ABSPATH` paths: output and configuration.
- `glob`, `is_dir` and `filesize`: the listing is an input in the order given. The model leaves out glob's sort order, hidden files, directories among the matches, a failed glob, and `filesize` returning false.
- The message text and the `implode("\n", $log)` into one string: log lines are datatypes.
- Php.StrIPos: with an empty needle it matches at 0, as in PHP 8. Older PHP versions return false there, and the model makes no claim about an empty model name.
- Php.StrIPos: case folding is ASCII only. `stripos` does not fold Cyrillic either.
- Strings are sequences of characters, not bytes. Positions are counted in characters, so after Cyrillic text they differ from PHP's byte offsets. The pieces cut out are the same strings: every cut falls at an ASCII character (a line feed, a space, the `Drops` marker, a class boundary), and UTF-8 never puts an ASCII byte inside a multi-byte character. The one cut made by a count, `substr($line, strlen($sku) + 1)`, follows an ASCII SKU at the start of the line.
- The candidate pattern: both scripts paste the found directory's path into the glob pattern unescaped, so a directory name holding `*`, `?`, `[` or `]` (and, under GLOB_BRACE, `{` or `}`) is read as a pattern. The model applies the glob to the directory's entries and so assumes that directory names hold no glob metacharacters. For a directory such as `Soft [2024]`, PHP lists no candidates and finds no image, while the model finds one.
