# Font manager registry engine, in Dafny

This project models the engine of a Windows font manager (`font_manager.py`)
and the list and batch logic its window builds on top of it. The engine is the
`FontManager` class. It lists the fonts registered under the machine hive and
the user hive of the `Fonts` registry key. It installs a font by copying the
file into the scope's font directory, writing one registry value and
broadcasting a font-change message. It uninstalls a font by deleting the
value, removing the file and broadcasting again.

Module layout:

- `sequences.dfy` (`Sequences`): an `Option` type and the order-preserving
  subsequence relation.
- `paths.dfy` (`Paths`): the string and Windows-path primitives the engine
  calls:
  - `lower`, `isabs`, `join`, `basename`, `splitext` and `strip`;
  - substring search, for `in` and `split(sep)[0]`.
- `catalog.dfy` (`Catalog`): specifies the font list the enumerator returns,
  as a function of the registry values read from each hive and of the
  existing files, and proves its properties:
  - membership and absence of duplicates;
  - completeness, and that the system hive wins;
  - classification by path;
  - sort order and stability.
- `manager.dfy`:
  - `FontRegistry`: the registry value operations, with names matched
    without regard to case as the registry does. The operating-system state
    `Os` holds both hives, the existing files and a count of the broadcasts
    sent. `InstallStep` and `UninstallStep` specify `install_font` and
    `uninstall_font` as functions on that state, and their case lemmas state
    every branch. The `FontManager` class holds the directories and that
    state in fields; each of its methods is proved to leave exactly the
    reply and state the step function gives.
  - `FontLifecycle`: what a successful install or uninstall means for the next
    listing, and an install / list / install again / uninstall / list scenario
    chained through the class.
- `gui.dfy` (`FontManagerGui`): the window's logic with no widgets:
  - the tab and search filters;
  - the status line;
  - the family-name suffix strip of the preview;
  - the batch install and batch uninstall loops. Each is specified by a run
    function that applies the engine's step to each item in the state the
    items before it left. Lemmas state one item's outcome and the effects
    of a whole run. The tallies and the summary dialog text follow from the
    outcomes.

Operating-system effects are explicit:

- The file system is the set of lower-cased paths that exist, so existence is
  case-insensitive as on Windows.
- A hive is the sequence of its `(name, data)` values in enumeration order.
- Each fallible operating-system call gets an `Option<Fault>` argument. `None`
  means the call succeeds. `Some` gives the exception it raises: a permission
  error, a not-found error, or any other error with its text.
- A hive enumeration is given the number of values it delivers before
  `EnumValue` raises; 0 stands for a key that fails to open.
- The environment variables `WINDIR` and `LOCALAPPDATA` are constructor
  arguments.

The model keeps these behaviours of the code as written:

- `RegistryName` annotates only `.ttf` (" (TrueType)") and `.otf`
  (" (OpenType)") files. A `.ttc` file is registered under its bare stem.
- The status line calls the tab "系统字体" only when the tab is `"system"`.
  The filter keeps user fonts only when the tab is `"user"`. Any other tab
  value therefore shows system fonts under a "用户字体" status line.
  `TabScope` and `StatusTypeText` keep both tests.
- When `os.remove` raises a not-found error, uninstall reports "注册表项不存在"
  even though the registry value has already been deleted. `UninstallStep`
  keeps that deletion.
- After a failed registry write, install leaves the copied file in place.
  `InstallStep` keeps the file.
- Uninstall joins the stored file name to the scope directory without the
  `isabs` test the listing applies. `UninstallStep` does the same, so an
  absolute value's file is reached through `join`'s own rule for absolute
  names.

## Model

| member | source | states |
|---|---|---|
| `FontRegistry.FontManager.constructor` | font_manager.py:25-34 | The system font directory is `WINDIR\Fonts`. The user font directory is `LOCALAPPDATA\Microsoft\Windows\Fonts`, and that directory exists afterwards. The hives are the given ones, and no broadcast has been sent. |
| `FontRegistry.FontManager.NotifyFontChange` | font_manager.py:214-227 | Exactly one font-change broadcast is added and nothing else changes. A failing broadcast is swallowed, so it never alters the caller's outcome. |
| `FontRegistry.EnumValue` | font_manager.py:47-50 | Enumeration index `i` yields a value exactly when `i` is below the number of values readable before the first error, and then yields the value at that position. |
| `FontRegistry.FontManager.ScanHive` | font_manager.py:47-70 | One `while True` loop over a hive. The fonts list and the key set it leaves equal the deduplicating scan specification, run over the candidates of the readable values. |
| `FontRegistry.FontManager.GetInstalledFonts` | font_manager.py:36-106 | The returned list is exactly the catalog: scan the machine hive, then the user hive, from one shared key set, then sort by name. |
| `Catalog.Resolve` | font_manager.py:51 | The path a stored value refers to: the value itself when absolute, else joined to the hive's directory. A definition; `Catalog.CandidateOrigin`, `Catalog.RelativeSystemValueIsSystem` and `Paths.JoinBelow` state its properties. |
| `Catalog.Classify` | font_manager.py:56 | System type exactly when the lower-cased path starts with the lower-cased system directory. A definition; `Catalog.CatalogRecordsResolved` states that every listed record is typed this way. |
| `Catalog.FontCatalog` | font_manager.py:36-106 | The list the enumerator returns: the kept candidates of the system hive, then of the user hive, sorted by name. A definition; the `Catalog` lemmas below state its membership, keys, completeness, types and order. |
| `Catalog.SortByName` | font_manager.py:106 | Insertion by name where earlier records win ties. A definition; `Catalog.SortByNameCorrect` states that it is Python's stable sort. |
| `Catalog.Readable` | font_manager.py:44-72 | The values a failing enumeration delivers are a prefix of the hive, and the whole hive when nothing fails. |
| `Catalog.ScanSnoc` | font_manager.py:48-68 | Enumerating one more value is exactly one more step of the scan. |
| `Catalog.CatalogMembers` | font_manager.py:51-66 | A record is listed exactly when it is the first existing candidate with its `(name, lower(path))` key, in scan order with the system hive first. |
| `Catalog.CatalogUniqueKeys` | font_manager.py:57-66 | No two listed records share a `(name, lower(path))` key. A font registered in both hives at the same path appears once. |
| `Catalog.CatalogRecordsResolved` | font_manager.py:51-56 | Every listed file exists. Its type is decided by the system-directory prefix of its path, not by the hive. It comes from a value of one hive: the data taken verbatim when absolute, otherwise joined to that hive's directory. |
| `Catalog.CandidateOrigin` | font_manager.py:51-56 | Each scan candidate carries the name and data of a value of one of the two hives, with the path resolved against that hive's directory and the type classified by path. |
| `Catalog.CatalogComplete` | font_manager.py:51-66 | Every value of either hive whose resolved file exists is represented by a listed record with its key. Only stale values are excluded. |
| `Catalog.SystemValueListed` | font_manager.py:51-66 | An existing system-hive value at any position is represented in the list. |
| `Catalog.UserValueListed` | font_manager.py:82-98 | An existing user-hive value at any position is represented in the list. |
| `Catalog.SystemHiveWins` | font_manager.py:88-91 | When a system-hive value and a user-hive value share a key, the listed record for that key comes from the system hive. |
| `Catalog.RelativeSystemValueIsSystem` | font_manager.py:51-56 | A relative value of the system hive without a drive always gives a record of system type. |
| `Catalog.DriveRelativeSystemValueIsUser` | font_manager.py:51-56 | When the system directory has a drive, a system-hive value naming another drive without a root ("D:arial.ttf") is not joined to that directory: its record keeps the value as its path and is of user type. |
| `Catalog.CatalogOrder` | font_manager.py:106 | The list is sorted by name. Records with equal names keep the order the scan kept them in, which follows enumeration order. The kept records are a subsequence of the candidates. |
| `Catalog.SortByNameCorrect` | font_manager.py:106 | `sorted(..., key=name)` gives a name-ordered permutation of its input. It is stable, because for every name the records with that name keep their order, and it keeps keys unique. |
| `Catalog.ScanKeepsFirstOccurrences` | font_manager.py:57-66 | The key set holds the keys of all existing candidates; the list holds exactly the first existing candidate of each key, once each, in candidate order. |
| `Catalog.FirstOfKeyKept` | font_manager.py:59-66 | Every existing candidate has a kept first candidate with the same key. |
| `FontRegistry.InstallScope` | font_manager.py:125-134 | The machine scope is chosen exactly when the install type is `"system"`; every other value means the user scope. |
| `FontRegistry.UninstallScope` | font_manager.py:181-188 | The machine scope is chosen exactly when the font type is "系统字体"; every other value means the user scope. |
| `FontRegistry.TypeNameSelectsScope` | font_manager.py:129-134 | The type name an install reports selects, when passed back to uninstall, the scope the install used. |
| `FontRegistry.RegistryName` | font_manager.py:147-153 | The value name starts with the file's stem, and is 11 characters longer exactly for `.ttf` and `.otf`, the length of " (TrueType)" and " (OpenType)". |
| `FontRegistry.DriveRelativeSourceExt` | font_manager.py:118-119 | The extension check reads the extension of a drive-relative source such as "C:.ttf" as ".ttf", so such a file is accepted. |
| `FontRegistry.InstallErrorMessage` | font_manager.py:164-170 | A permission error gives the administrator message exactly for a system install and "权限不足" otherwise. Any other exception gives "安装失败: " and its text. |
| `FontRegistry.InstallErrorNeverSuccess` | font_manager.py:162-170 | No failure message of install equals its success message. |
| `FontRegistry.UninstallErrorMessage` | font_manager.py:204-212 | A permission error gives the administrator message exactly for system fonts and "权限不足" otherwise. A not-found error gives "注册表项不存在". Any other exception gives "卸载失败: " and its text. |
| `FontRegistry.UninstallErrorNeverSuccess` | font_manager.py:202-212 | For the two type names the window passes, no failure message of uninstall equals its success message. |
| `FontRegistry.StoredName` | font_manager.py:156-157 | The name a write ends up under matches the written name without regard to case, and is the written name itself when no value matches. |
| `FontRegistry.SetValue` | font_manager.py:156-157 | `SetValueEx` stores the data under the stored name. Every value whose name differs from the written one, ignoring case, is kept, and no other value appears. |
| `FontRegistry.SetValueDistinct` | font_manager.py:156-157 | Writing a value keeps the names in a key distinct without regard to case. Afterwards the only value matching the written name is the stored one with the new data. |
| `FontRegistry.SetValueKeeps` | font_manager.py:156-157 | Writing a value never makes an existing name disappear. |
| `FontRegistry.DeleteValue` | font_manager.py:191-192 | `DeleteValue` keeps exactly the values whose names differ from the given one, ignoring case, in their order. |
| `FontRegistry.DeleteValueDistinct` | font_manager.py:191-192 | Deleting a value keeps the names in a key distinct. |
| `FontRegistry.InstallStep` | font_manager.py:108-170 | An install never changes the other scope's hive and never removes a file. A failure leaves both hives unchanged. Exactly a success sends one broadcast. |
| `FontRegistry.InstallStepCases` | font_manager.py:114-170 | The three checks come in order: a missing source, then an unsupported extension, then an existing target. Each fails with its message and no change. A copy fault then changes nothing. A write fault leaves the copied file. Success happens exactly when all checks pass and nothing faults. It writes `(stem + annotation, file name)` into the scope's hive, adds the target file and reports the scope's type name. |
| `FontRegistry.InstallStepValid` | font_manager.py:142-157 | An install keeps the value names of both hives distinct. |
| `FontRegistry.UninstallStep` | font_manager.py:172-212 | An uninstall never changes the other scope's hive and never adds a file. Exactly a success sends one broadcast. |
| `FontRegistry.UninstallStepCases` | font_manager.py:179-212 | A delete fault, or a value that is not there, fails with its message and no change. Otherwise the value is deleted first. A remove fault on an existing file then fails, keeping the file and the deletion. Success happens exactly when the value was deleted and the file was absent or removed. Success reports `font_type + "卸载成功"` and the file is gone. |
| `FontRegistry.UninstallStepValid` | font_manager.py:190-192 | An uninstall keeps the value names of both hives distinct. |
| `FontRegistry.FontManager.InstallFont` | font_manager.py:108-170 | The reply and the new state of the fields equal `InstallStep` on the old state, and the value names stay distinct. |
| `FontRegistry.FontManager.CopyAndRegister` | font_manager.py:142-170 | The reply and the new state equal the `try` block's step on the old state: copy, then write, then notify. |
| `FontRegistry.FontManager.UninstallFont` | font_manager.py:172-212 | The reply and the new state of the fields equal `UninstallStep` on the old state, and the value names stay distinct. |
| `FontLifecycle.InstalledFontListed` | font_manager.py:136-158 | After a value of the install's shape is written into either scope's hive and its file copied, the next listing has a record with key `(stored name, lower(target))`. |
| `FontLifecycle.ReinstallRefused` | font_manager.py:136-140 | After a successful install into a scope, installing any existing supported file with the same base name into the same scope fails with "字体已存在于" plus the type name and changes nothing, whatever faults either call meets. |
| `FontLifecycle.InstalledUserFontRecord` | font_manager.py:130-158 | After a user-scope install, unless a machine value of the same name already refers to the same file, the next listing has the new record itself: its stored name, the plain file name, the joined target path, and the type from the path. |
| `FontLifecycle.UninstalledFontGone` | font_manager.py:190-198 | After the value is deleted and its file removed, no listed record refers to that file. Any listed record whose name matches, ignoring case, comes from the other hive. |
| `FontLifecycle.InstallListUninstall` | font_manager.py:36-212 | A fault-free user round trip through the class: install, list, install again, uninstall, list. The install succeeds exactly when its checks pass. If it does, the listing has the new key, and the new record unless a machine value of that name refers to the same file. The second install reports that the font already exists. The uninstall succeeds, the file no longer exists, the last listing has no record for it, and two broadcasts were sent. |
| `FontManagerGui.SelectSound` | font_manager.py:723-733 | A list comprehension's result is an order-preserving subsequence of its input, holding exactly the accepted records. |
| `FontManagerGui.SelectKeepsAll` | font_manager.py:730-735 | A comprehension keeps every record exactly when it accepts every record. |
| `FontManagerGui.FilterFonts` | font_manager.py:719-737 | The tab's records, narrowed by the lower-cased search when it is not empty. A definition; `FontManagerGui.FilterFontsCorrect` states what it keeps. |
| `FontManagerGui.FilterFontsCorrect` | font_manager.py:719-737 | The filtered list is a subsequence of the tab's fonts and of all fonts. A record is shown exactly when its type is the tab's and either the search is empty or the lower-cased search occurs in its lower-cased name or file. An empty search shows the whole tab. |
| `FontManagerGui.StatusText` | font_manager.py:705-717 | The "共 N 个" or "显示 N 个…（共 M 个）" line. A definition; `FontManagerGui.StatusLineCorrect` states when each form is shown. |
| `FontManagerGui.StatusLineCorrect` | font_manager.py:705-717 | The status line starts with "共" exactly when the search hides none of the tab's records, and then reads "共 N 个" plus the type. |
| `FontManagerGui.NatToStringValue` | font_manager.py:715-717 | The decimal text of a count reads back as that count. |
| `FontManagerGui.NatToStringInjective` | font_manager.py:715-717 | Different counts give different texts. |
| `FontManagerGui.StripFirstSuffix` | font_manager.py:799-803 | The text before the first listed suffix that occurs, stripped, or the name itself. A definition; `FontManagerGui.StripFirstSuffixOf` and `FontManagerGui.FirstSuffixIs` state its properties. |
| `FontManagerGui.StripFirstSuffixOf` | font_manager.py:799-803 | For a list of non-empty suffixes, as `split` requires, the loop cuts the name before the first listed suffix it contains and strips whitespace. It stops at the first match in list order, and keeps the name when no suffix occurs. |
| `FontManagerGui.FamilyNameOf` | font_manager.py:799-803 | The preview's family name, taken with the fixed ordered suffix list. |
| `FontManagerGui.FirstSuffixIs` | font_manager.py:800-803 | The first matching suffix is the earliest one in list order that occurs in the name. |
| `FontManagerGui.FamilyNameOfRegistryName` | font_manager.py:147-153 | For a stem without "(" or " & ", the family name recovered from the registry name install writes is the stripped stem for .ttf and .otf, and the bare stem otherwise. |
| `FontManagerGui.TallyOf` | font_manager.py:915-921 | The counters and error list after a sequence of outcomes. A definition; `FontManagerGui.TallySnoc` and `FontManagerGui.TallyCounts` state its properties. |
| `FontManagerGui.TallySnoc` | font_manager.py:915-921 | Handling one more item adds one to exactly one counter, and a failure appends its `basename: message` line. |
| `FontManagerGui.TallyCounts` | font_manager.py:915-921 | Successes plus failures equal the number of items. There is one error line per failure. No failures happen exactly when every item succeeded. The error lines are exactly `basename: message` of the failed items. |
| `FontManagerGui.Summary` | font_manager.py:927-933 | The success line, followed by the failure count and the error details when anything failed. A definition; `FontManagerGui.SummaryOfTally` states its properties. |
| `FontManagerGui.SummaryOfTally` | font_manager.py:927-933 | The dialog text is the bare success line exactly when every item succeeded. Otherwise the details show the first five error lines and count the rest. |
| `FontManagerGui.InstallRun` | font_manager.py:911-921 | One outcome per chosen file, labelled with its base name. |
| `FontManagerGui.InstallRunItem` | font_manager.py:911-921 | Outcome `i` is what `install_font` returns for file `i` in the state the files before it left. |
| `FontManagerGui.InstallRunEffects` | font_manager.py:911-921 | A whole install batch keeps value names distinct, sends one broadcast per success, removes no file and no value name, and leaves the other scope's hive untouched. Every successful file is still installed at the end. |
| `FontManagerGui.InstallLoop` | font_manager.py:911-921 | The outcomes and the state the loop leaves equal the install run over all chosen files, from the state before the loop. The tally is the tally of those outcomes. |
| `FontManagerGui.InstallBatch` | font_manager.py:894-938 | No install type or no files means nothing happens. Otherwise the outcomes and state are the install run over every file, and the summary text and the dialog kind follow the tally: an error dialog exactly when nothing succeeded. |
| `FontManagerGui.UninstallRun` | font_manager.py:1013-1025 | One outcome per selected row, labelled with its name. |
| `FontManagerGui.UninstallRunItem` | font_manager.py:1013-1025 | Outcome `i` is what `uninstall_font` returns for row `i`, always as a user font, in the state the rows before it left. |
| `FontManagerGui.UninstallRunEffects` | font_manager.py:1013-1025 | A whole uninstall batch keeps value names distinct, sends one broadcast per success, never changes the machine hive, and only removes user values and files. Every successful row is gone from the user hive and the disk at the end. |
| `FontManagerGui.UninstallLoop` | font_manager.py:1013-1025 | The outcomes and the state the loop leaves equal the uninstall run over all selected rows, from the state before the loop. The tally is the tally of those outcomes. |
| `FontManagerGui.UninstallBatch` | font_manager.py:954-1044 | An empty selection warns. The system tab is refused with its message. A declined confirmation cancels. None of these changes anything. Otherwise the outcomes and state are the uninstall run over every row, with a summary and dialog as for install. |
| `Paths.Lower` | font_manager.py:56-57 | The lower-cased text has the same length, and each character is the lower-cased character at the same position. |
| `Paths.IsAbs` | font_manager.py:51 | `ntpath.isabs`: a root separator after an optional drive. A definition; `Paths.BasenameRelative` and `Paths.JoinBelow` use it. |
| `Paths.Join` | font_manager.py:51 | Two-argument `ntpath.join`. A definition; `Paths.JoinBelow` states where a relative name lands, and `Catalog.DriveRelativeSystemValueIsUser` where a name on another drive does. |
| `Paths.JoinBelow` | font_manager.py:51 | A relative value without a drive joined to a directory is that directory plus the name, with one backslash at most in between, so it lies under the directory case-insensitively. |
| `Paths.NameStart` | font_manager.py:122 | The position where the last path component starts; no separator follows it. |
| `Paths.Basename` | font_manager.py:122 | The base name holds no separator. |
| `Paths.BasenameSuffix` | font_manager.py:122 | The base name is a suffix of the path. Either it is the whole path, or a separator precedes it, or it follows a drive with no separator anywhere in the path. |
| `Paths.BasenameRelative` | font_manager.py:122 | A base name is never an absolute path, so install always stores a relative value. |
| `Paths.SplitExt` | font_manager.py:118 | The stem and the extension concatenate back to the path. A non-empty extension starts at the last dot, after the last separator, with a non-dot between that separator and the dot, and holds no other dot and no separator. An empty extension means every dot after the last separator has only dots before it there. A drive is not skipped. |
| `Paths.Strip` | font_manager.py:802 | `str.strip()` gives a slice of its input with only whitespace around it, and neither starts nor ends with whitespace. |
| `Paths.StripIdempotent` | font_manager.py:802 | Stripping an already stripped text changes nothing. |
| `Paths.ContainsIff` | font_manager.py:732 | `t in s` holds exactly when `t` occurs at some index of `s`. |

## Left out

- The Tk window is not modelled: its widgets, layout, tree view, preview rendering, menus, the "select all" action and the window's fonts.
- Font preview rendering through PIL is not modelled.
- `_load_fonts` runs the scan on a worker thread. The model treats the scan as the sequential call it makes; threading and the UI callbacks are not modelled.
- `NotifyFontChange` counts broadcasts. The `ctypes` call to `SendMessageTimeoutW` with its five-second timeout, and the diagnostic it prints on failure, are not modelled; the exception is swallowed in the source, so the count is all a caller sees.
- Administrator detection (`IsUserAnAdmin`) and any relaunch with elevation are not modelled; a privilege failure is the `PermissionFault` input.
- `GetInstalledFonts`: the `print` of a registry read error is not modelled. A key that fails to open is modelled as a hive with 0 readable values.
- `FontRegistry.FontManager.constructor`: `os.makedirs` is reduced to adding the user font directory to the existing paths. Missing parent directories and the errors `makedirs` may raise are not modelled. The environment variables are arguments.
- `FontRegistry.FontManager.InstallFont`: `shutil.copy2` is reduced to adding the target path to the existing files. File contents and metadata are not modelled. A copy fault leaves the files as they were, whereas a `copy2` that fails part way, or fails in `copystat` after copying, can leave the target file behind.
- `FontRegistry.SetValue`: names are matched with the ASCII-only `Lower`, so non-ASCII names that differ only in case count as different. An overwrite keeps the stored spelling and position, and a new value goes at the end. Windows does not specify the enumeration order after a write, so the catalog's order lemmas only assume the order they are given.
- `FontRegistry.DeleteValue`: names are matched with the ASCII-only `Lower`, as for `SetValue`.
- `Paths.IsAbs`: follows `ntpath.isabs` up to Python 3.12, where a rooted path without a drive ("\\x") is absolute. From Python 3.13 such a path is not absolute, which would change `Resolve` and `Classify` for rooted values without a drive.
- `Paths.Lower`: case folding covers ASCII letters only. Non-ASCII case mappings of `str.lower()` are not modelled.
- `Paths.Join`: two-component `ntpath.join`. A rooted name keeps only a drive-letter drive of the directory, not a UNC drive. UNC normalisation and the path normalisation of `os.path.exists` are not modelled.
- The install-type dialog of `_install_font` is the `Option<string>` argument, and the file dialog is the sequence of chosen paths. The uninstall confirmation dialog and its text (lines 987-1010) are the `confirmed` argument.
- The counts `system_count` and `user_count` computed in `_update_tree` are never used in the source and are not modelled.
- The values of one key never have names that differ only in case, as the registry matches names without regard to case. This is `ValidOs`: the constructor requires it of the given hives, and every method of the class requires and preserves it.
- `_load_fonts`, called after each batch to refresh the list, is `GetInstalledFonts` again; the batch methods return their outcomes and leave re-listing to the caller, as `InstallListUninstall` does.
