# Asset Backup for Unity, modelled in Dafny

Asset Backup is a Unity editor extension. Just before Unity saves an asset
under `Assets/`, the extension copies the file's current version into a
parallel `Backups/` tree. The copy's name ends in a timestamp token
`(Y-MM-DD-hh-mm-ss)` taken from the file's last-write time. A restore window
lists an asset's backups and puts a chosen one back with a single
`File.Replace`. That call keeps the displaced version as one more backup.
Two settings, "disabled" and "max backups per asset", are read lazily from
the editor's preference store and cached.

The model has these parts:

- **Strings, numerals and dates.** The .NET calls the engine relies on are
  written as Dafny functions: `StartsWith`, `LastIndexOf`, `Split`, `Trim`,
  `Path.Combine`, `Path.GetDirectoryName`, the `"00"` number format,
  `int.Parse` with its 32-bit range, and the `DateTime` constructor's range
  checks (modules `Strings`, `Numerals`, `DateTimes`).
- **The timestamp codec** (`TimestampCodec`). This covers formatting a token
  and parsing it back, which is the engine's only parsing.
- **The disk** (`Files`). `FsSnapshot` is the disk as a value: full paths
  mapped to byte contents and last-write times, plus the set of existing
  directories. `FileSystem` is the same disk as a mutable object, updated in
  place by the `System.IO` calls the engine makes.
- **The engine** (`AssetBackup`). It covers making a backup, the save hook,
  the move hook, listing, parsing the listing and restoring. Each method
  that changes the disk is proved equal to a function on snapshots. The
  engine's properties are proved as lemmas about those functions.
- **Listing order** (`Ordinal`, `TimestampOrder`). The listing is sorted in
  ordinal order. For one asset's backups this is chronological order.
- **The settings** (`AssetBackupPreferences`). Each cached preference is a
  class whose getter fills the cache once and whose setter writes through to
  the store.

`ProjectPath` is the fixed absolute path `/home/user/Project`. In Unity it is
the folder that holds `Assets/`.

Where the code and its stated intent differ, the model follows the code:

- Nothing evicts old backups: `maxBackupsPerAsset` is stored but never read
  by the engine.
- A restore moves the chosen backup onto the asset, so that backup is gone
  from its own name. The displaced version is kept under a new backup name,
  and `File.Replace` overwrites any file already at that name.
- The `Debug.Assert` in `FormatBackupPathWithoutTimestamp` only logs. So an
  untracked path of at least 7 characters, such as `Packages/x.png`, still
  gets a listing: its first 7 characters are cut off and the rest is looked
  up under `Backups/`.
- The move hook relocates nothing.
- The save hook does not look at the "disabled" setting.
- A backup name that does not parse makes the whole enumeration throw. It is
  not skipped.

## Model

| member | source | states |
|---|---|---|
| `AssetBackup.HasAssetPathRoot` | AssetBackup.cs:45-48 | Null is never tracked. A tracked path is at least as long as `Assets/`, so the `Substring` at line 88 does not throw for it. |
| `AssetBackup.HasAssetPathRootIff` | AssetBackup.cs:43-48 | An asset path is tracked exactly when it is non-null and is `Assets/` followed by some string. Null and everything else are rejected. |
| `AssetBackup.FormatBackupPathWithoutTimestamp` | AssetBackup.cs:85-90 | The backup stem is the backup root `ProjectPath/Backups/` followed by the asset path with its `Assets/` root removed. |
| `AssetBackup.BackupStemOfTrackedPath` | AssetBackup.cs:85-90 | `Assets/` + s maps to `ProjectPath + "/Backups/" + s`. |
| `AssetBackup.BackupStemInjective` | AssetBackup.cs:85-90 | On tracked paths, two assets share a backup stem if and only if they are the same asset. |
| `AssetBackup.GetShortBackupPath` | AssetBackup.cs:80-83 | The short path of a path under `ProjectPath/` is the part that `Path.Combine(ProjectPath, ·)` turns back into the full path. |
| `AssetBackup.ShortBackupPath` | AssetBackup.cs:74-75 | A backup's short path is `Backups/`, then the asset's path below `Assets/`, then the token. |
| `AssetBackup.BackupPath` | AssetBackup.cs:62-64 | A backup path lies under the backup root and starts with the asset's listing prefix. Its last `(` is the one that opens the timestamp token. |
| `AssetBackup.BackupPathPrefix` | AssetBackup.cs:196-197 | The listing prefix lies under the backup root and ends in `(`. |
| `AssetBackup.SourcePath` | AssetBackup.cs:57 | A tracked asset's file lies under `ProjectPath/Assets/`. |
| `AssetBackup.AssetFilesAreNotBackups` | AssetBackup.cs:57-64 | No asset file lies under the backup root, so a backup never overwrites an asset. |
| `AssetBackup.StemDirectory` | AssetBackup.cs:62-65 | Any two texts without `/` appended to a backup stem land in the same directory. |
| `AssetBackup.StemAppend` | AssetBackup.cs:85-90 | Appending text to an asset path appends the same text to its backup stem. |
| `AssetBackup.BackupDirectory` | AssetBackup.cs:65 | A backup lies in the same directory that the listing searches for its asset. |
| `AssetBackup.FormatIgnoresTicks` | AssetBackup.cs:101-110 | The token depends only on whole seconds. |
| `AssetBackup.BackupPathNamesAsset` | AssetBackup.cs:62-64 | Two equal backup paths belong to the same asset, whatever the times in their tokens. |
| `AssetBackup.BackupPathInjective` | AssetBackup.cs:62-64 | Two backup paths are equal if and only if they are for the same asset and the same whole-second time. |
| `AssetBackup.BackupAsset` | AssetBackup.cs:52-76 | Follows the source step by step. Afterwards the disk is `AfterBackupAsset` of the disk before. |
| `AssetBackup.BackupAssetSkips` | AssetBackup.cs:54-59 | An untracked path, or a tracked asset whose file does not exist, leaves the disk unchanged. |
| `AssetBackup.BackupAssetCopies` | AssetBackup.cs:61-73 | The backup path for the asset's last-write time then exists. Every old file keeps its record, so an existing backup is never overwritten. At most that one path is added. A fresh copy has the asset's bytes and last-write time. Its directory exists. |
| `AssetBackup.BackupAssetOnlyAddsBackups` | AssetBackup.cs:52-76 | No file or directory is removed or changed. Every added file lies under the backup root. |
| `AssetBackup.BackupAssetIdempotent` | AssetBackup.cs:61-73 | Backing up twice with nothing changed in between is the same as backing up once. |
| `AssetBackup.BackupAssetPreservesWellFormed` | AssetBackup.cs:65-73 | Every file stays inside an existing directory and keeps an in-range time. |
| `AssetBackup.OnWillSaveAssets` | AssetBackup.cs:29-39 | Returns its input unchanged. The disk ends as the loop's specification says: each path is backed up in order, then its `.meta` unless that name is itself in the list. |
| `AssetBackup.SaveAssetStep` | AssetBackup.cs:31-37 | One loop turn keeps every file and backs up its path. It also backs up the path's `.meta` when that is not listed. Times are taken before the save. |
| `AssetBackup.SaveAssetsOnlyAddsBackups` | AssetBackup.cs:29-39 | Saving removes and changes nothing. Every added file lies under the backup root. |
| `AssetBackup.BackupAssetAddsItsBackup` | AssetBackup.cs:52-75 | While every earlier file is untouched, one backup adds at most the backup name of its own asset, for the time the asset's file had before the save. |
| `AssetBackup.SaveAssetsAddsOnlyListedBackups` | AssetBackup.cs:29-39 | Every file the save hook adds is the backup, for its pre-save time, of a listed path, or of a listed path's `.meta` when that `.meta` is not listed itself. The hook writes nothing else. |
| `AssetBackup.SaveAssetsBacksUpPrefix` | AssetBackup.cs:31-37 | After the first n turns, each of the first n paths has a backup, and so has its `.meta` when that is not listed. |
| `AssetBackup.SaveAssetsBacksUpEveryPath` | AssetBackup.cs:29-39 | After the hook, every listed existing asset and every existing `.meta` companion has a backup for its pre-save time. Unless a file of that name was already there, the backup holds the pre-save bytes and time. A listed `.meta` counts as a path of its own. Every pre-existing file is unchanged. |
| `AssetBackup.BackupAssetHoldsSources` | AssetBackup.cs:61-73 | A backup taken while the pre-save files are untouched writes only a copy of its own asset's pre-save record under that asset's backup name. |
| `AssetBackup.SaveAssetsHoldSources` | AssetBackup.cs:29-39 | Throughout the loop, every backup name added for an asset holds that asset's pre-save record. |
| `AssetBackup.OnWillMoveAsset` | AssetBackup.cs:21-27 | Always answers `DidNotMove` and relocates no backup. |
| `AssetBackup.EnumerateBackupPaths` | AssetBackup.cs:190-208 | A null or empty path lists nothing. The call fails with `ArgumentOutOfRangeException` exactly for a non-empty path shorter than `Assets/`. Otherwise the listing is in ascending ordinal order. |
| `AssetBackup.MatchingFiles` | AssetBackup.cs:204-206 | `EnumerateFiles` and the filter only yield files that exist on disk. |
| `AssetBackup.ListedAreBackups` | AssetBackup.cs:196-207 | Every listed path is a file on disk under the backup root. |
| `AssetBackup.EnumerateBackupPathsExactly` | AssetBackup.cs:196-207 | A path is listed if and only if all of these hold: the asset's backup directory exists, the file exists, the file is in that directory, and the file starts with the stem followed by `(`. |
| `AssetBackup.CanRestoreFromBackup` | AssetBackup.cs:126-131 | A restore is offered only for a tracked path, and only when some backup file exists on disk. |
| `AssetBackup.CanRestoreIff` | AssetBackup.cs:126-131 | A restore is offered if and only if the path is tracked and some file in its existing backup directory starts with its stem followed by `(`. |
| `AssetBackup.BackupIsListed` | AssetBackup.cs:196-207 | Every backup on disk is listed for its own asset. |
| `AssetBackup.SiblingBackupsAreListed` | AssetBackup.cs:196-206 | The filter over-matches. Backups of `a(x` in the same folder, such as `Assets/a(1).png` beside `Assets/a`, are listed for `a`. |
| `AssetBackup.SiblingName` | AssetBackup.cs:62-64 | A backup of the sibling `a(x` is named by the listing prefix of `a`, then x, then the token. |
| `AssetBackup.PrefixedName` | AssetBackup.cs:196-206 | Any name made of an asset's listing prefix and text without `/` passes the listing's filter and lies in the searched directory. |
| `AssetBackup.BackupMakesRestorable` | AssetBackup.cs:52-76 | After a backup of an existing tracked asset, that backup is listed and the asset can be restored. |
| `AssetBackup.BackupsSortByTime` | AssetBackup.cs:62-64 | For one asset's own backups with four-digit years, ascending name order is time order to the second. |
| `AssetBackup.ParseBackupFiles` | AssetBackup.cs:220-225 | A successful parse has one entry per listed name. |
| `AssetBackup.ParseBackupFilesSpec` | AssetBackup.cs:220-225 | The parse succeeds if and only if every name parses. It then returns one `BackupFile` per name, in order, with that name's parsed time. On failure, the error is the one the first failing name throws. |
| `AssetBackup.EnumerateBackupFiles` | AssetBackup.cs:217-226 | A failure of the listing propagates. Otherwise the call succeeds if and only if every listed name parses. On success it returns the listed paths in listing order, each paired with the time its name parses to. On failure, the error is the one the first unparsable name throws. |
| `AssetBackup.BackupIsEnumeratedWithItsTime` | AssetBackup.cs:229-240 | When the enumeration succeeds, a backup made by `BackupAsset` is enumerated as `BackupFile(path, asset time truncated to seconds)`. |
| `AssetBackup.DisplacedBackupPath` | AssetBackup.cs:161-165 | The name for the displaced version lies under the backup root and differs from the asset file. |
| `AssetBackup.RestoreFromBackup` | AssetBackup.cs:157-166 | Makes one `File.Replace(backup, asset file, displaced name)`. On success the disk is `AfterRestoreFromBackup`. On an exception it is unchanged. |
| `AssetBackup.RestoreFailures` | AssetBackup.cs:166 | A missing chosen backup gives `FileNotFound` for the source. A missing asset file gives `FileNotFound` for the destination. The restore fails if and only if the chosen backup, the asset file or the backup directory is missing. |
| `AssetBackup.RestoreSwaps` | AssetBackup.cs:161-166 | The asset path holds the chosen backup's record. The displaced content is at the stem plus the token of the old live time. The chosen backup's old name is gone. |
| `AssetBackup.DisplacedNameParses` | AssetBackup.cs:161-165 | On a well-formed disk, the displaced content's name parses back to the asset's old last-write time, truncated to seconds. |
| `AssetBackup.RestoreChangesNothingElse` | AssetBackup.cs:166 | Every other path and every directory is untouched. |
| `AssetBackup.RestorePreservesWellFormed` | AssetBackup.cs:166 | Every file stays inside an existing directory with an in-range time. |
| `AssetBackup.RestoreKeepsRestorable` | AssetBackup.cs:161-166 | After a restore, the displaced version is listed for the asset, so it can be restored again. |
| `TimestampCodec.FormatTimestamp` | AssetBackup.cs:101-110 | The token starts with `(` and ends with `)`. It has no other `(` or `)`, no `/`, and exactly five `-`. |
| `TimestampCodec.ParseTimestamp` | AssetBackup.cs:112-122 | A successful parse is a valid date and time with no sub-second part. |
| `TimestampCodec.ParseField` | AssetBackup.cs:115-120 | Reads the i-th part with `int.Parse`. Reading past the last part is an `IndexOutOfRangeException`. |
| `TimestampCodec.TimestampRoundTrip` | AssetBackup.cs:101-122 | For every valid time, parsing its token gives the time truncated to whole seconds. |
| `TimestampCodec.SplitFormatted` | AssetBackup.cs:109-114 | Trimming the brackets from a token and splitting on `-` gives back its six fields. |
| `TimestampCodec.ParseFieldsOfFields` | AssetBackup.cs:115-121 | Reading the six formatted fields rebuilds the whole-second time. |
| `TimestampCodec.ParseFields` | AssetBackup.cs:115-121 | A successful read of the six parts is a valid date and time with no sub-second part. |
| `TimestampCodec.StampedLastParen` | AssetBackup.cs:94 | In any prefix followed by a token, the token's `(` is the last `(`, whatever the time. |
| `TimestampCodec.ParseBackupPathTimestamp` | AssetBackup.cs:92-97 | A path without `(` fails with `ArgumentOutOfRangeException`, from `Substring(-1)`. A success is a valid whole-second time. |
| `TimestampCodec.BackupPathTimestampRoundTrip` | AssetBackup.cs:92-97 | Any prefix followed by a token parses to the token's time truncated. This holds even when the prefix contains `(`, because the token's `(` is the last one. |
| `TimestampCodec.FieldsParse` | AssetBackup.cs:115-120 | `int.Parse` reads each of the six formatted fields back as its number. |
| `TimestampCodec.NewDateTimeOfValid` | AssetBackup.cs:121 | Constructing a `DateTime` from a valid time's fields gives that time truncated to seconds. |
| `TimestampCodec.ParseFieldsOfParsed` | AssetBackup.cs:115-121 | When the six parts read as six numbers, the parse is the `DateTime` constructor applied to them. |
| `TimestampCodec.Bracketed` | AssetBackup.cs:109 | Bracketing digits and dashes adds no `/`, no inner bracket and no dash. |
| `TimestampCodec.JoinDigits` | AssetBackup.cs:109 | Joining digit fields with `-` gives one `-` per join. It starts and ends with a digit and holds nothing else. |
| `TimestampOrder.TokenOrder` | AssetBackup.cs:101-110 | For four-digit years, tokens sort in ordinal order exactly as their times do. |
| `TimestampOrder.StampedNameOrder` | AssetBackup.cs:62-64 | Names sharing a prefix sort as their tokens' times. |
| `TimestampOrder.FieldsOrder` | AssetBackup.cs:103-109 | The six fields of two times are pairwise equally long and compare lexicographically as the times do. |
| `TimestampOrder.FieldLengths` | AssetBackup.cs:103-109 | Corresponding fields of two times with four-digit years have equal length. |
| `TimestampOrder.LexLessStep` | AssetBackup.cs:103-109 | When two field lists start with numerals of the same width, those numbers decide the order unless they are equal. |
| `TimestampOrder.Format00Width` | AssetBackup.cs:109 | `{x:00}` writes two digits below 100 and four from 1000 to 9999. |
| `TimestampOrder.Format00Order` | AssetBackup.cs:109 | Two numbers that are both below 100, or both 1000 to 9999, have `"00"` numerals of equal length. Their numerals compare and are equal exactly as the numbers are. |
| `TimestampOrder.LessJoin` | AssetBackup.cs:109 | Joining equally long parts yields strings of equal length, ordered lexicographically by their parts. |
| `TimestampOrder.LessDigits` | AssetBackup.cs:109 | On equally long digit strings, ordinal order is numeric order. |
| `TimestampOrder.LessConcat` | AssetBackup.cs:207 | After equally long heads, the heads decide the order unless they are equal. |
| `Numerals.Format00` | AssetBackup.cs:109 | `{x:00}` writes at least two decimal digits. |
| `Numerals.Format00RoundTrip` | AssetBackup.cs:109 | The digits written by `{x:00}` have value x. |
| `Numerals.DecimalRoundTrip` | AssetBackup.cs:109 | A number's shortest numeral has that number's value. |
| `Numerals.LeadingZero` | AssetBackup.cs:109 | A leading `0` does not change a numeral's value. |
| `Numerals.ParseInt32` | AssetBackup.cs:115-120 | `int.Parse` fails only with `FormatException` or `OverflowException`. |
| `Numerals.ParseFormat00` | AssetBackup.cs:115-120 | `int.Parse` reads back every 32-bit natural written with `"00"`. |
| `DateTimes.NewDateTime` | AssetBackup.cs:121 | The constructor succeeds exactly when every field is in range, counting leap years. It then holds the given fields and no sub-second part. Otherwise it throws `ArgumentOutOfRangeException`. |
| `DateTimes.DateTime.Truncated` | AssetBackup.cs:101-110 | Dropping the sub-second part keeps a time valid. |
| `Strings.LastIndexOf` | AssetBackup.cs:94 | Returns the index of an occurrence of the character with none after it, or -1 exactly when there is none. |
| `Strings.LastIndexOfLead` | AssetBackup.cs:94 | A suffix that starts with the character and holds no other puts the last occurrence right after the prefix. |
| `Strings.LastIndexOfAppend` | AssetBackup.cs:94 | Appending text that does not contain the character does not move its last occurrence. |
| `Strings.IndexOf` | AssetBackup.cs:114 | Returns the first occurrence, or -1 exactly when there is none. |
| `Strings.Split` | AssetBackup.cs:114 | `Split` gives at least one part, and no part contains the separator. |
| `Strings.Join` | AssetBackup.cs:109 | A join starts with its first part. |
| `Strings.SplitJoin` | AssetBackup.cs:114 | Splitting a join of separator-free parts gives back the parts. |
| `Strings.TrimStart` | AssetBackup.cs:114 | Drops exactly the leading characters in the trim set. |
| `Strings.TrimEnd` | AssetBackup.cs:114 | Drops exactly the trailing characters in the trim set. |
| `Strings.Trim` | AssetBackup.cs:114 | `Trim` never lengthens a string, and a non-empty result starts and ends outside the trim set. |
| `Strings.TrimBracketed` | AssetBackup.cs:114 | Trimming a string bracketed by one trim character on each side gives the inner text when the inner text is non-empty and starts and ends outside the trim set. |
| `Strings.Combine` | AssetBackup.cs:57 | `Path.Combine(dir, name)` is `dir`, then `/`, then `name`, whether or not `name` holds a `/` itself. For a name without `/`, the directory of the result is `dir`. |
| `Strings.StartsWithConcat` | AssetBackup.cs:47 | `s.StartsWith(prefix)` holds exactly when `s` is `prefix` followed by some string. The same test filters the listing at line 206. |
| `Strings.DirectoryName` | AssetBackup.cs:65 | The directory is the text before the last `/`. With no `/` it is empty. |
| `Strings.DirectoryNameAppend` | AssetBackup.cs:199 | Appending a name without `/` keeps the directory. |
| `Strings.CountAppend` | AssetBackup.cs:109 | Counting a character is additive over concatenation. |
| `Strings.CountAbsent` | AssetBackup.cs:109 | An absent character counts zero. |
| `Ordinal.Less` | AssetBackup.cs:207 | A proper prefix sorts before every longer name that starts with it. |
| `Ordinal.LessIrreflexive` | AssetBackup.cs:207 | Ordinal order is irreflexive. |
| `Ordinal.LessTransitive` | AssetBackup.cs:207 | Ordinal order is transitive. |
| `Ordinal.LessTrichotomy` | AssetBackup.cs:207 | Ordinal order is total. |
| `Ordinal.LessAsymmetric` | AssetBackup.cs:207 | Ordinal order is asymmetric. |
| `Ordinal.LeastExists` | AssetBackup.cs:207 | Every non-empty finite set of names has a first one. |
| `Ordinal.Sort` | AssetBackup.cs:207 | `OrderBy` of a set of names is ascending, has as many entries as the set, and holds exactly its elements. |
| `Ordinal.AscendingUnique` | AssetBackup.cs:207 | Two ascending sequences with the same elements are equal, so the sorted listing is determined. |
| `Files.LastWriteTime` | AssetBackup.cs:61 | On a well-formed disk the reported time is in range. |
| `Files.FileSystem.FileExists` | AssetBackup.cs:58 | `File.Exists` is true exactly for a file on disk. |
| `Files.FileSystem.DirectoryExists` | AssetBackup.cs:66 | `Directory.Exists` is true exactly for an existing directory. |
| `Files.FileSystem.GetLastWriteTime` | AssetBackup.cs:162 | `File.GetLastWriteTime` returns the snapshot's `LastWriteTime`. |
| `Files.FileSystem.CreateDirectory` | AssetBackup.cs:67 | Adds the directory and nothing else. |
| `Files.FileSystem.Copy` | AssetBackup.cs:71 | The new file gets the source's bytes and time. No other file changes. |
| `Files.FileSystem.SetLastWriteTime` | AssetBackup.cs:72 | Changes that file's time and nothing else. |
| `Files.FileReplace` | AssetBackup.cs:166 | `File.Replace` fails exactly when the replacement file, the replaced file or the backup's directory is missing. On success the directories are unchanged, the source name is gone and the backup name is added. |
| `Files.FileReplaceMoves` | AssetBackup.cs:166 | A successful `File.Replace` moves the destination's record to the backup name and the source's record to the destination. The source name is gone. Every other file and every directory is unchanged. |
| `Files.FileReplacePreservesWellFormed` | AssetBackup.cs:166 | A successful `File.Replace` keeps every file in an existing directory with an in-range time. |
| `Files.FileSystem.Replace` | AssetBackup.cs:166 | `File.Replace` as one step: the disk becomes `FileReplace` of the old disk. On an exception it is unchanged. |
| `AssetBackupPreferences.EditorPrefs.GetBool` | AssetBackupPreferences.cs:34 | An absent key reads as the default. |
| `AssetBackupPreferences.EditorPrefs.GetInt` | AssetBackupPreferences.cs:71 | An absent key reads as the default. |
| `AssetBackupPreferences.EditorPrefs.SetBool` | AssetBackupPreferences.cs:42 | Stores the value under the key and changes nothing else. |
| `AssetBackupPreferences.EditorPrefs.SetInt` | AssetBackupPreferences.cs:79 | Stores the value under the key and changes nothing else. |
| `AssetBackupPreferences.BoolPreference.constructor` | AssetBackupPreferences.cs:21-26 | A new preference has its key and default and an empty cache. |
| `AssetBackupPreferences.BoolPreference.Get` | AssetBackupPreferences.cs:30-37 | A read with an empty cache returns the store's value (or the default) and caches it. A read with a full cache returns the cached value and does not consult the store. Either way the cache then holds the result. |
| `AssetBackupPreferences.BoolPreference.Set` | AssetBackupPreferences.cs:39-43 | Writes the value to both the cache and the store, so the next read returns it. No other key changes. |
| `AssetBackupPreferences.IntPreference.constructor` | AssetBackupPreferences.cs:58-63 | A new preference has its key and default and an empty cache. |
| `AssetBackupPreferences.IntPreference.Get` | AssetBackupPreferences.cs:67-74 | Same read-once caching as the boolean preference. |
| `AssetBackupPreferences.IntPreference.Set` | AssetBackupPreferences.cs:76-80 | Writes the value through to the cache and the store. |
| `AssetBackupPreferences.ClampMaxBackups` | AssetBackupPreferences.cs:115 | `Mathf.Max(1, v)` is at least 1 and at least v, and is one of them. |
| `AssetBackupPreferences.ClampMaxBackupsFixedPoints` | AssetBackupPreferences.cs:115 | Clamping is idempotent and leaves v unchanged exactly when v is at least 1. |
| `AssetBackupPreferences.Preferences.constructor` | AssetBackupPreferences.cs:86-110 | Sets up the two settings under their keys. With an empty store, backup is not disabled and the maximum is 3. |
| `AssetBackupPreferences.Preferences.GetAssetBackupDisabled` | AssetBackupPreferences.cs:92-95 | Returns the cached-or-stored disabled flag. |
| `AssetBackupPreferences.Preferences.SetAssetBackupDisabled` | AssetBackupPreferences.cs:92-96 | Stores the flag under its key. The other setting's cache is untouched. |
| `AssetBackupPreferences.Preferences.GetAssetBackupEnabled` | AssetBackupPreferences.cs:98-100 | Returns the negation of the disabled flag. |
| `AssetBackupPreferences.Preferences.SetAssetBackupEnabled` | AssetBackupPreferences.cs:98-102 | Setting enabled to v stores disabled as the negation of v. |
| `AssetBackupPreferences.Preferences.GetMaxBackupsPerAsset` | AssetBackupPreferences.cs:112-114 | Returns the cached-or-stored value without clamping. |
| `AssetBackupPreferences.Preferences.SetMaxBackupsPerAsset` | AssetBackupPreferences.cs:112-116 | Stores `max(1, v)`, so the value read afterwards is at least 1. The disabled flag is untouched. |

## Left out

- Editor side effects are not modelled. These are `Debug.Log`, `AssetDatabase.ImportAsset`/`Refresh`, reopening the active scene after a restore, the `MenuItem`/`Selection` wrappers, and the `AssetDatabase.GetAssetPath` overloads (AssetBackup.cs:133-155, 167-184, 210-215). They do not change the files the engine manages.
- `RestoreFromBackupWindow.cs` (UI, reflection on editor internals, "Today/Yesterday" labels from the clock) is not part of this model. It shows the listing reversed. `BackupsSortByTime` is why that puts the newest backup first.
- `OnPreferenceGUI`, `Deferred` and `GUIColorScope` are not modelled. They are UI and floating-point colour arithmetic.
- `AnyAssetBackupsExist` and `DeleteAllAssetBackups` are not part of this model. They are called from the preferences UI but are not defined in the engine's source.
- Retention of at most `maxBackupsPerAsset` backups and moving backups along with a moved asset are not modelled, because the code does neither.
- Strings are sequences of Unicode scalar values, and `char` order is code-point order. .NET counts and compares UTF-16 code units. A character outside the Basic Multilingual Plane therefore has length 1 here and length 2 in .NET. Lengths and `Substring` offsets differ for paths holding such characters, including the `Substring(AssetPathRoot.Length)` length test (AssetBackup.cs:88).
- `StartsWith` (AssetBackup.cs:47 and 206) and `OrderBy` (AssetBackup.cs:207) use the current culture's comparison in .NET. The model compares code points. Culture order ranks letters case-insensitively first, so it can differ from the model's order: `"ab"` comes before `"B"` in culture order, and after it here. The two orders agree among one asset's own backups, whose names differ only in digits at the same positions. They can disagree when the filter over-matches siblings such as `x(B…` and `x(ab…`. `Ascending` is then not the order `OrderBy` produces.
- The disk is assumed failure-free and owned by the engine during each call. An `IOException` or `UnauthorizedAccessException` (permissions, a full disk) is not modelled. A file created by another writer between the `File.Exists` check and `File.Copy` (AssetBackup.cs:69-71) is not modelled either. In the source, such an exception leaves `BackupAsset` and ends the `OnWillSaveAssets` loop (AssetBackup.cs:31-37). The paths after it then get no backup. `CreateDirectory`, `Copy` and `SetLastWriteTime` never fail in the model, and `Replace` fails only when one of its three paths is missing. The save-hook lemmas hold only under this assumption.
- `int.Parse` is modelled without surrounding whitespace, thousands separators or culture-specific signs. None of these occur in the tokens the engine writes.
- `DateTime` is modelled without its `Kind` or time zone. File times are taken in local time on both sides.
- `Path.Combine` is modelled as joining with `/`, and `Path.GetDirectoryName` as cutting at the last `/`. Windows separators, rooted second arguments and path normalisation are not modelled.
- `Directory.CreateDirectory` is modelled as adding one directory, not its missing ancestors. `Directory.EnumerateFiles` is modelled as the files whose directory is exactly the searched one.
- The `EditorPrefs` store is modelled as two maps, one for booleans and one for integers. A key written with one type and read with the other is not modelled.
- `OnWillSaveAssets` is modelled over non-null strings. A null entry in Unity's array is not modelled. It would back up nothing but `".meta"`, which is untracked.
- `EnumerateBackupPaths` and `EnumerateBackupFiles` are lazy in .NET. The model evaluates them fully, so a parse failure anywhere in the listing is the result. The window hits that failure while it iterates.
- `EnumerateBackupPaths`, `EnumerateBackupFiles`, `CanRestoreFromBackup`: their results are ghost. The sort is specified as a choice of the least remaining name and is not compiled.
- `AssetBackup.RestoreFromBackup`: requires an asset path at least as long as `Assets/`, which the window guarantees because it only offers paths from a non-empty listing. A shorter path makes `Substring` throw before any file is touched.
- `AssetBackup.RestoreFromBackup`: requires the chosen backup to differ from the asset file and from the displaced backup name. The second can fail when the asset file still has the same last-write second as the chosen backup, for example when a save did not rewrite it. `File.Replace` with coinciding paths behaves differently on Windows and Unix, and that case is not modelled.
- `AssetBackup.FormatBackupPathWithoutTimestamp`: requires a path at least as long as `Assets/`, since `Substring` throws on a shorter one. Its `Debug.Assert` only logs and is not modelled.
- `AssetBackup.BackupsSortByTime`: holds only for years 1000 to 9999. An earlier year is written with fewer digits and would sort out of time order. File times on the supported platforms start in 1601.
- `AssetBackup.OnWillSaveAssets`: backs up even when the "disabled" setting is on, as the code does.
