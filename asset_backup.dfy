/**
 * The backup engine: where a tracked asset's backups live, how a save makes
 * one, how the backups of an asset are listed, and how one is restored.
 *
 * Nothing evicts old backups, and a move leaves an asset's backups where
 * they are. A restore moves the chosen backup onto the asset and replaces
 * any file already at the name it keeps the displaced version under.
 */
module AssetBackup {
  import opened Wrappers
  import opened Strings
  import opened Ordinal
  import opened Numerals
  import opened DateTimes
  import opened TimestampCodec
  import opened TimestampOrder
  import opened Files

  /** The folder that holds the project's `Assets` folder. */
  const ProjectPath: string := "/home/user/Project"

  /** Only asset paths under this root are backed up. */
  const AssetPathRoot: string := "Assets/"

  /** Where a tracked asset lives on disk, and where every backup lives. */
  const LiveRoot: string := ProjectPath + "/" + AssetPathRoot
  const BackupRoot: string := ProjectPath + "/Backups/"

  /** `HasAssetPathRoot`: false for null and for paths outside `Assets/`. */
  predicate HasAssetPathRoot(assetPath: Option<string>)
    ensures assetPath.None? ==> !HasAssetPathRoot(assetPath)
    ensures HasAssetPathRoot(assetPath) ==> |assetPath.value| >= |AssetPathRoot|
  {
    assetPath.Some? && StartsWith(assetPath.value, AssetPathRoot)
  }

  /** The tracked paths are exactly `Assets/` followed by anything. */
  lemma HasAssetPathRootIff(assetPath: Option<string>)
    ensures HasAssetPathRoot(assetPath) <==> exists sub :: assetPath == Some(AssetPathRoot + sub)
  {
    if HasAssetPathRoot(assetPath) {
      var sub := assetPath.value[|AssetPathRoot|..];
      assert assetPath.value == AssetPathRoot + sub;
    }
  }

  /** The asset's own file: `Path.Combine(ProjectPath, assetPath)`. */
  function SourcePath(assetPath: string): (r: string)
    ensures StartsWith(assetPath, AssetPathRoot) ==> StartsWith(r, LiveRoot)
  {
    Combine(ProjectPath, assetPath)
  }

  /** `FormatBackupPathWithoutTimestamp`: the asset's path below `Assets/`,
      re-rooted below the backup root. `Substring` throws on a path shorter
      than the root, hence the precondition. */
  function FormatBackupPathWithoutTimestamp(assetPath: string): (r: string)
    requires |assetPath| >= |AssetPathRoot|
    ensures StartsWith(r, BackupRoot) && r[|BackupRoot|..] == assetPath[|AssetPathRoot|..]
  {
    Combine(ProjectPath, "Backups/" + assetPath[|AssetPathRoot|..])
  }

  /** `Assets/` followed by `sub` is backed up under `Backups/` followed by
      `sub`. */
  lemma BackupStemOfTrackedPath(sub: string)
    ensures FormatBackupPathWithoutTimestamp(AssetPathRoot + sub) == ProjectPath + "/Backups/" + sub
  {
    assert (AssetPathRoot + sub)[|AssetPathRoot|..] == sub;
  }

  /** `GetShortBackupPath`: the path relative to the project folder. */
  function GetShortBackupPath(backupPath: string): (r: string)
    requires |backupPath| >= |ProjectPath| + 1
    ensures StartsWith(backupPath, ProjectPath + "/") ==> Combine(ProjectPath, r) == backupPath
  {
    backupPath[|ProjectPath| + 1..]
  }

  /** The backup of `assetPath` stamped with `time`. */
  function BackupPath(assetPath: string, time: DateTime): (r: string)
    requires |assetPath| >= |AssetPathRoot|
    ensures IsBackupPath(r) && StartsWith(r, BackupPathPrefix(assetPath))
    ensures LastIndexOf(r, '(') == |FormatBackupPathWithoutTimestamp(assetPath)|
  {
    var stem := FormatBackupPathWithoutTimestamp(assetPath);
    StampedLastParen(stem, time);
    assert (stem + FormatTimestamp(time))[..|stem| + 1] == stem + "(";
    stem + FormatTimestamp(time)
  }

  /** What every backup of `assetPath` starts with, as the listing filters. */
  function BackupPathPrefix(assetPath: string): (r: string)
    requires |assetPath| >= |AssetPathRoot|
    ensures IsBackupPath(r) && r[|r| - 1] == '('
  {
    FormatBackupPathWithoutTimestamp(assetPath) + "("
  }

  predicate IsBackupPath(path: string) {
    StartsWith(path, BackupRoot)
  }

  /** No asset file is a backup file: the two roots differ. */
  lemma AssetFilesAreNotBackups(path: string)
    requires StartsWith(path, LiveRoot)
    ensures !IsBackupPath(path)
  {
    assert path[|ProjectPath| + 1] == LiveRoot[|ProjectPath| + 1] == 'A';
    assert BackupRoot[|ProjectPath| + 1] == 'B';
  }

  /** Text without '/' appended to a backup stem stays in the stem's
      directory. */
  lemma StemDirectory(assetPath: string, t1: string, t2: string)
    requires |assetPath| >= |AssetPathRoot|
    requires '/' !in t1 && '/' !in t2
    ensures var stem := FormatBackupPathWithoutTimestamp(assetPath);
      DirectoryName(stem + t1) == DirectoryName(stem + t2)
  {
    var stem := FormatBackupPathWithoutTimestamp(assetPath);
    assert stem[|ProjectPath|] == '/';
    DirectoryNameAppend(stem, t1);
    DirectoryNameAppend(stem, t2);
  }

  /** A backup lies in the directory the listing searches for its asset. */
  lemma BackupDirectory(assetPath: string, time: DateTime)
    requires |assetPath| >= |AssetPathRoot|
    ensures DirectoryName(BackupPath(assetPath, time)) == DirectoryName(BackupPathPrefix(assetPath))
  {
    StemDirectory(assetPath, FormatTimestamp(time), "(");
  }

  /** Appending to an asset path appends to its backup stem. */
  lemma StemAppend(assetPath: string, t: string)
    requires |assetPath| >= |AssetPathRoot|
    ensures FormatBackupPathWithoutTimestamp(assetPath + t) == FormatBackupPathWithoutTimestamp(assetPath) + t
  {
    assert (assetPath + t)[|AssetPathRoot|..] == assetPath[|AssetPathRoot|..] + t;
  }

  /** Two tracked assets share a backup stem only if they are the same asset. */
  lemma BackupStemInjective(a: string, b: string)
    requires HasAssetPathRoot(Some(a)) && HasAssetPathRoot(Some(b))
    ensures FormatBackupPathWithoutTimestamp(a) == FormatBackupPathWithoutTimestamp(b) <==> a == b
  {
    if FormatBackupPathWithoutTimestamp(a) == FormatBackupPathWithoutTimestamp(b) {
      assert a == a[..|AssetPathRoot|] + a[|AssetPathRoot|..];
      assert b == b[..|AssetPathRoot|] + b[|AssetPathRoot|..];
    }
  }

  /** The formatted token depends only on the whole seconds of a time. */
  lemma FormatIgnoresTicks(time: DateTime)
    ensures FormatTimestamp(time) == FormatTimestamp(time.Truncated())
  {
    assert Fields(time) == Fields(time.Truncated());
  }

  /** Distinct (asset, second) pairs get distinct backup paths: a backup
      path names exactly one asset and one whole-second time. */
  lemma BackupPathInjective(a: string, ta: DateTime, b: string, tb: DateTime)
    requires HasAssetPathRoot(Some(a)) && HasAssetPathRoot(Some(b))
    requires ta.Valid() && tb.Valid()
    ensures BackupPath(a, ta) == BackupPath(b, tb) <==> a == b && ta.Truncated() == tb.Truncated()
  {
    var stemA, stemB := FormatBackupPathWithoutTimestamp(a), FormatBackupPathWithoutTimestamp(b);
    var tokA, tokB := FormatTimestamp(ta), FormatTimestamp(tb);
    if BackupPath(a, ta) == BackupPath(b, tb) {
      BackupPathTimestampRoundTrip(stemA, ta);
      BackupPathTimestampRoundTrip(stemB, tb);
      FormatIgnoresTicks(ta);
      FormatIgnoresTicks(tb);
      assert tokA == tokB;
      assert stemA == (stemA + tokA)[..|stemA|];
      assert stemB == (stemB + tokB)[..|stemB|];
      BackupStemInjective(a, b);
    }
    if a == b && ta.Truncated() == tb.Truncated() {
      FormatIgnoresTicks(ta);
      FormatIgnoresTicks(tb);
    }
  }

  /** A backup path names its asset, whatever the time in its token: the
      token's '(' is the path's last one, so the stem can be read back. */
  lemma BackupPathNamesAsset(a: string, ta: DateTime, b: string, tb: DateTime)
    requires HasAssetPathRoot(Some(a)) && HasAssetPathRoot(Some(b))
    requires BackupPath(a, ta) == BackupPath(b, tb)
    ensures a == b
  {
    var stemA, stemB := FormatBackupPathWithoutTimestamp(a), FormatBackupPathWithoutTimestamp(b);
    StampedLastParen(stemA, ta);
    StampedLastParen(stemB, tb);
    assert stemA == BackupPath(a, ta)[..|stemA|];
    assert stemB == BackupPath(b, tb)[..|stemB|];
    BackupStemInjective(a, b);
  }

  /** The short form of a backup path is `Backups/` followed by the asset's
      path below `Assets/` and the token. */
  lemma ShortBackupPath(assetPath: string, time: DateTime)
    requires |assetPath| >= |AssetPathRoot|
    ensures GetShortBackupPath(BackupPath(assetPath, time))
         == "Backups/" + assetPath[|AssetPathRoot|..] + FormatTimestamp(time)
  {
    ShortStemPath(assetPath, FormatTimestamp(time));
  }

  /** `ShortBackupPath` for any token in place of the timestamp. */
  lemma ShortStemPath(assetPath: string, token: string)
    requires |assetPath| >= |AssetPathRoot|
    ensures GetShortBackupPath(FormatBackupPathWithoutTimestamp(assetPath) + token)
         == "Backups/" + assetPath[|AssetPathRoot|..] + token
  {
    var p := FormatBackupPathWithoutTimestamp(assetPath) + token;
    assert p == ProjectPath + "/" + ("Backups/" + assetPath[|AssetPathRoot|..] + token);
  }

  // ---------------------------------------------------------------------
  // Making a backup

  /** The disk after `BackupAsset(assetPath)`. */
  function AfterBackupAsset(s: FsSnapshot, assetPath: Option<string>): FsSnapshot {
    if !HasAssetPathRoot(assetPath) then s
    else
      var sourcePath := SourcePath(assetPath.value);
      if sourcePath !in s.files then s
      else
        var backupTime := s.files[sourcePath].lastWriteTime;
        var backupPath := BackupPath(assetPath.value, backupTime);
        var created := s.(dirs := s.dirs + {DirectoryName(backupPath)});
        if backupPath in s.files then created
        else created.(files := s.files[backupPath := FileRecord(s.files[sourcePath].content, backupTime)])
  }

  /** `BackupAsset`: copy the asset to its backup path for its last-write
      time unless a file is already there, then stamp the copy with that time. */
  method BackupAsset(fs: FileSystem, assetPath: Option<string>)
    modifies fs
    ensures fs.State() == AfterBackupAsset(old(fs.State()), assetPath)
  {
    if !HasAssetPathRoot(assetPath) {
      return;
    }
    var sourcePath := SourcePath(assetPath.value);
    var sourceExists := fs.FileExists(sourcePath);
    if !sourceExists {
      return;
    }
    var backupTime := fs.GetLastWriteTime(sourcePath);
    var backupPath := BackupPath(assetPath.value, backupTime);
    var backupDir := DirectoryName(backupPath);
    var dirExists := fs.DirectoryExists(backupDir);
    if !dirExists {
      fs.CreateDirectory(backupDir);
    }
    ghost var created := old(fs.State()).(dirs := old(fs.State()).dirs + {backupDir});
    assert fs.State() == created;
    var backupExists := fs.FileExists(backupPath);
    if !backupExists {
      AssetFilesAreNotBackups(sourcePath);
      ghost var source := fs.files[sourcePath];
      fs.Copy(sourcePath, backupPath);
      fs.SetLastWriteTime(backupPath, backupTime);
      assert fs.files == created.files[backupPath := FileRecord(source.content, backupTime)];
    }
  }

  /** Nothing happens to a path outside `Assets/` or to an asset whose file
      does not exist. */
  lemma BackupAssetSkips(s: FsSnapshot, assetPath: Option<string>)
    requires !HasAssetPathRoot(assetPath) || SourcePath(assetPath.value) !in s.files
    ensures AfterBackupAsset(s, assetPath) == s
  {
  }

  /** A backup keeps every existing file as it was, adds at most the one
      backup path, and a fresh copy holds the asset's bytes and time. */
  lemma BackupAssetCopies(s: FsSnapshot, assetPath: string)
    requires HasAssetPathRoot(Some(assetPath)) && SourcePath(assetPath) in s.files
    ensures var source := s.files[SourcePath(assetPath)];
      var backupPath := BackupPath(assetPath, source.lastWriteTime);
      var r := AfterBackupAsset(s, Some(assetPath));
      && backupPath in r.files
      && r.files.Keys == s.files.Keys + {backupPath}
      && (forall p :: p in s.files ==> r.files[p] == s.files[p])
      && (backupPath !in s.files ==> r.files[backupPath] == source)
      && DirectoryName(backupPath) in r.dirs
  {
  }

  /** Every file a backup adds lies under the backup root, and nothing is
      removed or altered. */
  lemma BackupAssetOnlyAddsBackups(s: FsSnapshot, assetPath: Option<string>)
    ensures var r := AfterBackupAsset(s, assetPath);
      && s.dirs <= r.dirs
      && (forall p :: p in s.files ==> p in r.files && r.files[p] == s.files[p])
      && (forall p :: p in r.files && p !in s.files ==> IsBackupPath(p))
  {
  }

  /** Backing up twice with nothing changed in between is backing up once. */
  lemma BackupAssetIdempotent(s: FsSnapshot, assetPath: Option<string>)
    ensures AfterBackupAsset(AfterBackupAsset(s, assetPath), assetPath) == AfterBackupAsset(s, assetPath)
  {
    if HasAssetPathRoot(assetPath) && SourcePath(assetPath.value) in s.files {
      var sourcePath := SourcePath(assetPath.value);
      AssetFilesAreNotBackups(sourcePath);
      var r := AfterBackupAsset(s, assetPath);
      assert r.files[sourcePath] == s.files[sourcePath];
      var backupPath := BackupPath(assetPath.value, s.files[sourcePath].lastWriteTime);
      assert r.dirs + {DirectoryName(backupPath)} == r.dirs;
    }
  }

  lemma BackupAssetPreservesWellFormed(s: FsSnapshot, assetPath: Option<string>)
    requires WellFormed(s)
    ensures WellFormed(AfterBackupAsset(s, assetPath))
  {
  }

  // ---------------------------------------------------------------------
  // Saving

  /** The disk after the loop body of `OnWillSaveAssets` for one path. */
  function AfterSaveAsset(s: FsSnapshot, assetPath: string, assetPaths: seq<string>): FsSnapshot {
    var backedUp := AfterBackupAsset(s, Some(assetPath));
    var assetMetaPath := assetPath + ".meta";
    if assetMetaPath in assetPaths then backedUp
    else AfterBackupAsset(backedUp, Some(assetMetaPath))
  }

  /** The disk after the loop of `OnWillSaveAssets` has handled `done`, a
      prefix of `assetPaths`. */
  function AfterSaveAssets(s: FsSnapshot, done: seq<string>, assetPaths: seq<string>): FsSnapshot
    decreases |done|
  {
    if done == [] then s
    else AfterSaveAsset(AfterSaveAssets(s, done[..|done| - 1], assetPaths), done[|done| - 1], assetPaths)
  }

  /** `OnWillSaveAssets`: back up each path about to be saved and its
      `.meta` companion (unless that is itself in the list, where it gets
      its own turn); the list is returned unchanged, so no save is vetoed. */
  method OnWillSaveAssets(fs: FileSystem, assetPaths: seq<string>) returns (r: seq<string>)
    modifies fs
    ensures r == assetPaths
    ensures fs.State() == AfterSaveAssets(old(fs.State()), assetPaths, assetPaths)
  {
    for i := 0 to |assetPaths|
      invariant fs.State() == AfterSaveAssets(old(fs.State()), assetPaths[..i], assetPaths)
    {
      var assetPath := assetPaths[i];
      BackupAsset(fs, Some(assetPath));
      var assetMetaPath := assetPath + ".meta";
      if assetMetaPath !in assetPaths {
        BackupAsset(fs, Some(assetMetaPath));
      }
      assert assetPaths[..i + 1][..i] == assetPaths[..i];
    }
    assert assetPaths[..|assetPaths|] == assetPaths;
    r := assetPaths;
  }

  /** Saving only adds files under the backup root. */
  lemma {:induction false} SaveAssetsOnlyAddsBackups(s: FsSnapshot, done: seq<string>, assetPaths: seq<string>)
    ensures var r := AfterSaveAssets(s, done, assetPaths);
      && s.dirs <= r.dirs
      && (forall p :: p in s.files ==> p in r.files && r.files[p] == s.files[p])
      && (forall p :: p in r.files && p !in s.files ==> IsBackupPath(p))
    decreases |done|
  {
    if done != [] {
      var mid := AfterSaveAssets(s, done[..|done| - 1], assetPaths);
      SaveAssetsOnlyAddsBackups(s, done[..|done| - 1], assetPaths);
      var p := done[|done| - 1];
      BackupAssetOnlyAddsBackups(mid, Some(p));
      BackupAssetOnlyAddsBackups(AfterBackupAsset(mid, Some(p)), Some(p + ".meta"));
    }
  }

  /** After a backup, the asset's file is untouched and its backup exists. */
  predicate HasBackupOf(s0: FsSnapshot, r: FsSnapshot, assetPath: string) {
    HasAssetPathRoot(Some(assetPath)) && SourcePath(assetPath) in s0.files ==>
      BackupPath(assetPath, s0.files[SourcePath(assetPath)].lastWriteTime) in r.files
  }

  /** Every backup name of an asset of `s0` that `r` has gained holds that
      asset's record in `s0`: its bytes and its last-write time. */
  ghost predicate BackupsHoldSources(s0: FsSnapshot, r: FsSnapshot) {
    forall q :: HasAssetPathRoot(Some(q)) && SourcePath(q) in s0.files ==>
      var b := BackupPath(q, s0.files[SourcePath(q)].lastWriteTime);
      b in r.files && b !in s0.files ==> r.files[b] == s0.files[SourcePath(q)]
  }

  /** After the save hook, the asset's backup exists and, unless a file of
      that name was already there, holds the asset's pre-save record. */
  predicate HoldsBackupOf(s0: FsSnapshot, r: FsSnapshot, assetPath: string) {
    HasAssetPathRoot(Some(assetPath)) && SourcePath(assetPath) in s0.files ==>
      var b := BackupPath(assetPath, s0.files[SourcePath(assetPath)].lastWriteTime);
      b in r.files && (b !in s0.files ==> r.files[b] == s0.files[SourcePath(assetPath)])
  }

  /** A backup taken while every file of `s0` is untouched keeps every new
      backup name of an `s0` asset holding that asset's `s0` record. */
  lemma BackupAssetHoldsSources(s0: FsSnapshot, mid: FsSnapshot, p: string)
    requires forall q :: q in s0.files ==> q in mid.files && mid.files[q] == s0.files[q]
    requires BackupsHoldSources(s0, mid)
    ensures BackupsHoldSources(s0, AfterBackupAsset(mid, Some(p)))
  {
    var r := AfterBackupAsset(mid, Some(p));
    BackupAssetOnlyAddsBackups(mid, Some(p));
    forall q | HasAssetPathRoot(Some(q)) && SourcePath(q) in s0.files
      ensures var b := BackupPath(q, s0.files[SourcePath(q)].lastWriteTime);
        b in r.files && b !in s0.files ==> r.files[b] == s0.files[SourcePath(q)]
    {
      var b := BackupPath(q, s0.files[SourcePath(q)].lastWriteTime);
      if b in r.files && b !in mid.files {
        var t := mid.files[SourcePath(p)].lastWriteTime;
        assert b == BackupPath(p, t);
        BackupPathNamesAsset(q, s0.files[SourcePath(q)].lastWriteTime, p, t);
      }
    }
  }

  /** The whole save loop keeps every new backup name of an asset holding
      that asset's pre-save record. */
  lemma {:induction false} SaveAssetsHoldSources(s: FsSnapshot, done: seq<string>, assetPaths: seq<string>)
    ensures BackupsHoldSources(s, AfterSaveAssets(s, done, assetPaths))
    decreases |done|
  {
    if done != [] {
      var init := done[..|done| - 1];
      var p := done[|done| - 1];
      var mid := AfterSaveAssets(s, init, assetPaths);
      SaveAssetsHoldSources(s, init, assetPaths);
      SaveAssetsOnlyAddsBackups(s, init, assetPaths);
      BackupAssetHoldsSources(s, mid, p);
      var afterAsset := AfterBackupAsset(mid, Some(p));
      BackupAssetOnlyAddsBackups(mid, Some(p));
      BackupAssetHoldsSources(s, afterAsset, p + ".meta");
    }
  }

  /** One turn of the save loop backs up its path and, when that is not
      listed itself, the path's `.meta`, for the times they had in `s`,
      provided the turn starts with every file of `s` untouched. */
  lemma SaveAssetStep(s: FsSnapshot, mid: FsSnapshot, p: string, assetPaths: seq<string>)
    requires forall q :: q in s.files ==> q in mid.files && mid.files[q] == s.files[q]
    ensures var r := AfterSaveAsset(mid, p, assetPaths);
      && mid.files.Keys <= r.files.Keys
      && HasBackupOf(s, r, p)
      && (p + ".meta" !in assetPaths ==> HasBackupOf(s, r, p + ".meta"))
  {
    var afterAsset := AfterBackupAsset(mid, Some(p));
    BackupAssetOnlyAddsBackups(mid, Some(p));
    BackupAssetOnlyAddsBackups(afterAsset, Some(p + ".meta"));
    if HasAssetPathRoot(Some(p)) && SourcePath(p) in s.files {
      BackupAssetCopies(mid, p);
    }
    var meta := p + ".meta";
    if meta !in assetPaths && HasAssetPathRoot(Some(meta)) && SourcePath(meta) in s.files {
      BackupAssetCopies(afterAsset, meta);
    }
  }

  lemma {:induction false} SaveAssetsBacksUpPrefix(s: FsSnapshot, done: seq<string>, assetPaths: seq<string>)
    ensures var r := AfterSaveAssets(s, done, assetPaths);
      forall k :: 0 <= k < |done| ==>
        HasBackupOf(s, r, done[k]) && (done[k] + ".meta" !in assetPaths ==> HasBackupOf(s, r, done[k] + ".meta"))
    decreases |done|
  {
    if done != [] {
      var init := done[..|done| - 1];
      var mid := AfterSaveAssets(s, init, assetPaths);
      var r := AfterSaveAssets(s, done, assetPaths);
      SaveAssetsBacksUpPrefix(s, init, assetPaths);
      SaveAssetsOnlyAddsBackups(s, init, assetPaths);
      SaveAssetStep(s, mid, done[|done| - 1], assetPaths);
      forall k | 0 <= k < |done| - 1
        ensures HasBackupOf(s, r, done[k])
        ensures done[k] + ".meta" !in assetPaths ==> HasBackupOf(s, r, done[k] + ".meta")
      {
        assert done[k] == init[k];
      }
    }
  }

  /** `f` is the backup name of tracked asset `q` for the last-write time
      `q`'s file has in `s`. */
  predicate IsBackupFor(s: FsSnapshot, f: string, q: string) {
    HasAssetPathRoot(Some(q)) && SourcePath(q) in s.files
    && f == BackupPath(q, s.files[SourcePath(q)].lastWriteTime)
  }

  /** A backup taken while every file of `s` is untouched, and every file
      added since is a backup, adds at most the backup of `q` for the time
      `q`'s file has in `s`. */
  lemma BackupAssetAddsItsBackup(s: FsSnapshot, mid: FsSnapshot, q: string)
    requires forall p :: p in s.files ==> p in mid.files && mid.files[p] == s.files[p]
    requires forall p :: p in mid.files && p !in s.files ==> IsBackupPath(p)
    ensures var r := AfterBackupAsset(mid, Some(q));
      forall f :: f in r.files && f !in mid.files ==> IsBackupFor(s, f, q)
  {
    if HasAssetPathRoot(Some(q)) && SourcePath(q) in mid.files {
      AssetFilesAreNotBackups(SourcePath(q));
    }
  }

  /** Every file the save loop over `done` adds is the backup, for its time
      before the save, of some `done[k]`, or of `done[k]`'s `.meta` when that
      is not listed itself: the hook writes nothing else. */
  lemma {:induction false} SaveAssetsAddsOnlyListedBackups(s: FsSnapshot, done: seq<string>, assetPaths: seq<string>)
    ensures var r := AfterSaveAssets(s, done, assetPaths);
      forall f :: f in r.files && f !in s.files ==>
        exists k :: 0 <= k < |done| &&
                    (IsBackupFor(s, f, done[k]) || (done[k] + ".meta" !in assetPaths && IsBackupFor(s, f, done[k] + ".meta")))
    decreases |done|
  {
    if done != [] {
      var init := done[..|done| - 1];
      var p := done[|done| - 1];
      var meta := p + ".meta";
      var mid := AfterSaveAssets(s, init, assetPaths);
      var afterAsset := AfterBackupAsset(mid, Some(p));
      var r := AfterSaveAssets(s, done, assetPaths);
      SaveAssetsAddsOnlyListedBackups(s, init, assetPaths);
      SaveAssetsOnlyAddsBackups(s, init, assetPaths);
      BackupAssetAddsItsBackup(s, mid, p);
      BackupAssetOnlyAddsBackups(mid, Some(p));
      BackupAssetAddsItsBackup(s, afterAsset, meta);
      forall f | f in r.files && f !in s.files
        ensures exists k :: (0 <= k < |done| &&
                  (IsBackupFor(s, f, done[k]) || (done[k] + ".meta" !in assetPaths && IsBackupFor(s, f, done[k] + ".meta"))))
      {
        if f in mid.files {
          var k :| 0 <= k < |init| &&
            (IsBackupFor(s, f, init[k]) || (init[k] + ".meta" !in assetPaths && IsBackupFor(s, f, init[k] + ".meta")));
          assert done[k] == init[k];
        } else if f in afterAsset.files {
          assert IsBackupFor(s, f, done[|done| - 1]);
        } else {
          assert meta !in assetPaths && IsBackupFor(s, f, meta);
          assert done[|done| - 1] + ".meta" == meta;
        }
      }
    }
  }

  /** After `OnWillSaveAssets`, every listed asset that exists, and the
      `.meta` companion of each, has a backup for its pre-save time holding
      its pre-save bytes and time (unless that name was already taken), and
      every file that was on disk is still there unchanged. */
  lemma SaveAssetsBacksUpEveryPath(s: FsSnapshot, assetPaths: seq<string>)
    ensures var r := AfterSaveAssets(s, assetPaths, assetPaths);
      && (forall p :: p in s.files ==> p in r.files && r.files[p] == s.files[p])
      && (forall k :: 0 <= k < |assetPaths| ==>
            HoldsBackupOf(s, r, assetPaths[k]) && HoldsBackupOf(s, r, assetPaths[k] + ".meta"))
  {
    var r := AfterSaveAssets(s, assetPaths, assetPaths);
    SaveAssetsOnlyAddsBackups(s, assetPaths, assetPaths);
    SaveAssetsBacksUpPrefix(s, assetPaths, assetPaths);
    SaveAssetsHoldSources(s, assetPaths, assetPaths);
    forall k | 0 <= k < |assetPaths|
      ensures HoldsBackupOf(s, r, assetPaths[k]) && HoldsBackupOf(s, r, assetPaths[k] + ".meta")
    {
      var meta := assetPaths[k] + ".meta";
      if meta in assetPaths {
        var j :| 0 <= j < |assetPaths| && assetPaths[j] == meta;
        assert HasBackupOf(s, r, assetPaths[j]);
      }
    }
  }

  // ---------------------------------------------------------------------
  // Moving

  /** The answer a move callback gives Unity. */
  datatype AssetMoveResult = FailedMove | DidNotMove | DidMove

  /** `OnWillMoveAsset`: backups are not relocated; Unity is told to carry
      out the move itself. */
  function OnWillMoveAsset(sourcePath: string, targetPath: string): (r: AssetMoveResult)
    ensures r == DidNotMove
  {
    DidNotMove
  }

  // ---------------------------------------------------------------------
  // Listing

  /** The files `Directory.EnumerateFiles(backupDir)` yields that pass the
      prefix filter. */
  function MatchingFiles(s: FsSnapshot, backupDir: string, prefix: string): (r: set<string>)
    ensures r <= s.files.Keys
  {
    set f | f in s.files && DirectoryName(f) == backupDir && StartsWith(f, prefix)
  }

  /** `EnumerateBackupPaths`: the files in the backup directory that start
      with the asset's stem and '(', in ascending ordinal order; empty for a
      null or empty path or a missing directory. A non-empty path shorter
      than `Assets/` makes `Substring` throw. */
  ghost function EnumerateBackupPaths(s: FsSnapshot, assetPath: Option<string>)
    : (r: Result<seq<string>, Exception>)
    ensures assetPath.None? || assetPath.value == [] ==> r == Success([])
    ensures r.Failure? <==> assetPath.Some? && 0 < |assetPath.value| < |AssetPathRoot|
    ensures r.Failure? ==> r.error == ArgumentOutOfRangeException
    ensures r.Success? ==> Ascending(r.value)
  {
    if assetPath.None? || assetPath.value == [] then Success([])
    else if |assetPath.value| < |AssetPathRoot| then Failure(ArgumentOutOfRangeException)
    else
      var prefix := BackupPathPrefix(assetPath.value);
      var backupDir := DirectoryName(prefix);
      if backupDir !in s.dirs then Success([])
      else Success(Sort(MatchingFiles(s, backupDir, prefix)))
  }

  /** The listing of a path of at least `Assets/`'s length holds exactly the
      files of the asset's backup directory that start with its prefix. */
  lemma EnumerateBackupPathsExactly(s: FsSnapshot, assetPath: string, f: string)
    requires |assetPath| >= |AssetPathRoot|
    ensures var prefix := BackupPathPrefix(assetPath);
      var listing := EnumerateBackupPaths(s, Some(assetPath));
      listing.Success? &&
      (f in listing.value <==>
        DirectoryName(prefix) in s.dirs && f in s.files
        && DirectoryName(f) == DirectoryName(prefix) && StartsWith(f, prefix))
  {
  }

  /** Everything the listing yields is a backup file on disk. */
  lemma ListedAreBackups(s: FsSnapshot, assetPath: string, f: string)
    requires |assetPath| >= |AssetPathRoot|
    requires f in EnumerateBackupPaths(s, Some(assetPath)).value
    ensures f in s.files && IsBackupPath(f)
  {
    EnumerateBackupPathsExactly(s, assetPath, f);
    StartsWithTransitive(f, BackupPathPrefix(assetPath), BackupRoot);
  }

  /** `CanRestoreFromBackup(assetPath)`: a tracked path whose listing is
      not empty; a backup file is then on disk. */
  ghost predicate CanRestoreFromBackup(s: FsSnapshot, assetPath: Option<string>)
    ensures CanRestoreFromBackup(s, assetPath) ==>
      HasAssetPathRoot(assetPath) && exists f :: f in s.files && IsBackupPath(f)
  {
    if !HasAssetPathRoot(assetPath) then false
    else
      var listed := EnumerateBackupPaths(s, assetPath).value;
      if listed == [] then false
      else ListedAreBackups(s, assetPath.value, listed[0]); true
  }

  /** A tracked asset can be restored exactly when some matching file exists
      in its (existing) backup directory. */
  lemma CanRestoreIff(s: FsSnapshot, assetPath: Option<string>)
    ensures CanRestoreFromBackup(s, assetPath) <==>
      HasAssetPathRoot(assetPath)
      && var prefix := BackupPathPrefix(assetPath.value);
         DirectoryName(prefix) in s.dirs
         && exists f :: f in s.files && DirectoryName(f) == DirectoryName(prefix) && StartsWith(f, prefix)
  {
    if HasAssetPathRoot(assetPath) {
      var prefix := BackupPathPrefix(assetPath.value);
      var listed := EnumerateBackupPaths(s, assetPath).value;
      if |listed| > 0 {
        EnumerateBackupPathsExactly(s, assetPath.value, listed[0]);
      }
      if DirectoryName(prefix) in s.dirs {
        if f :| f in s.files && DirectoryName(f) == DirectoryName(prefix) && StartsWith(f, prefix) {
          EnumerateBackupPathsExactly(s, assetPath.value, f);
        }
      }
    }
  }

  /** A backup on disk is listed for its own asset. */
  lemma BackupIsListed(s: FsSnapshot, assetPath: string, time: DateTime)
    requires |assetPath| >= |AssetPathRoot|
    requires BackupPath(assetPath, time) in s.files && DirectoryName(BackupPath(assetPath, time)) in s.dirs
    ensures BackupPath(assetPath, time) in EnumerateBackupPaths(s, Some(assetPath)).value
  {
    BackupDirectory(assetPath, time);
    var stem := FormatBackupPathWithoutTimestamp(assetPath);
    var token := FormatTimestamp(time);
    assert (stem + token)[..|stem| + 1] == stem + "(";
    EnumerateBackupPathsExactly(s, assetPath, BackupPath(assetPath, time));
  }

  /** The listing filter over-matches: the backups of the asset whose name
      is this one's followed by '(' and more text in the same folder (say
      `Assets/a(1).png` beside `Assets/a`) are listed as this asset's. */
  lemma SiblingBackupsAreListed(s: FsSnapshot, assetPath: string, suffix: string, time: DateTime)
    requires |assetPath| >= |AssetPathRoot| && '/' !in suffix
    requires BackupPath(assetPath + "(" + suffix, time) in s.files
    requires DirectoryName(BackupPathPrefix(assetPath)) in s.dirs
    ensures BackupPath(assetPath + "(" + suffix, time) in EnumerateBackupPaths(s, Some(assetPath)).value
  {
    var f := BackupPath(assetPath + "(" + suffix, time);
    SiblingName(assetPath, suffix, time);
    PrefixedName(assetPath, suffix + FormatTimestamp(time));
    EnumerateBackupPathsExactly(s, assetPath, f);
  }

  /** A backup of the sibling `assetPath(suffix` is this asset's listing
      prefix followed by the suffix and the token. */
  lemma SiblingName(assetPath: string, suffix: string, time: DateTime)
    requires |assetPath| >= |AssetPathRoot|
    ensures BackupPath(assetPath + "(" + suffix, time) == BackupPathPrefix(assetPath) + (suffix + FormatTimestamp(time))
  {
    SiblingStem(assetPath, suffix, FormatTimestamp(time));
  }

  /** `SiblingName` for any token in place of the timestamp. */
  lemma SiblingStem(assetPath: string, suffix: string, token: string)
    requires |assetPath| >= |AssetPathRoot|
    ensures FormatBackupPathWithoutTimestamp(assetPath + "(" + suffix) + token
      == BackupPathPrefix(assetPath) + (suffix + token)
  {
    Regroup(assetPath, suffix, []);
    StemAppend(assetPath, "(" + suffix);
    Regroup(FormatBackupPathWithoutTimestamp(assetPath), suffix, token);
  }

  /** Moving the `(` between the parts of a concatenation. */
  lemma Regroup(x: string, y: string, z: string)
    ensures (x + ("(" + y)) + z == (x + "(") + (y + z)
    ensures x + "(" + y == x + ("(" + y)
  {
  }

  /** A name made of the listing prefix and text without '/' passes the
      listing's filter and lies in the searched directory. */
  lemma PrefixedName(assetPath: string, rest: string)
    requires |assetPath| >= |AssetPathRoot| && '/' !in rest
    ensures var prefix := BackupPathPrefix(assetPath);
      StartsWith(prefix + rest, prefix) && DirectoryName(prefix + rest) == DirectoryName(prefix)
  {
    var stem := FormatBackupPathWithoutTimestamp(assetPath);
    assert stem + "(" + rest == stem + ("(" + rest);
    StemDirectory(assetPath, "(" + rest, "(");
  }

  /** After `BackupAsset` on an existing tracked asset, its new backup is
      listed and the asset can be restored. */
  lemma BackupMakesRestorable(s: FsSnapshot, assetPath: string)
    requires HasAssetPathRoot(Some(assetPath)) && SourcePath(assetPath) in s.files
    ensures var r := AfterBackupAsset(s, Some(assetPath));
      && BackupPath(assetPath, s.files[SourcePath(assetPath)].lastWriteTime)
           in EnumerateBackupPaths(r, Some(assetPath)).value
      && CanRestoreFromBackup(r, Some(assetPath))
  {
    var time := s.files[SourcePath(assetPath)].lastWriteTime;
    var r := AfterBackupAsset(s, Some(assetPath));
    BackupAssetCopies(s, assetPath);
    BackupIsListed(r, assetPath, time);
  }

  /** Among one asset's own backups, ascending name order is time order
      (for four-digit years), so the listing runs oldest to newest and its
      reverse newest first. */
  lemma BackupsSortByTime(assetPath: string, a: DateTime, b: DateTime)
    requires |assetPath| >= |AssetPathRoot|
    requires a.Valid() && b.Valid() && a.year >= 1000 && b.year >= 1000
    ensures Less(BackupPath(assetPath, a), BackupPath(assetPath, b)) <==> EarlierSecond(a, b)
  {
    StampedNameOrder(FormatBackupPathWithoutTimestamp(assetPath), a, b);
  }

  /** A listed backup file: its path and the time its name carries. */
  datatype BackupFile = BackupFile(path: string, time: DateTime)

  /** The LINQ `Select` of `EnumerateBackupFiles`, run to the end: the first
      name that fails to parse throws. */
  function ParseBackupFiles(paths: seq<string>): (r: Result<seq<BackupFile>, Exception>)
    ensures r.Success? ==> |r.value| == |paths|
    decreases |paths|
  {
    if paths == [] then Success([])
    else
      var time :- ParseBackupPathTimestamp(paths[0]);
      var rest :- ParseBackupFiles(paths[1..]);
      Success([BackupFile(paths[0], time)] + rest)
  }

  /** The parse succeeds exactly when every name parses, and then pairs each
      name with its time, in order; otherwise it throws what the first
      failing name throws. */
  lemma {:induction false} ParseBackupFilesSpec(paths: seq<string>)
    ensures var r := ParseBackupFiles(paths);
      && (r.Success? <==> forall i :: 0 <= i < |paths| ==> ParseBackupPathTimestamp(paths[i]).Success?)
      && (r.Success? ==> forall i :: 0 <= i < |paths| ==>
            r.value[i] == BackupFile(paths[i], ParseBackupPathTimestamp(paths[i]).value))
      && (r.Failure? ==>
            exists i :: 0 <= i < |paths| && ParseBackupPathTimestamp(paths[i]) == Failure(r.error)
                        && forall j :: 0 <= j < i ==> ParseBackupPathTimestamp(paths[j]).Success?)
    decreases |paths|
  {
    if paths != [] {
      var tail := paths[1..];
      var r := ParseBackupFiles(paths);
      var head := ParseBackupPathTimestamp(paths[0]);
      if head.Failure? {
        assert r == Failure(head.error);
      } else {
        ParseBackupFilesSpec(tail);
        var rest := ParseBackupFiles(tail);
        if rest.Failure? {
          assert r == Failure(rest.error);
          var k :| 0 <= k < |tail| && ParseBackupPathTimestamp(tail[k]) == Failure(rest.error)
            && forall j :: 0 <= j < k ==> ParseBackupPathTimestamp(tail[j]).Success?;
          assert tail[k] == paths[k + 1];
          forall j | 0 <= j < k + 1
            ensures ParseBackupPathTimestamp(paths[j]).Success?
          {
            if j > 0 {
              assert paths[j] == tail[j - 1];
            }
          }
        } else {
          assert r == Success([BackupFile(paths[0], head.value)] + rest.value);
          forall i | 0 <= i < |paths|
            ensures ParseBackupPathTimestamp(paths[i]).Success?
            ensures r.value[i] == BackupFile(paths[i], ParseBackupPathTimestamp(paths[i]).value)
          {
            if i > 0 {
              assert paths[i] == tail[i - 1];
            }
          }
        }
      }
    }
  }

  /** `EnumerateBackupFiles`: each listed path with its parsed time. */
  ghost function EnumerateBackupFiles(s: FsSnapshot, assetPath: Option<string>)
    : (r: Result<seq<BackupFile>, Exception>)
    ensures EnumerateBackupPaths(s, assetPath).Failure? ==> r == Failure(ArgumentOutOfRangeException)
    ensures r.Success? ==> EnumerateBackupPaths(s, assetPath).Success?
    ensures var listing := EnumerateBackupPaths(s, assetPath);
      listing.Success? ==>
        (r.Success? <==> forall i :: 0 <= i < |listing.value| ==> ParseBackupPathTimestamp(listing.value[i]).Success?)
    ensures var listing := EnumerateBackupPaths(s, assetPath);
      r.Success? ==>
        && |r.value| == |listing.value|
        && forall i :: 0 <= i < |r.value| ==>
             r.value[i].path == listing.value[i]
             && ParseBackupPathTimestamp(listing.value[i]) == Success(r.value[i].time)
    ensures var listing := EnumerateBackupPaths(s, assetPath);
      listing.Success? && r.Failure? ==>
        exists i :: 0 <= i < |listing.value| && ParseBackupPathTimestamp(listing.value[i]) == Failure(r.error)
                    && forall j :: 0 <= j < i ==> ParseBackupPathTimestamp(listing.value[j]).Success?
  {
    var paths :- EnumerateBackupPaths(s, assetPath);
    ParseBackupFilesSpec(paths);
    ParseBackupFiles(paths)
  }

  /** A backup that `BackupAsset` made is enumerated with its asset's time,
      truncated to whole seconds, whenever the enumeration succeeds. */
  lemma BackupIsEnumeratedWithItsTime(s: FsSnapshot, assetPath: string)
    requires WellFormed(s)
    requires HasAssetPathRoot(Some(assetPath)) && SourcePath(assetPath) in s.files
    ensures var time := s.files[SourcePath(assetPath)].lastWriteTime;
      var listing := EnumerateBackupFiles(AfterBackupAsset(s, Some(assetPath)), Some(assetPath));
      listing.Success? ==> BackupFile(BackupPath(assetPath, time), time.Truncated()) in listing.value
  {
    var time := s.files[SourcePath(assetPath)].lastWriteTime;
    var r := AfterBackupAsset(s, Some(assetPath));
    var paths := EnumerateBackupPaths(r, Some(assetPath)).value;
    BackupMakesRestorable(s, assetPath);
    var i :| 0 <= i < |paths| && paths[i] == BackupPath(assetPath, time);
    BackupPathTimestampRoundTrip(FormatBackupPathWithoutTimestamp(assetPath), time);
    var listing := ParseBackupFiles(paths);
    ParseBackupFilesSpec(paths);
    if listing.Success? {
      assert listing.value[i] == BackupFile(BackupPath(assetPath, time), time.Truncated());
    }
  }

  // ---------------------------------------------------------------------
  // Restoring

  /** Where `RestoreFromBackup` keeps the content it displaces: the asset's
      backup path for the asset file's current last-write time. */
  function DisplacedBackupPath(s: FsSnapshot, assetPath: string): (r: string)
    requires |assetPath| >= |AssetPathRoot|
    ensures r != SourcePath(assetPath) && IsBackupPath(r)
  {
    var r := BackupPath(assetPath, LastWriteTime(s, SourcePath(assetPath)));
    assert |r| > |SourcePath(assetPath)|;
    r
  }

  /** The result of `RestoreFromBackup(assetPath, backupPath)`: one
      `File.Replace(backupPath, asset file, displaced backup path)`. */
  function AfterRestoreFromBackup(s: FsSnapshot, assetPath: string, backupPath: string)
    : Result<FsSnapshot, IoError>
    requires |assetPath| >= |AssetPathRoot|
    requires backupPath != SourcePath(assetPath) && backupPath != DisplacedBackupPath(s, assetPath)
  {
    FileReplace(s, backupPath, SourcePath(assetPath), DisplacedBackupPath(s, assetPath))
  }

  /** `RestoreFromBackup(assetPath, backupPath)`; the re-import, refresh,
      log and scene reload that follow are not modelled. */
  method RestoreFromBackup(fs: FileSystem, assetPath: string, backupPath: string) returns (r: Outcome<IoError>)
    requires |assetPath| >= |AssetPathRoot|
    requires backupPath != SourcePath(assetPath) && backupPath != DisplacedBackupPath(fs.State(), assetPath)
    modifies fs
    ensures match AfterRestoreFromBackup(old(fs.State()), assetPath, backupPath)
      case Success(next) => r == Pass && fs.State() == next
      case Failure(e) => r == Fail(e) && fs.State() == old(fs.State())
  {
    var replacedPath := SourcePath(assetPath);
    var replacedTime := fs.GetLastWriteTime(replacedPath);
    var replacedBackupPath := BackupPath(assetPath, replacedTime);
    r := fs.Replace(backupPath, replacedPath, replacedBackupPath);
  }

  /** A restore fails, changing nothing, exactly when the chosen backup is
      missing, the asset file is missing, or the backup directory is. */
  lemma RestoreFailures(s: FsSnapshot, assetPath: string, backupPath: string)
    requires |assetPath| >= |AssetPathRoot|
    requires backupPath != SourcePath(assetPath) && backupPath != DisplacedBackupPath(s, assetPath)
    ensures var r := AfterRestoreFromBackup(s, assetPath, backupPath);
      && (backupPath !in s.files ==> r == Failure(SourceNotFound))
      && (backupPath in s.files && SourcePath(assetPath) !in s.files ==> r == Failure(DestinationNotFound))
      && (r.Failure? <==>
            (backupPath !in s.files || SourcePath(assetPath) !in s.files
             || DirectoryName(DisplacedBackupPath(s, assetPath)) !in s.dirs))
  {
  }

  /** A successful restore puts the chosen backup at the asset path, keeps
      the displaced content at the backup path for the asset's old
      last-write time, and removes the chosen backup's old name. */
  lemma RestoreSwaps(s: FsSnapshot, assetPath: string, backupPath: string)
    requires |assetPath| >= |AssetPathRoot|
    requires backupPath != SourcePath(assetPath) && backupPath != DisplacedBackupPath(s, assetPath)
    requires AfterRestoreFromBackup(s, assetPath, backupPath).Success?
    ensures var r := AfterRestoreFromBackup(s, assetPath, backupPath).value;
      && r.files[SourcePath(assetPath)] == s.files[backupPath]
      && r.files[DisplacedBackupPath(s, assetPath)] == s.files[SourcePath(assetPath)]
      && backupPath !in r.files
  {
    FileReplaceMoves(s, backupPath, SourcePath(assetPath), DisplacedBackupPath(s, assetPath), backupPath);
  }

  /** The displaced content's name carries the asset's old last-write time,
      to the second. */
  lemma DisplacedNameParses(s: FsSnapshot, assetPath: string)
    requires WellFormed(s)
    requires |assetPath| >= |AssetPathRoot|
    ensures ParseBackupPathTimestamp(DisplacedBackupPath(s, assetPath))
         == Success(LastWriteTime(s, SourcePath(assetPath)).Truncated())
  {
    BackupPathTimestampRoundTrip(FormatBackupPathWithoutTimestamp(assetPath), LastWriteTime(s, SourcePath(assetPath)));
  }

  /** A restore touches only the asset file, the chosen backup and the
      displaced backup; every other file and every directory is as it was. */
  lemma RestoreChangesNothingElse(s: FsSnapshot, assetPath: string, backupPath: string, p: string)
    requires |assetPath| >= |AssetPathRoot|
    requires backupPath != SourcePath(assetPath) && backupPath != DisplacedBackupPath(s, assetPath)
    requires AfterRestoreFromBackup(s, assetPath, backupPath).Success?
    requires p != SourcePath(assetPath) && p != DisplacedBackupPath(s, assetPath) && p != backupPath
    ensures var r := AfterRestoreFromBackup(s, assetPath, backupPath).value;
      && r.dirs == s.dirs
      && (p in r.files <==> p in s.files)
      && (p in s.files ==> r.files[p] == s.files[p])
  {
    FileReplaceMoves(s, backupPath, SourcePath(assetPath), DisplacedBackupPath(s, assetPath), p);
  }

  lemma RestorePreservesWellFormed(s: FsSnapshot, assetPath: string, backupPath: string)
    requires WellFormed(s)
    requires |assetPath| >= |AssetPathRoot|
    requires backupPath != SourcePath(assetPath) && backupPath != DisplacedBackupPath(s, assetPath)
    requires AfterRestoreFromBackup(s, assetPath, backupPath).Success?
    ensures WellFormed(AfterRestoreFromBackup(s, assetPath, backupPath).value)
  {
    FileReplacePreservesWellFormed(s, backupPath, SourcePath(assetPath), DisplacedBackupPath(s, assetPath));
  }

  /** After a restore the displaced content is itself a listed backup, so
      a tracked asset can be restored again. */
  lemma RestoreKeepsRestorable(s: FsSnapshot, assetPath: string, backupPath: string)
    requires HasAssetPathRoot(Some(assetPath))
    requires backupPath != SourcePath(assetPath) && backupPath != DisplacedBackupPath(s, assetPath)
    requires AfterRestoreFromBackup(s, assetPath, backupPath).Success?
    ensures var r := AfterRestoreFromBackup(s, assetPath, backupPath).value;
      && DisplacedBackupPath(s, assetPath) in EnumerateBackupPaths(r, Some(assetPath)).value
      && CanRestoreFromBackup(r, Some(assetPath))
  {
    var r := AfterRestoreFromBackup(s, assetPath, backupPath).value;
    var time := LastWriteTime(s, SourcePath(assetPath));
    BackupIsListed(r, assetPath, time);
  }
}
