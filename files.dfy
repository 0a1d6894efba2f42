/** The files a tool receives (`RxFiles`) and `getFiles`, which picks one
    of them by extension. */
module Files {
  import opened Wrappers

  /** `RxFile`. */
  datatype RxFile = RxFile(
    fileName: string,
    name: string,
    extension: string,
    language: string,
    content: string,
    isComplete: bool)

  /** A value of `RxFiles`: one file, or an array of files. */
  datatype FileEntry = One(file: RxFile) | Several(files: seq<RxFile>)

  /** `RxFiles`, a record from names to entries, listed in key order. */
  type RxFiles = seq<(string, FileEntry)>

  /** `file.extension === extName`. An array has no `extension` property, so
      it reads as `undefined` and matches exactly an undefined `extName`. */
  predicate Matches(e: FileEntry, extName: Option<string>) {
    match e
    case One(f) => extName == Some(f.extension)
    case Several(_) => extName.None?
  }

  /** `getFiles(files, {extName})`: the last entry, in key order, whose
      extension is `extName`; `undefined` when none is. */
  method GetFiles(files: RxFiles, extName: Option<string>) returns (result: Option<FileEntry>)
    ensures result.None? <==> forall i | 0 <= i < |files| :: !Matches(files[i].1, extName)
    ensures result.Some? ==>
      exists i | 0 <= i < |files| ::
        files[i].1 == result.value && Matches(result.value, extName) &&
        forall j | i < j < |files| :: !Matches(files[j].1, extName)
  {
    result := None;
    var i := 0;
    while i < |files|
      invariant 0 <= i <= |files|
      invariant result.None? <==> forall k | 0 <= k < i :: !Matches(files[k].1, extName)
      invariant result.Some? ==>
        exists k | 0 <= k < i ::
          files[k].1 == result.value && Matches(result.value, extName) &&
          forall j | k < j < i :: !Matches(files[j].1, extName)
    {
      var file := files[i].1;
      if Matches(file, extName) {
        result := Some(file);
      }
      i := i + 1;
    }
  }

  /** With a defined `extName`, an entry that matches is a single file with
      exactly that extension: arrays of files are never returned. */
  lemma DefinedExtensionMatchesOneFile(e: FileEntry, ext: string)
    requires Matches(e, Some(ext))
    ensures e.One? && e.file.extension == ext
  {
  }

  /** The file `getFiles(files, {extName: ext})` would return, as a function
      for the modules that only read it. */
  function LastMatch(files: RxFiles, ext: string): (r: Option<RxFile>)
    ensures r.None? <==> forall i | 0 <= i < |files| :: !Matches(files[i].1, Some(ext))
    ensures r.Some? ==>
      exists i | 0 <= i < |files| ::
        files[i].1 == One(r.value) && r.value.extension == ext &&
        forall j | i < j < |files| :: !Matches(files[j].1, Some(ext))
  {
    if files == [] then None
    else
      var n := |files| - 1;
      var last := files[n].1;
      if Matches(last, Some(ext)) then Some(last.file)
      else
        var r := LastMatch(files[..n], ext);
        assert forall i | 0 <= i < n :: files[..n][i] == files[i];
        r
  }

  /** `GetFiles` with a defined extension returns what `LastMatch` names. */
  lemma {:induction false} LastMatchIsGetFiles(files: RxFiles, ext: string, result: Option<FileEntry>)
    requires result.None? <==> forall i | 0 <= i < |files| :: !Matches(files[i].1, Some(ext))
    requires result.Some? ==>
      exists i | 0 <= i < |files| ::
        files[i].1 == result.value && Matches(result.value, Some(ext)) &&
        forall j | i < j < |files| :: !Matches(files[j].1, Some(ext))
    ensures result == (var m := LastMatch(files, ext); if m.Some? then Some(One(m.value)) else None)
  {
    var m := LastMatch(files, ext);
    if result.Some? {
      var i :| 0 <= i < |files| && files[i].1 == result.value && Matches(result.value, Some(ext)) &&
        forall j | i < j < |files| :: !Matches(files[j].1, Some(ext));
      var i' :| 0 <= i' < |files| && files[i'].1 == One(m.value) && m.value.extension == ext &&
        forall j | i' < j < |files| :: !Matches(files[j].1, Some(ext));
      assert Matches(files[i'].1, Some(ext)) && Matches(files[i].1, Some(ext));
      assert i == i';
    }
  }
}
