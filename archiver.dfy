/** The archiver: `create_zip_archive` stores, under its bare name, every
    listed file that exists in the working area, and skips the others. */
module Archiver {

  /** The members the archive gets for `files`, in list order, when the
      working area holds the names in `present`. */
  function Selected(present: set<string>, files: seq<string>): seq<string>
    decreases |files|
  {
    if files == [] then []
    else
      var last := files[|files| - 1];
      Selected(present, files[..|files| - 1]) + (if last in present then [last] else [])
  }

  /** The loop of `create_zip_archive`: each listed name that exists in the
      source directory is written with `arcname=filename`. */
  method CreateZipArchive(present: set<string>, files: seq<string>) returns (members: seq<string>)
    ensures members == Selected(present, files)
  {
    members := [];
    for i := 0 to |files|
      invariant members == Selected(present, files[..i])
    {
      assert files[..i + 1][..i] == files[..i];
      var filename := files[i];
      if filename in present {
        members := members + [filename];
      }
    }
    assert files[..|files|] == files;
  }

  /** The archive holds exactly the listed names that exist, never more
      members than names listed. */
  lemma {:induction false} SelectedMembers(present: set<string>, files: seq<string>)
    ensures forall f :: f in Selected(present, files) <==> f in files && f in present
    ensures |Selected(present, files)| <= |files|
    decreases |files|
  {
    if files != [] {
      var init := files[..|files| - 1];
      assert files == init + [files[|files| - 1]];
      SelectedMembers(present, init);
    }
  }

  /** When every listed file exists, the archive holds the list unchanged. */
  lemma {:induction false} SelectedAllPresent(present: set<string>, files: seq<string>)
    requires forall i :: 0 <= i < |files| ==> files[i] in present
    ensures Selected(present, files) == files
    decreases |files|
  {
    if files != [] {
      var init := files[..|files| - 1];
      SelectedAllPresent(present, init);
      assert files == init + [files[|files| - 1]];
    }
  }
}
