/** The table of source files the line table refers to by index. Files are only
    ever appended, so an index handed out once stays valid. Reading a file from
    disk is not part of this model: its text is a parameter. */
module SourceFiles {
  import opened Wrappers
  import opened CStrings

  datatype SrcFile = SrcFile(path: CString, content: CString, lineCount: nat)

  /** The line count stored for a file: its newlines, counted in a `u32`. */
  function LineCount(content: CString): nat {
    multiset(content)['\n'] % 0x1_0000_0000
  }

  function FindPathFrom(files: seq<SrcFile>, path: CString, from: nat): (r: Option<nat>)
    requires from <= |files|
    decreases |files| - from
    ensures r.Some? ==> from <= r.value < |files| && StringsMatch(path, files[r.value].path)
    ensures r.Some? ==> forall j :: from <= j < r.value ==> !StringsMatch(path, files[j].path)
    ensures r.None? ==> forall j :: from <= j < |files| ==> !StringsMatch(path, files[j].path)
  {
    if from == |files| then None
    else if StringsMatch(path, files[from].path) then Some(from)
    else FindPathFrom(files, path, from + 1)
  }

  /** The index of the first file whose path `StringsMatch`es `path`. */
  function FindPath(files: seq<SrcFile>, path: CString): (r: Option<nat>)
    ensures r.Some? ==> r.value < |files| && StringsMatch(path, files[r.value].path)
    ensures r.Some? ==> forall j :: 0 <= j < r.value ==> !StringsMatch(path, files[j].path)
    ensures r.None? ==> forall j :: 0 <= j < |files| ==> !StringsMatch(path, files[j].path)
  {
    FindPathFrom(files, path, 0)
  }

  /** The table and index after asking for `path`: the first matching file when
      there is one, otherwise a new file appended at the end. */
  function Associate(files: seq<SrcFile>, path: CString, content: CString): (r: (seq<SrcFile>, nat))
    ensures r.1 < |r.0| && StringsMatch(path, r.0[r.1].path)
    ensures FindPath(files, path).Some? ==> r.1 == FindPath(files, path).value
    ensures forall j :: 0 <= j < r.1 ==> !StringsMatch(path, r.0[j].path)
    ensures |files| <= |r.0| && r.0[..|files|] == files
    ensures FindPath(files, path).Some? ==> r.0 == files
    ensures FindPath(files, path).None? ==>
      r.0 == files + [SrcFile(path, content, LineCount(content))] && r.1 == |files|
  {
    StringsMatchIsPrefixRelation(path, path);
    match FindPath(files, path)
    case Some(i) => (files, i)
    case None => (files + [SrcFile(path, content, LineCount(content))], |files|)
  }

  /** Asking twice for the same path returns the same index and leaves the table
      as the first request left it, whatever text the second request would read. */
  lemma AssociateIdempotent(files: seq<SrcFile>, path: CString, content: CString, again: CString)
    ensures Associate(Associate(files, path, content).0, path, again) == Associate(files, path, content)
  {
    var (f1, i1) := Associate(files, path, content);
    StringsMatchIsPrefixRelation(path, path);
    if FindPath(files, path).None? {
      assert FindPath(f1, path) == Some(i1) by {
        assert forall j :: 0 <= j < |files| ==> f1[j] == files[j];
      }
    }
  }

  class SourceFileTable {
    var files: seq<SrcFile>

    constructor ()
      ensures files == []
    {
      files := [];
    }

    /** `FindSourceFile`: the first file whose path matches, or null. */
    method FindSourceFile(path: CString) returns (r: Option<nat>)
      ensures r == FindPath(files, path)
    {
      var i := 0;
      while i < |files|
        invariant 0 <= i <= |files|
        invariant FindPathFrom(files, path, 0) == FindPathFrom(files, path, i)
      {
        if StringsMatch(path, files[i].path) {
          return Some(i);
        }
        i := i + 1;
      }
      return None;
    }

    /** `PushSourceFile`: appends a file with its text and line count. */
    method PushSourceFile(path: CString, content: CString) returns (index: nat)
      modifies this
      ensures files == old(files) + [SrcFile(path, content, LineCount(content))]
      ensures index == |old(files)|
    {
      var lines := StringCountChar(content, '\n');
      files := files + [SrcFile(path, content, lines)];
      index := |files| - 1;
    }

    /** `GetSourceFile`: the matching file, pushing one when there is none. */
    method GetSourceFile(path: CString, content: CString) returns (index: nat)
      modifies this
      ensures (files, index) == Associate(old(files), path, content)
    {
      var found := FindSourceFile(path);
      if found.None? {
        index := PushSourceFile(path, content);
      } else {
        index := found.value;
      }
    }

    /** `SrcFileAssociatePath`: the same lookup, returning the index; it pushes when
        the table is empty or nothing matched. */
    method SrcFileAssociatePath(path: CString, content: CString) returns (index: nat)
      modifies this
      ensures (files, index) == Associate(old(files), path, content)
    {
      var found: Option<nat> := None;
      var i := 0;
      while i < |files|
        invariant 0 <= i <= |files|
        invariant FindPathFrom(files, path, 0) == FindPathFrom(files, path, i)
      {
        if StringsMatch(path, files[i].path) {
          found := Some(i);
          break;
        }
        i := i + 1;
      }
      if |files| == 0 || found.None? {
        index := PushSourceFile(path, content);
      } else {
        index := found.value;
      }
    }
  }
}
