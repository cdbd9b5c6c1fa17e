/** The file intersection of `compareFiles` (app.js lines 83-88): the names in
    today's listing that also occur in the baseline folder's listing, in
    today's order. Only these files are diffed. */
module Intersection {

  import opened Sequences

  /** The test of app.js line 85, `prevFiles.includes(file)`. */
  function InPrevious(prevFiles: seq<string>): string -> bool
  {
    file => file in prevFiles
  }

  /** The names to diff, as a specification. */
  function Common(todayFiles: seq<string>, prevFiles: seq<string>): seq<string>
  {
    Filter(todayFiles, InPrevious(prevFiles))
  }

  /** A name is diffed exactly when it is in both listings. */
  lemma CommonMembers(todayFiles: seq<string>, prevFiles: seq<string>, file: string)
    ensures file in Common(todayFiles, prevFiles) <==> file in todayFiles && file in prevFiles
  {
    FilterMembers(todayFiles, InPrevious(prevFiles), file);
  }

  /** The order is today's: splitting today's listing splits the result. */
  lemma CommonInOrder(a: seq<string>, b: seq<string>, prevFiles: seq<string>)
    ensures Common(a + b, prevFiles) == Common(a, prevFiles) + Common(b, prevFiles)
  {
    FilterConcat(a, b, InPrevious(prevFiles));
  }

  /** Files found on one side only are skipped: with a baseline folder holding
      a.html and b.html and today's holding b.html and c.html, only b.html is
      diffed. */
  lemma OneSidedFilesSkipped()
    ensures Common(["b.html", "c.html"], ["a.html", "b.html"]) == ["b.html"]
  {
    var prev := ["a.html", "b.html"];
    assert InPrevious(prev)("b.html");
    assert !InPrevious(prev)("c.html");
    assert ["b.html", "c.html"][1..] == ["c.html"];
  }

  /** The loop of lines 83-88, pushing each of today's names that the previous
      listing includes. */
  method FilesToDiff(todayFiles: seq<string>, prevFiles: seq<string>) returns (filesToDiff: seq<string>)
    ensures filesToDiff == Common(todayFiles, prevFiles)
    ensures forall k :: 0 <= k < |filesToDiff| ==> filesToDiff[k] in todayFiles && filesToDiff[k] in prevFiles
  {
    filesToDiff := [];
    var i := 0;
    while i < |todayFiles|
      invariant 0 <= i <= |todayFiles|
      invariant filesToDiff == Common(todayFiles[..i], prevFiles)
    {
      var file := todayFiles[i];
      assert todayFiles[..i + 1] == todayFiles[..i] + [file];
      FilterSnoc(todayFiles[..i], file, InPrevious(prevFiles));
      if file in prevFiles {
        filesToDiff := filesToDiff + [file];
      }
      i := i + 1;
    }
    assert todayFiles[..i] == todayFiles;
    forall k | 0 <= k < |filesToDiff|
      ensures filesToDiff[k] in todayFiles && filesToDiff[k] in prevFiles
    {
      CommonMembers(todayFiles, prevFiles, filesToDiff[k]);
    }
  }
}
