/**
 * Applying parsed file operations to a snapshot of file contents, and the added/removed line
 * accounting for one operation (`src/patch.ts`).
 *
 * A snapshot maps a path to `Some(content)` or to `None` (JavaScript `null`: deleted or not yet
 * written). A path that is not a key at all is distinct from a path mapped to `None`: renaming
 * checks for the key, writing treats both alike.
 */
module Patch {
  import opened Wrappers
  import opened Types
  import opened JsStrings
  import opened LongestCommonSubsequence

  type FileStates = map<string, Option<string>>

  /** What a diff service (from the `diff-apply` library) returns for
      `(originalContent, diffContent)`: new content, a reported failure, or a thrown error. */
  datatype DiffOutcome = DiffApplied(content: string) | DiffFailed(error: string) | DiffThrew(message: string)

  type DiffService = (string, string) -> DiffOutcome

  /** The strategy-to-service table; the source registers `new-unified`,
      `multi-search-replace` and `unified`. */
  type PatcherRegistry = map<PatchStrategy, DiffService>

  function SourceRegistry(newUnified: DiffService, multiSearchReplace: DiffService, unified: DiffService): PatcherRegistry {
    map[NewUnified := newUnified, MultiSearchReplace := multiSearchReplace, Unified := unified]
  }

  datatype ApplyOperationsResult = Applied(newFileStates: FileStates) | Failed(error: string)

  /** `fileStates.get(path) ?? null` */
  function Lookup(files: FileStates, path: string): Option<string> {
    if path in files then files[path] else None
  }

  /** The paths an operation may change. */
  function Touched(op: FileOperation): set<string> {
    match op
    case Write(path, _, _) => {path}
    case Delete(path) => {path}
    case Rename(from, to) => {from, to}
  }

  /** One iteration of the loop in `applyOperations`. */
  function ApplyOperation(op: FileOperation, files: FileStates, patchers: PatcherRegistry): (r: ApplyOperationsResult)
    ensures r.Applied? ==> r.newFileStates.Keys == files.Keys + Touched(op)
    ensures r.Applied? ==> forall p :: p in files && p !in Touched(op) ==> r.newFileStates[p] == files[p]
  {
    match op
    case Delete(path) => Applied(files[path := None])
    case Rename(from, to) =>
      if from !in files then Failed("Cannot rename non-existent or untracked file: " + from)
      else Applied(files[from := None][to := files[from]])
    case Write(path, content, strategy) =>
      var current := Lookup(files, path);
      if strategy == Replace then Applied(files[path := Some(content)])
      else if current.None? && strategy == MultiSearchReplace then
        Failed("Cannot use 'multi-search-replace' on a new file: " + path)
      else if strategy !in patchers then
        Failed("Unknown patch strategy: '" + StrategyName(strategy) + "'")
      else
        match patchers[strategy](current.GetOr(""), content)
        case DiffApplied(newContent) => Applied(files[path := Some(newContent)])
        case DiffFailed(error) => Failed("Patch failed for " + path + ": " + error)
        case DiffThrew(message) =>
          Failed("Error applying patch for " + path + " with strategy '" + StrategyName(strategy) + "': " + message)
  }

  /** The paths a list of operations may change. */
  function TouchedAll(ops: seq<FileOperation>): set<string>
    decreases |ops|
  {
    if |ops| == 0 then {} else Touched(ops[0]) + TouchedAll(ops[1..])
  }

  /** The operations applied in order; the first failure is the result. A successful run adds
      exactly the paths the operations name as keys and leaves every other path as it was. */
  function ApplyAll(ops: seq<FileOperation>, files: FileStates, patchers: PatcherRegistry): (r: ApplyOperationsResult)
    ensures r.Applied? ==> r.newFileStates.Keys == files.Keys + TouchedAll(ops)
    ensures r.Applied? ==> forall p :: p in files && p !in TouchedAll(ops) ==> r.newFileStates[p] == files[p]
    decreases |ops|
  {
    if |ops| == 0 then Applied(files)
    else
      match ApplyOperation(ops[0], files, patchers)
      case Failed(error) => Failed(error)
      case Applied(next) => ApplyAll(ops[1..], next, patchers)
  }

  /** `applyOperations`: the input map is copied and the copy is updated operation by
      operation; an error returns at once and the partly updated copy is dropped. */
  method ApplyOperations(operations: seq<FileOperation>, originalFiles: FileStates, patchers: PatcherRegistry)
    returns (result: ApplyOperationsResult)
    ensures result == ApplyAll(operations, originalFiles, patchers)
  {
    var fileStates := originalFiles;
    for i := 0 to |operations|
      invariant ApplyAll(operations, originalFiles, patchers) == ApplyAll(operations[i..], fileStates, patchers)
    {
      var op := operations[i];
      assert operations[i..][0] == op && operations[i..][1..] == operations[i + 1..];
      ghost var step := ApplyOperation(op, fileStates, patchers);
      assert ApplyAll(operations[i..], fileStates, patchers) ==
             if step.Failed? then Failed(step.error) else ApplyAll(operations[i + 1..], step.newFileStates, patchers);
      match op {
        case Delete(path) =>
          fileStates := fileStates[path := None];
        case Rename(from, to) =>
          if from !in fileStates {
            return Failed("Cannot rename non-existent or untracked file: " + from);
          }
          var content := fileStates[from];
          fileStates := fileStates[from := None];
          fileStates := fileStates[to := content];
        case Write(path, content, strategy) =>
          var finalContent: string;
          var currentContent := if path in fileStates then fileStates[path] else None;
          if strategy == Replace {
            finalContent := content;
          } else {
            if currentContent.None? && strategy == MultiSearchReplace {
              return Failed("Cannot use 'multi-search-replace' on a new file: " + path);
            }
            var originalContent := if currentContent.Some? then currentContent.value else "";
            if strategy !in patchers {
              return Failed("Unknown patch strategy: '" + StrategyName(strategy) + "'");
            }
            var outcome := patchers[strategy](originalContent, content);
            match outcome {
              case DiffApplied(newContent) =>
                finalContent := newContent;
              case DiffFailed(error) =>
                return Failed("Patch failed for " + path + ": " + error);
              case DiffThrew(message) =>
                return Failed("Error applying patch for " + path + " with strategy '" + StrategyName(strategy) + "': " + message);
            }
          }
          fileStates := fileStates[path := Some(finalContent)];
      }
    }
    return Applied(fileStates);
  }

  // ---------------------------------------------------------------------------------------
  // Properties of the applier

  /** Running two lists one after the other is running their concatenation. */
  lemma {:induction false} ApplyAllAppend(a: seq<FileOperation>, b: seq<FileOperation>, files: FileStates, patchers: PatcherRegistry)
    ensures ApplyAll(a + b, files, patchers) ==
            match ApplyAll(a, files, patchers)
            case Failed(error) => Failed(error)
            case Applied(mid) => ApplyAll(b, mid, patchers)
    decreases |a|
  {
    if |a| == 0 {
      assert a + b == b;
    } else {
      assert (a + b)[0] == a[0] && (a + b)[1..] == a[1..] + b;
      match ApplyOperation(a[0], files, patchers)
      case Failed(_) =>
      case Applied(next) => ApplyAllAppend(a[1..], b, next, patchers);
    }
  }

  /** A failure is the error of the first operation that fails once all earlier ones
      have been applied. */
  lemma {:induction false} FailureComesFromOneOperation(ops: seq<FileOperation>, files: FileStates, patchers: PatcherRegistry)
    returns (k: nat)
    requires ApplyAll(ops, files, patchers).Failed?
    ensures k < |ops| && ApplyAll(ops[..k], files, patchers).Applied?
    ensures ApplyOperation(ops[k], ApplyAll(ops[..k], files, patchers).newFileStates, patchers)
            == ApplyAll(ops, files, patchers)
    decreases |ops|
  {
    assert ops[..0] == [];
    match ApplyOperation(ops[0], files, patchers)
    case Failed(_) =>
      k := 0;
    case Applied(next) =>
      var k' := FailureComesFromOneOperation(ops[1..], next, patchers);
      k := k' + 1;
      assert ops[..k] == [ops[0]] + ops[1..][..k'];
      ApplyAllAppend([ops[0]], ops[1..][..k'], files, patchers);
      assert ops[1..][k'] == ops[k];
  }

  /** Conversely, a prefix that applies followed by an operation that fails makes the whole
      list fail with that operation's error. */
  lemma FailingOperationFailsAll(ops: seq<FileOperation>, k: nat, files: FileStates, patchers: PatcherRegistry)
    requires k < |ops| && ApplyAll(ops[..k], files, patchers).Applied?
    requires ApplyOperation(ops[k], ApplyAll(ops[..k], files, patchers).newFileStates, patchers).Failed?
    ensures ApplyAll(ops, files, patchers)
            == ApplyOperation(ops[k], ApplyAll(ops[..k], files, patchers).newFileStates, patchers)
  {
    var mid := ApplyAll(ops[..k], files, patchers).newFileStates;
    assert ApplyAll(ops[k..], mid, patchers) == ApplyOperation(ops[k], mid, patchers) by {
      assert ops[k..][0] == ops[k];
    }
    assert ops == ops[..k] + ops[k..];
    ApplyAllAppend(ops[..k], ops[k..], files, patchers);
  }

  /** A success means every prefix of the list applied as well. */
  lemma SuccessAppliesEveryPrefix(ops: seq<FileOperation>, k: nat, files: FileStates, patchers: PatcherRegistry)
    requires k <= |ops| && ApplyAll(ops, files, patchers).Applied?
    ensures ApplyAll(ops[..k], files, patchers).Applied?
  {
    assert ops == ops[..k] + ops[k..];
    ApplyAllAppend(ops[..k], ops[k..], files, patchers);
  }

  /** Deleting always succeeds and marks the path `null`, whether or not it was there. */
  lemma DeleteAlwaysSucceeds(path: string, files: FileStates, patchers: PatcherRegistry)
    ensures ApplyAll([Delete(path)], files, patchers) == Applied(files[path := None])
  {
  }

  /** A rename fails exactly when its source is not a key; otherwise the source becomes
      `null` and the destination takes the source's former value, even when that value is
      `null` or the destination already existed. */
  lemma RenameFailsIffSourceMissing(from: string, to: string, files: FileStates, patchers: PatcherRegistry)
    ensures ApplyAll([Rename(from, to)], files, patchers).Failed? <==> from !in files
    ensures from in files ==>
      ApplyAll([Rename(from, to)], files, patchers) == Applied(files[from := None][to := files[from]])
  {
  }

  /** Renaming a path deleted earlier in the same list succeeds: the key is still there. */
  lemma RenameAfterDelete(path: string, to: string, files: FileStates, patchers: PatcherRegistry)
    ensures ApplyAll([Delete(path), Rename(path, to)], files, patchers) == Applied(files[path := None][to := None])
  {
    ApplyAllAppend([Delete(path)], [Rename(path, to)], files, patchers);
  }

  /** A `replace` write sets the path to the content verbatim, whatever was there. */
  lemma ReplaceWriteOverwrites(path: string, content: string, files: FileStates, patchers: PatcherRegistry)
    ensures ApplyAll([Write(path, content, Replace)], files, patchers) == Applied(files[path := Some(content)])
  {
  }

  /** Repeating a `replace` write anywhere in a list has the effect of writing it once. */
  lemma ReplaceWriteIdempotent(before: seq<FileOperation>, w: FileOperation, after: seq<FileOperation>, files: FileStates, patchers: PatcherRegistry)
    requires w.Write? && w.patchStrategy == Replace
    ensures ApplyAll(before + [w, w] + after, files, patchers) == ApplyAll(before + [w] + after, files, patchers)
  {
    ApplyAllAppend(before, [w, w] + after, files, patchers);
    ApplyAllAppend(before, [w] + after, files, patchers);
    assert before + [w, w] + after == before + ([w, w] + after);
    assert before + [w] + after == before + ([w] + after);
    match ApplyAll(before, files, patchers)
    case Failed(_) =>
    case Applied(mid) =>
      var once := mid[w.path := Some(w.content)];
      assert once[w.path := Some(w.content)] == once;
      assert ([w, w] + after)[1..] == [w] + after;
      assert ([w] + after)[1..] == after;
  }

  /** Delete then replace-write of one path, on its own. */
  lemma DeleteThenWrite(path: string, content: string, mid: FileStates, patchers: PatcherRegistry)
    ensures ApplyAll([Delete(path), Write(path, content, Replace)], mid, patchers) == Applied(mid[path := Some(content)])
  {
    var tail := [Delete(path), Write(path, content, Replace)];
    var deleted := mid[path := None];
    assert ApplyOperation(tail[0], mid, patchers) == Applied(deleted);
    assert tail[1..] == [Write(path, content, Replace)];
    assert ApplyAll(tail[1..], deleted, patchers) == Applied(deleted[path := Some(content)]);
    assert deleted[path := Some(content)] == mid[path := Some(content)];
  }

  /** A later write wins over an earlier delete of the same path. */
  lemma WriteAfterDelete(before: seq<FileOperation>, path: string, content: string, files: FileStates, patchers: PatcherRegistry)
    requires ApplyAll(before, files, patchers).Applied?
    ensures ApplyAll(before + [Delete(path), Write(path, content, Replace)], files, patchers)
            == Applied(ApplyAll(before, files, patchers).newFileStates[path := Some(content)])
  {
    ApplyAllAppend(before, [Delete(path), Write(path, content, Replace)], files, patchers);
    DeleteThenWrite(path, content, ApplyAll(before, files, patchers).newFileStates, patchers);
  }


  /** `multi-search-replace` on a path that is missing or `null` fails before any service
      is consulted. */
  lemma MultiSearchReplaceNeedsExistingFile(path: string, diff: string, files: FileStates, patchers: PatcherRegistry)
    requires path !in files || files[path].None?
    ensures ApplyAll([Write(path, diff, MultiSearchReplace)], files, patchers)
            == Failed("Cannot use 'multi-search-replace' on a new file: " + path)
  {
  }

  /** The other diff strategies run on a missing or `null` path with `""` as its content,
      and the service's outcome decides the result. */
  lemma DiffStrategyOnNewFile(path: string, diff: string, strategy: PatchStrategy, files: FileStates, patchers: PatcherRegistry)
    requires strategy == NewUnified || strategy == Unified
    requires path !in files || files[path].None?
    requires strategy in patchers
    ensures ApplyAll([Write(path, diff, strategy)], files, patchers) ==
      match patchers[strategy]("", diff)
      case DiffApplied(c) => Applied(files[path := Some(c)])
      case DiffFailed(e) => Failed("Patch failed for " + path + ": " + e)
      case DiffThrew(m) => Failed("Error applying patch for " + path + " with strategy '" + StrategyName(strategy) + "': " + m)
  {
  }

  /** On a file that has content, every strategy other than `replace` hands that content to
      its service; the service's outcome decides the result. */
  lemma DiffStrategyOnExistingFile(path: string, diff: string, strategy: PatchStrategy, files: FileStates, patchers: PatcherRegistry)
    requires strategy != Replace && strategy in patchers
    requires Lookup(files, path).Some?
    ensures ApplyAll([Write(path, diff, strategy)], files, patchers) ==
      match patchers[strategy](Lookup(files, path).value, diff)
      case DiffApplied(c) => Applied(files[path := Some(c)])
      case DiffFailed(e) => Failed("Patch failed for " + path + ": " + e)
      case DiffThrew(m) => Failed("Error applying patch for " + path + " with strategy '" + StrategyName(strategy) + "': " + m)
  {
  }

  /** A strategy with no registered service fails; with the source's table this never
      happens. */
  lemma UnknownStrategyFails(path: string, diff: string, strategy: PatchStrategy, files: FileStates, patchers: PatcherRegistry)
    requires strategy != Replace && strategy !in patchers
    requires strategy == MultiSearchReplace ==> Lookup(files, path).Some?
    ensures ApplyAll([Write(path, diff, strategy)], files, patchers)
            == Failed("Unknown patch strategy: '" + StrategyName(strategy) + "'")
  {
  }

  lemma SourceRegistryKnowsEveryStrategy(newUnified: DiffService, multiSearchReplace: DiffService, unified: DiffService, strategy: PatchStrategy)
    requires strategy != Replace
    ensures strategy in SourceRegistry(newUnified, multiSearchReplace, unified)
  {
  }

  // ---------------------------------------------------------------------------------------
  // Line-change accounting

  /** One cell of the table from its three neighbours. */
  lemma LcsPrefixCell(s1: seq<string>, s2: seq<string>, i: nat, j: nat, diagonal: nat, up: nat, left: nat)
    requires 1 <= i <= |s1| && 1 <= j <= |s2|
    requires diagonal == LcsPrefix(s1, s2, i - 1, j - 1)
    requires up == LcsPrefix(s1, s2, i - 1, j) && left == LcsPrefix(s1, s2, i, j - 1)
    ensures LcsPrefix(s1, s2, i, j) == if s1[i - 1] == s2[j - 1] then diagonal + 1 else Max(up, left)
  {
  }

  /** One pass of the outer loop of `calculateLcsLength`: `dp` holds row `i - 1` of the
      table on entry and row `i` on exit. */
  method FillRow(s1: seq<string>, s2: seq<string>, dp: array<nat>, i: nat)
    requires 1 <= i <= |s1| && dp.Length == |s2| + 1
    requires forall k :: 0 <= k <= |s2| ==> dp[k] == LcsPrefix(s1, s2, i - 1, k)
    modifies dp
    ensures forall k :: 0 <= k <= |s2| ==> dp[k] == LcsPrefix(s1, s2, i, k)
  {
    var prev := 0;
    for j := 1 to |s2| + 1
      invariant dp[0] == 0 == LcsPrefix(s1, s2, i, 0)
      invariant forall k :: 1 <= k < j ==> dp[k] == LcsPrefix(s1, s2, i, k)
      invariant forall k :: j <= k <= |s2| ==> dp[k] == LcsPrefix(s1, s2, i - 1, k)
      invariant prev == LcsPrefix(s1, s2, i - 1, j - 1)
    {
      var temp := dp[j];
      var left := dp[j - 1];
      assert left == LcsPrefix(s1, s2, i, j - 1);
      var cell := if s1[i - 1] == s2[j - 1] then prev + 1 else Max(temp, left);
      LcsPrefixCell(s1, s2, i, j, prev, temp, left);
      dp[j] := cell;
      prev := temp;
    }
  }

  /** `calculateLcsLength`: the single-row dynamic program over the longer and the shorter
      line list. */
  method CalculateLcsLength(a: seq<string>, b: seq<string>) returns (length: nat)
    ensures length == Lcs(a, b)
  {
    var s1, s2 := a, b;
    if |s1| < |s2| {
      s1, s2 := s2, s1;
    }
    var dp := new nat[|s2| + 1](_ => 0);
    for i := 1 to |s1| + 1
      invariant forall k :: 0 <= k <= |s2| ==> dp[k] == LcsPrefix(s1, s2, i - 1, k)
    {
      FillRow(s1, s2, dp, i);
    }
    length := dp[|s2|];
    LcsSymmetric(a, b);
  }

  datatype LineChanges = LineChanges(added: nat, removed: nat)

  /** `content.split('\n')`, or no lines for `null`. */
  function LinesOf(content: Option<string>): seq<string> {
    match content
    case None => []
    case Some(text) => Split(text, '\n')
  }

  /** `content ? content.split('\n') : []`: `null` and `""` both have no lines. */
  function LinesIfNonEmpty(content: Option<string>): seq<string> {
    if content.None? || content.value == "" then [] else Split(content.value, '\n')
  }

  /** `calculateLineChanges` */
  function CalculateLineChanges(op: FileOperation, originalFiles: FileStates, newFiles: FileStates): (r: LineChanges)
    ensures !op.Rename? ==> r.removed <= |LinesOf(Lookup(originalFiles, op.path))|
    ensures op.Write? ==> r.added <= |LinesOf(Lookup(newFiles, op.path))|
  {
    match op
    case Rename(_, _) => LineChanges(0, 0)
    case Delete(path) => LineChanges(0, |LinesIfNonEmpty(Lookup(originalFiles, path))|)
    case Write(path, _, _) =>
      var oldContent := Lookup(originalFiles, path);
      var newContent := Lookup(newFiles, path);
      if oldContent == newContent then LineChanges(0, 0)
      else
        var oldLines := LinesOf(oldContent);
        var newLines := LinesOf(newContent);
        if oldContent.None? || oldContent.value == "" then LineChanges(|newLines|, 0)
        else if newContent.None? || newContent.value == "" then LineChanges(0, |oldLines|)
        else
          var lcs := Lcs(oldLines, newLines);
          LineChanges(|newLines| - lcs, |oldLines| - lcs)
  }

  /** A rename changes no lines. */
  lemma RenameChangesNoLines(from: string, to: string, originalFiles: FileStates, newFiles: FileStates)
    ensures CalculateLineChanges(Rename(from, to), originalFiles, newFiles) == LineChanges(0, 0)
  {
  }

  /** A delete removes every line of the old content; `null` or `""` counts as no lines. */
  lemma DeleteRemovesOldLines(path: string, originalFiles: FileStates, newFiles: FileStates)
    ensures var before := Lookup(originalFiles, path);
      CalculateLineChanges(Delete(path), originalFiles, newFiles) ==
      LineChanges(0, if before.None? || before.value == "" then 0 else |Split(before.value, '\n')|)
  {
  }

  /** Unchanged content reports no change. */
  lemma IdenticalContentNoChanges(op: FileOperation, originalFiles: FileStates, newFiles: FileStates)
    requires op.Write? && Lookup(originalFiles, op.path) == Lookup(newFiles, op.path)
    ensures CalculateLineChanges(op, originalFiles, newFiles) == LineChanges(0, 0)
  {
  }

  /** A file that was `null` or `""` reports all its new lines as added. */
  lemma NewFileAllAdded(op: FileOperation, originalFiles: FileStates, newFiles: FileStates)
    requires op.Write? && Lookup(originalFiles, op.path) != Lookup(newFiles, op.path)
    requires Lookup(originalFiles, op.path) in {None, Some("")}
    ensures CalculateLineChanges(op, originalFiles, newFiles) == LineChanges(|LinesOf(Lookup(newFiles, op.path))|, 0)
  {
  }

  /** A file that becomes `null` or `""` reports all its old lines as removed. */
  lemma EmptiedFileAllRemoved(op: FileOperation, originalFiles: FileStates, newFiles: FileStates)
    requires op.Write? && Lookup(originalFiles, op.path) != Lookup(newFiles, op.path)
    requires Lookup(originalFiles, op.path) !in {None, Some("")}
    requires Lookup(newFiles, op.path) in {None, Some("")}
    ensures CalculateLineChanges(op, originalFiles, newFiles) == LineChanges(0, |LinesOf(Lookup(originalFiles, op.path))|)
  {
  }

  /** Otherwise both counts are measured against a longest common subsequence of lines, so
      their difference is exactly the change in length. */
  lemma EditedFileCountsAgainstLcs(op: FileOperation, originalFiles: FileStates, newFiles: FileStates)
    requires op.Write? && Lookup(originalFiles, op.path) != Lookup(newFiles, op.path)
    requires Lookup(originalFiles, op.path) !in {None, Some("")}
    requires Lookup(newFiles, op.path) !in {None, Some("")}
    ensures var oldLines := LinesOf(Lookup(originalFiles, op.path));
      var newLines := LinesOf(Lookup(newFiles, op.path));
      var r := CalculateLineChanges(op, originalFiles, newFiles);
      && r.added == |newLines| - Lcs(oldLines, newLines)
      && r.removed == |oldLines| - Lcs(oldLines, newLines)
      && r.added - r.removed == |newLines| - |oldLines|
  {
  }

  /** When the new content only inserts lines into a non-empty old one, nothing is reported
      removed and the added count is the number of inserted lines. (An old `""` counts as no
      lines at all, so there every new line is added.) */
  lemma InsertedLinesOnlyAdded(op: FileOperation, originalFiles: FileStates, newFiles: FileStates)
    requires op.Write? && Lookup(originalFiles, op.path).Some? && Lookup(newFiles, op.path).Some?
    requires Lookup(originalFiles, op.path) != Some("")
    requires IsSubsequence(LinesOf(Lookup(originalFiles, op.path)), LinesOf(Lookup(newFiles, op.path)))
    ensures var r := CalculateLineChanges(op, originalFiles, newFiles);
      r.removed == 0 &&
      r.added == |LinesOf(Lookup(newFiles, op.path))| - |LinesOf(Lookup(originalFiles, op.path))|
  {
    var oldText := Lookup(originalFiles, op.path).value;
    var newText := Lookup(newFiles, op.path).value;
    var oldLines := Split(oldText, '\n');
    var newLines := Split(newText, '\n');
    LcsOfSubsequence(oldLines, newLines);
    if oldText != newText && newText == "" {
      // The old lines fit into the single empty line, so the old text was empty too.
      assert newLines == [""];
      assert oldLines == [""];
      JoinSplit(oldText, '\n');
      assert false;
    }
  }

  /** The example of changing the middle one of three lines: one added, one removed. */
  lemma MiddleLineChangedExample()
    ensures CalculateLineChanges(Write("f", "", Replace), map["f" := Some("a\nb\nc")], map["f" := Some("a\nx\nc")])
            == LineChanges(1, 1)
  {
    var oldLines := Split("a\nb\nc", '\n');
    var newLines := Split("a\nx\nc", '\n');
    SplitJoin(["a", "b", "c"], '\n');
    SplitJoin(["a", "x", "c"], '\n');
    assert Join(["a", "b", "c"], "\n") == "a\nb\nc";
    assert Join(["a", "x", "c"], "\n") == "a\nx\nc";
    assert oldLines == ["a", "b", "c"] && newLines == ["a", "x", "c"];
    assert LcsPrefix(oldLines, newLines, 1, 1) == 1;
    assert LcsPrefix(oldLines, newLines, 2, 2) == 1;
    assert LcsPrefix(oldLines, newLines, 3, 3) == 2;
  }
}
