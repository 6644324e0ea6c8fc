/**
 * Turning an assistant's reply into file operations (`src/parser.ts`): the trailing metadata
 * block is located and cut out, every fenced code block is classified as a write, delete or
 * rename, and the text left over becomes the reasoning lines.
 *
 * The two regular-expression scanners, the YAML loader with its schema, the JSON decoder of
 * rename bodies and the sentinel marker strings are not part of this model; they are given
 * as a `Collaborators` value.
 */
module Parser {
  import opened Wrappers
  import opened Types
  import opened JsStrings

  /** The sentinel strings: start and end of the code inside a block, the body that marks a
      deletion, and the header that marks a rename. */
  datatype Markers = Markers(codeStart: string, codeEnd: string, deleteFile: string, renameFile: string)

  /** One match of the code-block pattern: the whole match, the header after `//` or after
      whitespace (each `None` when its group did not take part), and the body. */
  datatype BlockMatch = BlockMatch(fullMatch: string, commentHeader: Option<string>, spaceHeader: Option<string>, body: string)

  /** One match of the fenced-yaml pattern: where it starts, the whole match and the body. */
  datatype YamlBlockMatch = YamlBlockMatch(index: nat, fullMatch: string, body: string)

  /** A rename body decoded from JSON and checked to have string `from` and `to`. */
  datatype RenamePayload = RenamePayload(from: string, to: string)

  datatype Collaborators = Collaborators(
    markers: Markers,
    scanCodeBlocks: string -> seq<BlockMatch>,
    scanYamlBlocks: string -> seq<YamlBlockMatch>,
    loadControl: string -> Option<ControlYaml>,
    decodeRename: string -> Option<RenamePayload>)

  datatype ParsedHeader = ParsedHeader(filePath: string, patchStrategy: Option<PatchStrategy>)

  /** `a || b` where `a` may be undefined: `undefined` and `""` are both falsy. */
  function OrElse(a: Option<string>, b: string): string {
    if a.Some? && a.value != "" then a.value else b
  }

  // ---------------------------------------------------------------------------------------
  // Sentinel stripping

  /** The text `extractCodeBetweenMarkers` keeps before trimming: the part between the first
      start marker and the last end marker when the end marker comes later, else all. */
  function MarkedRegion(content: string, markers: Markers): (r: string)
    ensures var i := IndexOf(content, markers.codeStart);
      var e := LastIndexOf(content, markers.codeEnd);
      && (i == -1 || e == -1 || e <= i ==> r == content)
      && (i != -1 && e != -1 && i < e && i + |markers.codeStart| <= e ==> r == content[i + |markers.codeStart|..e])
      && (i != -1 && e != -1 && i < e < i + |markers.codeStart| ==> r == content[e..i + |markers.codeStart|])
  {
    var startIndex := IndexOf(content, markers.codeStart);
    var endIndex := LastIndexOf(content, markers.codeEnd);
    if startIndex != -1 && endIndex != -1 && endIndex > startIndex then
      Substring(content, startIndex + |markers.codeStart|, endIndex)
    else content
  }

  lemma {:induction false} AvoidsPairSlice(s: string, a: char, b: char, lo: nat, hi: nat)
    requires lo <= hi <= |s| && AvoidsPair(s, a, b)
    ensures AvoidsPair(s[lo..hi], a, b)
  {
    var t := s[lo..hi];
    forall i | 0 <= i < |t| - 1 ensures !(t[i] == a && t[i + 1] == b) {
      assert t[i] == s[lo + i] && t[i + 1] == s[lo + i + 1];
    }
  }

  lemma MarkedRegionAvoidsPair(content: string, markers: Markers, a: char, b: char)
    requires AvoidsPair(content, a, b)
    ensures AvoidsPair(MarkedRegion(content, markers), a, b)
  {
    var r := MarkedRegion(content, markers);
    var i := IndexOf(content, markers.codeStart);
    var e := LastIndexOf(content, markers.codeEnd);
    if i != -1 && e != -1 && i < e && i + |markers.codeStart| <= e {
      assert r == content[i + |markers.codeStart|..e];
      AvoidsPairSlice(content, a, b, i + |markers.codeStart|, e);
    } else if i != -1 && e != -1 && i < e < i + |markers.codeStart| {
      assert r == content[e..i + |markers.codeStart|];
      AvoidsPairSlice(content, a, b, e, i + |markers.codeStart|);
    } else {
      assert r == content;
    }
  }

  lemma TrimAvoidsPair(s: string, a: char, b: char)
    requires AvoidsPair(s, a, b)
    ensures AvoidsPair(Trim(s), a, b)
  {
    var lead := LeadingWhitespace(s);
    AvoidsPairSlice(s, a, b, lead, lead + |Trim(s)|);
  }

  /** The trimmed region with its CR LF pairs replaced has no whitespace at either end, and
      no CR LF when the content has no two carriage returns in a row. */
  lemma CleanedRegion(content: string, markers: Markers, t: string)
    requires t == Trim(MarkedRegion(content, markers))
    ensures IsTrimmed(ReplaceCrLf(t))
    ensures AvoidsPair(content, '\r', '\r') ==> AvoidsPair(ReplaceCrLf(t), '\r', '\n')
  {
    if |t| > 0 {
      ReplaceCrLfEnds(t);
    }
    if AvoidsPair(content, '\r', '\r') {
      MarkedRegionAvoidsPair(content, markers, '\r', '\r');
      TrimAvoidsPair(MarkedRegion(content, markers), '\r', '\r');
      ReplaceCrLfRemovesAllPairs(t);
    }
  }

  /** `extractCodeBetweenMarkers`: the marked region, trimmed, with CR LF replaced by LF. The
      result has no whitespace at either end; when the content has no two carriage returns in
      a row, it has no CR LF either. */
  function ExtractCodeBetweenMarkers(content: string, markers: Markers): (r: string)
    ensures IsTrimmed(r)
    ensures AvoidsPair(content, '\r', '\r') ==> AvoidsPair(r, '\r', '\n')
  {
    CleanedRegion(content, markers, Trim(MarkedRegion(content, markers)));
    ReplaceCrLf(Trim(MarkedRegion(content, markers)))
  }

  /** Without that condition a CR LF can remain: the single pass turns CR CR LF into CR LF. */
  lemma ExtractedCodeMayKeepCrLf(markers: Markers)
    requires IndexOf("a\r\r\nb", markers.codeStart) == -1
    ensures ExtractCodeBetweenMarkers("a\r\r\nb", markers) == "a\r\nb"
    ensures !AvoidsPair(ExtractCodeBetweenMarkers("a\r\r\nb", markers), '\r', '\n')
  {
    var s := "a\r\r\nb";
    assert LeadingWhitespace(s) == 0;
    assert TrailingWhitespace(s) == 0;
    assert Trim(s) == s;
    assert ReplaceCrLf(s) == "a\r\nb" by {
      assert s[1..] == "\r\r\nb";
      assert ReplaceCrLf("\r\r\nb") == "\r" + ReplaceCrLf("\r\nb");
      assert ReplaceCrLf("\r\nb") == "\n" + ReplaceCrLf("b");
    }
    var r := "a\r\nb";
    assert r[1] == '\r' && r[2] == '\n';
  }

  // ---------------------------------------------------------------------------------------
  // Header line grammar

  /** What follows the closing quote matches `(?:\s+(.*))?$`: nothing, or whitespace and
      then the rest of a single line. */
  predicate QuotedTailMatches(rest: string) {
    rest == [] || (IsWhitespace(rest[0]) && NoLineTerminator(rest[LeadingWhitespace(rest)..]))
  }

  /** Capture group 2 for a matching tail: `None` when the optional group did not take part. */
  function QuotedTailGroup(rest: string): Option<string> {
    if rest == [] then None else Some(rest[LeadingWhitespace(rest)..])
  }

  /** `/^"(.+?)"(?:\s+(.*))?$/` matches `h` with the closing quote at `h[q]`. */
  predicate QuotedMatchAt(h: string, q: nat) {
    && 2 <= q < |h| && h[0] == '"' && h[q] == '"'
    && NoLineTerminator(h[1..q]) && QuotedTailMatches(h[q + 1..])
  }

  function QuotedCloseFrom(h: string, from: nat): (q: int)
    ensures q == -1 ==> forall k: nat :: from <= k ==> !QuotedMatchAt(h, k)
    ensures q != -1 ==> from <= q && QuotedMatchAt(h, q) && forall k: nat :: from <= k < q ==> !QuotedMatchAt(h, k)
    decreases |h| - from
  {
    if from >= |h| then -1
    else if QuotedMatchAt(h, from) then from
    else QuotedCloseFrom(h, from + 1)
  }

  /** The lazy `(.+?)` ends at the first closing quote after which the rest of the pattern
      matches; -1 when the quoted pattern does not match at all. */
  function QuotedClose(h: string): (q: int)
    ensures q == -1 <==> forall k: nat :: !QuotedMatchAt(h, k)
    ensures q != -1 ==> 0 <= q && QuotedMatchAt(h, q) && forall k: nat :: k < q ==> !QuotedMatchAt(h, k)
  {
    QuotedCloseFrom(h, 2)
  }

  /** The quoted branch of `parseCodeBlockHeader`, for the closing quote `q`: the text between
      the quotes is the path, and the trimmed capture group, when non-empty, must name a
      strategy. */
  function ParseQuotedHeader(h: string, q: nat): (r: Option<ParsedHeader>)
    requires 2 <= q < |h|
    ensures r.Some? ==> r.value.filePath == h[1..q]
  {
    var strategyStr := Trim(QuotedTailGroup(h[q + 1..]).GetOr(""));
    if strategyStr != "" then
      match ParseStrategy(strategyStr)
      case None => None
      case Some(strategy) => Some(ParsedHeader(h[1..q], Some(strategy)))
    else Some(ParsedHeader(h[1..q], None))
  }

  /** The unquoted branch: one token is the path; two tokens are a path and a strategy, or,
      when the second names none, the whole line is the path; anything else is rejected. */
  function ParseUnquotedHeader(h: string): (r: Option<ParsedHeader>)
    ensures r.Some? ==> r.value.filePath != ""
  {
    var parts := SplitWhitespace(h);
    if |parts| == 1 && parts[0] != "" then Some(ParsedHeader(parts[0], None))
    else if |parts| == 2 && parts[0] != "" && parts[1] != "" then
      match ParseStrategy(parts[1])
      case Some(strategy) => Some(ParsedHeader(parts[0], Some(strategy)))
      case None => Some(ParsedHeader(h, None))
    else None
  }

  /** `parseCodeBlockHeader`: a quoted path with an optional strategy, or one or two
      whitespace-separated tokens. */
  function ParseCodeBlockHeader(h: string): (r: Option<ParsedHeader>)
    ensures r.Some? ==> r.value.filePath != ""
  {
    var q := QuotedClose(h);
    if q != -1 then ParseQuotedHeader(h, q) else ParseUnquotedHeader(h)
  }

  /** No closing quote can come before the end of a quote-free path. */
  lemma QuotedPathFirstQuote(h: string, path: string, k: nat)
    requires |path| >= 1 && '"' !in path
    requires |h| >= |path| + 2 && h[..|path| + 2] == "\"" + path + "\""
    requires k < |path| + 1
    ensures !QuotedMatchAt(h, k)
  {
    if 2 <= k {
      assert h[k] == path[k - 1];
    }
  }

  /** For a quote-free path in quotes followed by a tail the pattern accepts, the closing
      quote is the one right after the path. */
  lemma QuotedCloseAfterPath(h: string, path: string)
    requires |path| >= 1 && '"' !in path && NoLineTerminator(path)
    requires |h| >= |path| + 2 && h[..|path| + 2] == "\"" + path + "\""
    requires QuotedTailMatches(h[|path| + 2..])
    ensures QuotedClose(h) == |path| + 1 && h[1..|path| + 1] == path
  {
    var q := |path| + 1;
    var pre := h[..q + 1];
    assert pre[1..q] == path;
    assert h[1..q] == pre[1..q];
    assert h[q] == pre[q] == '"';
    assert QuotedMatchAt(h, q);
    forall k: nat | k < q ensures !QuotedMatchAt(h, k) {
      QuotedPathFirstQuote(h, path, k);
    }
  }

  /** A quoted path on its own: the text between the quotes, no strategy. */
  lemma QuotedPathOnly(path: string)
    requires |path| >= 1 && '"' !in path && NoLineTerminator(path)
    ensures ParseCodeBlockHeader("\"" + path + "\"") == Some(ParsedHeader(path, None))
  {
    var h := "\"" + path + "\"";
    assert h[..|path| + 2] == h;
    assert h[|path| + 2..] == [];
    QuotedCloseAfterPath(h, path);
  }

  /** A whitespace run followed by a word on one line is a tail the pattern accepts, and
      the word is its capture group. */
  lemma WhitespaceTail(gap: string, word: string)
    requires |gap| > 0 && AllWhitespace(gap)
    requires word == [] || !IsWhitespace(word[0])
    requires NoLineTerminator(word)
    ensures QuotedTailMatches(gap + word) && QuotedTailGroup(gap + word) == Some(word)
  {
    LeadingWhitespaceOfRun(gap, word);
    assert (gap + word)[|gap|..] == word;
  }

  /** Once the closing quote and a trimmed, non-empty capture group are known, the group
      decides the strategy. */
  lemma QuotedHeaderWithWord(h: string, q: nat, word: string)
    requires QuotedClose(h) == q
    requires q + 1 <= |h| && QuotedTailGroup(h[q + 1..]) == Some(word)
    requires word != "" && IsTrimmed(word)
    ensures ParseCodeBlockHeader(h) ==
      match ParseStrategy(word)
      case None => None
      case Some(strategy) => Some(ParsedHeader(h[1..q], Some(strategy)))
  {
    assert QuotedMatchAt(h, q);
    TrimOfTrimmed(word);
    assert Trim(QuotedTailGroup(h[q + 1..]).GetOr("")) == word;
  }

  /** A quoted path followed by whitespace and a word: the word must name a strategy, or the
      header is rejected. */
  lemma QuotedPathWithStrategy(path: string, gap: string, word: string)
    requires |path| >= 1 && '"' !in path && NoLineTerminator(path)
    requires |gap| > 0 && AllWhitespace(gap)
    requires word != "" && IsTrimmed(word) && NoLineTerminator(word)
    ensures ParseCodeBlockHeader("\"" + path + "\"" + gap + word) ==
      match ParseStrategy(word)
      case None => None
      case Some(strategy) => Some(ParsedHeader(path, Some(strategy)))
  {
    var pre := "\"" + path + "\"";
    var tail := gap + word;
    var h := pre + tail;
    assert h == "\"" + path + "\"" + gap + word;
    assert h[..|path| + 2] == pre && h[|path| + 2..] == tail;
    WhitespaceTail(gap, word);
    QuotedCloseAfterPath(h, path);
    QuotedHeaderWithWord(h, |path| + 1, word);
  }

  /** A single token that the quoted pattern does not match is the path. */
  lemma UnquotedSingleToken(token: string)
    requires token != "" && NoWhitespace(token) && QuotedClose(token) == -1
    ensures ParseCodeBlockHeader(token) == Some(ParsedHeader(token, None))
  {
    SplitWhitespaceToken(token);
  }

  /** Two tokens that the quoted pattern does not match: a recognised second token is the
      strategy; otherwise the whole line is the path. */
  lemma UnquotedTwoTokens(path: string, gap: string, word: string)
    requires path != "" && NoWhitespace(path)
    requires |gap| > 0 && AllWhitespace(gap)
    requires word != "" && NoWhitespace(word)
    requires QuotedClose(path + gap + word) == -1
    ensures ParseCodeBlockHeader(path + gap + word) ==
      match ParseStrategy(word)
      case Some(strategy) => Some(ParsedHeader(path, Some(strategy)))
      case None => Some(ParsedHeader(path + gap + word, None))
  {
    var h := path + gap + word;
    assert h[0] == path[0];
    SplitWhitespaceAfterToken(path, gap, word);
    SplitWhitespaceToken(word);
  }

  /** Three or more tokens that the quoted pattern does not match are rejected: two tokens
      and their gaps, then any tail that starts a third token. */
  lemma UnquotedThreeOrMoreTokens(a: string, gap1: string, b: string, gap2: string, rest: string)
    requires a != "" && NoWhitespace(a) && b != "" && NoWhitespace(b)
    requires |gap1| > 0 && AllWhitespace(gap1) && |gap2| > 0 && AllWhitespace(gap2)
    requires rest != "" && !IsWhitespace(rest[0])
    requires QuotedClose(a + gap1 + b + gap2 + rest) == -1
    ensures ParseCodeBlockHeader(a + gap1 + b + gap2 + rest).None?
  {
    var tail := b + gap2 + rest;
    var h := a + gap1 + tail;
    assert h == a + gap1 + b + gap2 + rest;
    SplitWhitespaceAfterToken(b, gap2, rest);
    assert tail[0] == b[0];
    SplitWhitespaceAfterToken(a, gap1, tail);
    assert SplitWhitespace(h) == [a] + ([b] + SplitWhitespace(rest));
    assert |SplitWhitespace(h)| >= 3;
  }

  /** An empty header is rejected. */
  lemma EmptyHeaderRejected()
    ensures ParseCodeBlockHeader("").None?
  {
  }

  // ---------------------------------------------------------------------------------------
  // Strategy inference

  const SearchMarker := "<<<<<<< SEARCH"

  /** `\s*$` with the `m` flag matches at `e`: whitespace up to a line end or the end. */
  predicate BlankToLineEnd(s: string, e: nat)
    decreases |s| - e
  {
    e >= |s| || IsLineTerminator(s[e]) || (IsWhitespace(s[e]) && BlankToLineEnd(s, e + 1))
  }

  /** The recursive reading agrees with the pattern's: some whitespace run from `e` reaches a
      line terminator or the end of the text. */
  lemma {:induction false} BlankToLineEndMeaning(s: string, e: nat)
    requires e <= |s|
    ensures BlankToLineEnd(s, e) <==>
      exists k :: e <= k <= |s| && AllWhitespace(s[e..k]) && (k == |s| || IsLineTerminator(s[k]))
    decreases |s| - e
  {
    if e == |s| {
      assert AllWhitespace(s[e..e]);
    } else if IsLineTerminator(s[e]) {
      assert AllWhitespace(s[e..e]);
    } else {
      BlankToLineEndMeaning(s, e + 1);
      if BlankToLineEnd(s, e) {
        var k :| e + 1 <= k <= |s| && AllWhitespace(s[e + 1..k]) && (k == |s| || IsLineTerminator(s[k]));
        assert s[e..k] == [s[e]] + s[e + 1..k];
      }
      if exists k :: e <= k <= |s| && AllWhitespace(s[e..k]) && (k == |s| || IsLineTerminator(s[k])) {
        var k :| e <= k <= |s| && AllWhitespace(s[e..k]) && (k == |s| || IsLineTerminator(s[k]));
        assert k != e;
        assert s[e] == s[e..k][0];
        var run, rest := s[e..k], s[e + 1..k];
        assert AllWhitespace(rest) by {
          forall j | 0 <= j < |rest| ensures IsWhitespace(rest[j]) {
            assert rest[j] == run[j + 1];
          }
        }
      }
    }
  }

  /** `/^<<<<<<< SEARCH\s*$/m` matches with the marker at `i`, which starts a line. */
  predicate SearchLineAt(s: string, i: nat) {
    && i <= |s|
    && (i == 0 || IsLineTerminator(s[i - 1]))
    && OccursAt(s, SearchMarker, i)
    && BlankToLineEnd(s, i + |SearchMarker|)
  }

  predicate HasSearchLine(s: string) {
    exists i: nat | i <= |s| :: SearchLineAt(s, i)
  }

  /** `inferPatchStrategy`: the rules in order, the first that applies wins. */
  function InferPatchStrategy(content: string, provided: Option<PatchStrategy>): (r: PatchStrategy)
    ensures provided.Some? ==> r == provided.value
    ensures provided.None? ==>
      (r == MultiSearchReplace <==> HasSearchLine(content) && Contains(content, ">>>>>>> REPLACE"))
    ensures provided.None? && r != MultiSearchReplace ==>
      (r == NewUnified <==> StartsWith(content, "--- ") && Contains(content, "+++ ") && Contains(content, "@@"))
    ensures provided.None? ==> r != Unified
  {
    if provided.Some? then provided.value
    else if HasSearchLine(content) && Contains(content, ">>>>>>> REPLACE") then MultiSearchReplace
    else if StartsWith(content, "--- ") && Contains(content, "+++ ") && Contains(content, "@@") then NewUnified
    else Replace
  }

  /** A search/replace body without an explicit strategy is recognised as such, even when it
      also looks like a unified diff. */
  lemma InferSearchReplaceExample()
    ensures var s := "--- a\n+++ b\n@@\n" + SearchMarker + "\nx\n=======\ny\n" + ">>>>>>> REPLACE";
      InferPatchStrategy(s, None) == MultiSearchReplace
  {
    var head := "--- a\n+++ b\n@@\n";
    var middle := "\nx\n=======\ny\n";
    var tail := ">>>>>>> REPLACE";
    var s := head + SearchMarker + middle + tail;
    assert s[|head|..|head| + |SearchMarker|] == SearchMarker;
    assert s[|head| - 1] == '\n';
    assert s[|head| + |SearchMarker|] == '\n';
    assert SearchLineAt(s, |head|);
    var at := |head| + |SearchMarker| + |middle|;
    assert s[at..at + |tail|] == tail;
    assert OccursAt(s, tail, at);
  }

  // ---------------------------------------------------------------------------------------
  // Classifying one block

  datatype ParsedBlock = ParsedBlock(operation: FileOperation, fullMatch: string)

  /** Every path of a parsed operation is non-empty. */
  predicate WellFormedOperation(op: FileOperation) {
    match op
    case Write(path, _, _) => path != ""
    case Delete(path) => path != ""
    case Rename(from, to) => from != "" && to != ""
  }

  /** The trimmed header: the comment form when it is present and non-empty, else the space
      form. */
  function BlockHeader(m: BlockMatch): (r: string)
    ensures IsTrimmed(r)
    ensures m.commentHeader.Some? && m.commentHeader.value != "" ==> r == Trim(m.commentHeader.value)
    ensures m.commentHeader.None? || m.commentHeader.value == "" ==> r == Trim(m.spaceHeader.GetOr(""))
  {
    Trim(OrElse(m.commentHeader, OrElse(m.spaceHeader, "")))
  }

  /** `parseCodeBlock` */
  function ParseCodeBlock(m: BlockMatch, env: Collaborators): (r: Option<ParsedBlock>)
    ensures r.Some? ==> r.value.fullMatch == m.fullMatch && WellFormedOperation(r.value.operation)
    ensures r.Some? ==> BlockHeader(m) != ""
    ensures r.Some? && r.value.operation.Rename? ==>
      BlockHeader(m) == env.markers.renameFile &&
      env.decodeRename(Trim(m.body)) == Some(RenamePayload(r.value.operation.from, r.value.operation.to))
    ensures r.Some? && !r.value.operation.Rename? ==>
      BlockHeader(m) != env.markers.renameFile && ParseCodeBlockHeader(BlockHeader(m)).Some? &&
      ParseCodeBlockHeader(BlockHeader(m)).value.filePath == r.value.operation.path
    ensures r.Some? && r.value.operation.Delete? <==>
      BlockHeader(m) != "" && BlockHeader(m) != env.markers.renameFile &&
      ParseCodeBlockHeader(BlockHeader(m)).Some? && Trim(m.body) == env.markers.deleteFile
  {
    var header := BlockHeader(m);
    var content := Trim(m.body);
    if header == "" then None
    else if header == env.markers.renameFile then
      match env.decodeRename(content)
      case None => None
      case Some(payload) =>
        if payload.from != "" && payload.to != "" then Some(ParsedBlock(Rename(payload.from, payload.to), m.fullMatch))
        else None
    else
      match ParseCodeBlockHeader(header)
      case None => None
      case Some(parsed) =>
        if content == env.markers.deleteFile then Some(ParsedBlock(Delete(parsed.filePath), m.fullMatch))
        else
          var strategy := InferPatchStrategy(content, parsed.patchStrategy);
          Some(ParsedBlock(Write(parsed.filePath, ExtractCodeBetweenMarkers(content, env.markers), strategy), m.fullMatch))
  }

  /** A rename header yields a rename exactly when its body decodes to non-empty names; it is
      never read as a path. */
  lemma RenameBlockClassified(m: BlockMatch, env: Collaborators)
    requires BlockHeader(m) != "" && BlockHeader(m) == env.markers.renameFile
    ensures ParseCodeBlock(m, env).Some? <==>
      env.decodeRename(Trim(m.body)).Some? &&
      env.decodeRename(Trim(m.body)).value.from != "" && env.decodeRename(Trim(m.body)).value.to != ""
    ensures ParseCodeBlock(m, env).Some? ==> ParseCodeBlock(m, env).value.operation.Rename?
  {
  }

  /** Any other accepted header yields a write whose content is the extracted code and whose
      strategy is the inferred one, unless the body is the delete marker. */
  lemma WriteBlockClassified(m: BlockMatch, env: Collaborators)
    requires BlockHeader(m) != "" && BlockHeader(m) != env.markers.renameFile
    requires ParseCodeBlockHeader(BlockHeader(m)).Some?
    requires Trim(m.body) != env.markers.deleteFile
    ensures var parsed := ParseCodeBlockHeader(BlockHeader(m)).value;
      var content := Trim(m.body);
      ParseCodeBlock(m, env) == Some(ParsedBlock(
        Write(parsed.filePath, ExtractCodeBetweenMarkers(content, env.markers), InferPatchStrategy(content, parsed.patchStrategy)),
        m.fullMatch))
    ensures IsTrimmed(ParseCodeBlock(m, env).value.operation.content)
  {
  }

  /** Any other accepted header whose body is the delete marker yields a delete of the
      header's path. */
  lemma DeleteBlockClassified(m: BlockMatch, env: Collaborators)
    requires BlockHeader(m) != "" && BlockHeader(m) != env.markers.renameFile
    requires ParseCodeBlockHeader(BlockHeader(m)).Some?
    requires Trim(m.body) == env.markers.deleteFile
    ensures ParseCodeBlock(m, env) ==
      Some(ParsedBlock(Delete(ParseCodeBlockHeader(BlockHeader(m)).value.filePath), m.fullMatch))
  {
  }

  /** A header the grammar rejects, or an empty one, drops the block. */
  lemma RejectedHeaderDropsBlock(m: BlockMatch, env: Collaborators)
    requires BlockHeader(m) != env.markers.renameFile
    requires BlockHeader(m) == "" || ParseCodeBlockHeader(BlockHeader(m)).None?
    ensures ParseCodeBlock(m, env).None?
  {
  }

  // ---------------------------------------------------------------------------------------
  // All blocks, and what is left of the text

  /** `parseCodeBlock` as a function value, the form the collecting loop is stated over. */
  function BlockClassifier(env: Collaborators): BlockMatch -> Option<ParsedBlock> {
    m => ParseCodeBlock(m, env)
  }

  /** The blocks `classify` accepts, in the order they were matched. */
  function Accepted(matches: seq<BlockMatch>, classify: BlockMatch -> Option<ParsedBlock>): (r: seq<ParsedBlock>)
    ensures |r| <= |matches|
    decreases |matches|
  {
    if matches == [] then []
    else
      var init := Accepted(matches[..|matches| - 1], classify);
      match classify(matches[|matches| - 1])
      case None => init
      case Some(block) => init + [block]
  }

  /** Classifying two runs of matches is classifying each, in order. */
  lemma {:induction false} AcceptedAppend(a: seq<BlockMatch>, b: seq<BlockMatch>, classify: BlockMatch -> Option<ParsedBlock>)
    ensures Accepted(a + b, classify) == Accepted(a, classify) + Accepted(b, classify)
    decreases |b|
  {
    if b == [] {
      assert a + b == a;
    } else {
      var b' := b[..|b| - 1];
      assert (a + b)[..|a + b| - 1] == a + b';
      assert (a + b)[|a + b| - 1] == b[|b| - 1];
      AcceptedAppend(a, b', classify);
    }
  }

  /** An accepted match lands right after the blocks accepted before it. */
  lemma AcceptedKeepsOrder(before: seq<BlockMatch>, m: BlockMatch, after: seq<BlockMatch>, classify: BlockMatch -> Option<ParsedBlock>)
    requires classify(m).Some?
    ensures var r := Accepted(before + [m] + after, classify);
      |Accepted(before, classify)| < |r| && r[|Accepted(before, classify)|] == classify(m).value
  {
    AcceptedAppend(before + [m], after, classify);
    AcceptedAppend(before, [m], classify);
    assert [m][..0] == [];
  }

  /** No block is accepted exactly when every match is dropped. */
  lemma {:induction false} AcceptedEmpty(matches: seq<BlockMatch>, classify: BlockMatch -> Option<ParsedBlock>)
    ensures Accepted(matches, classify) == [] <==> forall k :: 0 <= k < |matches| ==> classify(matches[k]).None?
    decreases |matches|
  {
    if matches != [] {
      var init := matches[..|matches| - 1];
      AcceptedEmpty(init, classify);
      assert forall k :: 0 <= k < |init| ==> init[k] == matches[k];
    }
  }

  /** Every block accepted by `parseCodeBlock` carries non-empty paths. */
  lemma {:induction false} AcceptedWellFormed(matches: seq<BlockMatch>, env: Collaborators)
    ensures forall k :: 0 <= k < |Accepted(matches, BlockClassifier(env))| ==>
      WellFormedOperation(Accepted(matches, BlockClassifier(env))[k].operation)
    decreases |matches|
  {
    if matches != [] {
      var init := matches[..|matches| - 1];
      var m := matches[|matches| - 1];
      AcceptedWellFormed(init, env);
      assert BlockClassifier(env)(m) == ParseCodeBlock(m, env);
      var last := ParseCodeBlock(m, env);
      assert last.Some? ==> WellFormedOperation(last.value.operation);
      assert Accepted(matches, BlockClassifier(env)) ==
        Accepted(init, BlockClassifier(env)) + (if last.Some? then [last.value] else []);
    }
  }

  function Operations(blocks: seq<ParsedBlock>): (ops: seq<FileOperation>)
    ensures |ops| == |blocks| && forall k :: 0 <= k < |blocks| ==> ops[k] == blocks[k].operation
  {
    seq(|blocks|, k requires 0 <= k < |blocks| => blocks[k].operation)
  }

  function FullMatches(blocks: seq<ParsedBlock>): (texts: seq<string>)
    ensures |texts| == |blocks| && forall k :: 0 <= k < |blocks| ==> texts[k] == blocks[k].fullMatch
  {
    seq(|blocks|, k requires 0 <= k < |blocks| => blocks[k].fullMatch)
  }

  /** Each block's first occurrence removed from the text, block by block. */
  function RemoveBlocks(text: string, blocks: seq<string>): (r: string)
    ensures |r| <= |text|
    decreases |blocks|
  {
    if blocks == [] then text
    else RemoveFirst(RemoveBlocks(text, blocks[..|blocks| - 1]), blocks[|blocks| - 1])
  }

  /** The trimmed lines that are not blank. */
  function NonBlankLines(lines: seq<string>): (r: seq<string>)
    ensures |r| <= |lines|
    ensures forall k :: 0 <= k < |r| ==> r[k] != "" && IsTrimmed(r[k])
    decreases |lines|
  {
    if lines == [] then []
    else
      var t := Trim(lines[0]);
      (if t == "" then [] else [t]) + NonBlankLines(lines[1..])
  }

  /** Exactly the non-blank lines survive, trimmed. */
  lemma {:induction false} NonBlankLinesMembers(lines: seq<string>, x: string)
    ensures x in NonBlankLines(lines) <==> x != "" && exists k :: 0 <= k < |lines| && Trim(lines[k]) == x
    decreases |lines|
  {
    if lines != [] {
      NonBlankLinesMembers(lines[1..], x);
      if exists k :: 0 <= k < |lines| && Trim(lines[k]) == x {
        var k :| 0 <= k < |lines| && Trim(lines[k]) == x;
        if k > 0 {
          assert lines[1..][k - 1] == lines[k];
        }
      }
      if exists k :: 0 <= k < |lines[1..]| && Trim(lines[1..][k]) == x {
        var k :| 0 <= k < |lines[1..]| && Trim(lines[1..][k]) == x;
        assert lines[k + 1] == lines[1..][k];
      }
    }
  }

  /** `text.split('\n').map(line => line.trim()).filter(Boolean)` */
  function ReasoningLines(text: string): (r: seq<string>)
    ensures |r| <= |Split(text, '\n')|
    ensures forall k :: 0 <= k < |r| ==> r[k] != "" && IsTrimmed(r[k])
  {
    NonBlankLines(Split(text, '\n'))
  }
  /** A reasoning line is a non-blank line of the text, trimmed, and so holds no newline. */
  lemma ReasoningLinesMembers(text: string, x: string)
    ensures x in ReasoningLines(text) <==>
      x != "" && exists k :: 0 <= k < |Split(text, '\n')| && Trim(Split(text, '\n')[k]) == x
    ensures x in ReasoningLines(text) ==> '\n' !in x
  {
    var lines := Split(text, '\n');
    NonBlankLinesMembers(lines, x);
    if x in ReasoningLines(text) {
      var k :| 0 <= k < |lines| && Trim(lines[k]) == x;
      TrimKeepsOut(lines[k], '\n');
    }
  }


  // ---------------------------------------------------------------------------------------
  // The metadata block

  datatype YamlExtraction = YamlExtraction(control: Option<ControlYaml>, textWithoutYaml: string)

  const BareSearchWindow: nat := 20

  /** `Math.max(0, lineCount - 20)`: the first line the backward scan looks at. */
  function SearchLimit(lineCount: nat): nat {
    if lineCount >= BareSearchWindow then lineCount - BareSearchWindow else 0
  }

  predicate IsMetadataStart(line: string) {
    StartsWith(Trim(line), "projectId:")
  }

  /** The last index in `[limit, below)` whose line satisfies `test`, or -1. */
  function LastMatchBelow(lines: seq<string>, test: string -> bool, limit: nat, below: nat): (r: int)
    requires below <= |lines|
    ensures r == -1 ==> forall k :: limit <= k < below ==> !test(lines[k])
    ensures r != -1 ==> limit <= r < below && test(lines[r]) &&
                        forall k :: r < k < below ==> !test(lines[k])
    decreases below
  {
    if below <= limit then -1
    else if test(lines[below - 1]) then below - 1
    else LastMatchBelow(lines, test, limit, below - 1)
  }

  /** The last of the final twenty lines that starts the metadata, or -1. */
  function BareMetadataStart(lines: seq<string>): (r: int)
    ensures -1 <= r < |lines|
  {
    LastMatchBelow(lines, IsMetadataStart, SearchLimit(|lines|), |lines|)
  }

  /** The metadata start is the last line of the window that passes the test, and -1 means
      no line of the window does. */
  lemma BareMetadataStartMeaning(lines: seq<string>)
    ensures var r := BareMetadataStart(lines);
      && (r == -1 <==> forall k :: SearchLimit(|lines|) <= k < |lines| ==> !IsMetadataStart(lines[k]))
      && (r != -1 ==> SearchLimit(|lines|) <= r && IsMetadataStart(lines[r]) &&
                      forall k :: r < k < |lines| ==> !IsMetadataStart(lines[k]))
  {
  }

  /** The text before the match followed by the text after it (`substring` clamps). */
  function CutOut(raw: string, m: YamlBlockMatch): string {
    Substring(raw, 0, m.index) + Substring(raw, m.index + |m.fullMatch|, |raw|)
  }

  /** Strategy 1: the last fenced yaml block, cut out of the text when it loads. */
  function FromFenced(raw: string, last: YamlBlockMatch, env: Collaborators): (r: Option<YamlExtraction>)
    ensures r.Some? <==> env.loadControl(last.body).Some?
    ensures r.Some? ==> r.value.control == env.loadControl(last.body) && IsTrimmed(r.value.textWithoutYaml)
  {
    match env.loadControl(last.body)
    case None => None
    case Some(control) => Some(YamlExtraction(Some(control), Trim(CutOut(raw, last))))
  }

  /** Strategy 2: the lines from the metadata start to the end, the lines before it kept. */
  function FromBare(raw: string, env: Collaborators): (r: Option<YamlExtraction>)
    ensures r.Some? ==> BareMetadataStart(Split(Trim(raw), '\n')) != -1
    ensures r.Some? ==> r.value.control.Some? && IsTrimmed(r.value.textWithoutYaml)
  {
    var lines := Split(Trim(raw), '\n');
    var start := BareMetadataStart(lines);
    if start == -1 then None
    else
      match env.loadControl(Join(lines[start..], "\n"))
      case None => None
      case Some(control) => Some(YamlExtraction(Some(control), Trim(Join(lines[..start], "\n"))))
  }

  /** Strategy 1 applied to the last fenced yaml block, when there is one. */
  function FencedAttempt(raw: string, env: Collaborators): (r: Option<YamlExtraction>)
    ensures r.None? <==>
      |env.scanYamlBlocks(raw)| == 0 || env.loadControl(env.scanYamlBlocks(raw)[|env.scanYamlBlocks(raw)| - 1].body).None?
    ensures r.Some? ==>
      |env.scanYamlBlocks(raw)| > 0 &&
      r.value.control == env.loadControl(env.scanYamlBlocks(raw)[|env.scanYamlBlocks(raw)| - 1].body) &&
      IsTrimmed(r.value.textWithoutYaml)
  {
    if |env.scanYamlBlocks(raw)| > 0 then FromFenced(raw, env.scanYamlBlocks(raw)[|env.scanYamlBlocks(raw)| - 1], env)
    else None
  }

  /** What `extractAndParseYaml` returns. */
  function ExtractYaml(raw: string, env: Collaborators): (r: YamlExtraction)
    ensures r.control.None? ==> r.textWithoutYaml == raw
    ensures r.control.Some? ==> IsTrimmed(r.textWithoutYaml)
  {
    match FencedAttempt(raw, env)
    case Some(found) => found
    case None => FromBare(raw, env).GetOr(YamlExtraction(None, raw))
  }

  /** The backward scan of `extractAndParseYaml` over the final twenty lines. */
  method FindMetadataStart(lines: seq<string>) returns (yamlStartIndex: int)
    ensures yamlStartIndex == BareMetadataStart(lines)
  {
    yamlStartIndex := -1;
    var searchLimit := SearchLimit(|lines|);
    var i := |lines| - 1;
    while i >= searchLimit
      invariant searchLimit - 1 <= i < |lines|
      invariant BareMetadataStart(lines) == LastMatchBelow(lines, IsMetadataStart, searchLimit, i + 1)
      decreases i
    {
      if StartsWith(Trim(lines[i]), "projectId:") {
        yamlStartIndex := i;
        break;
      }
      i := i - 1;
    }
  }

  /** `extractAndParseYaml` */
  method ExtractAndParseYaml(rawText: string, env: Collaborators) returns (control: Option<ControlYaml>, textWithoutYaml: string)
    ensures YamlExtraction(control, textWithoutYaml) == ExtractYaml(rawText, env)
  {
    var fenced := ExtractFencedYaml(rawText, env);
    if fenced.Some? {
      return fenced.value.control, fenced.value.textWithoutYaml;
    }
    var bare := ExtractBareYaml(rawText, env);
    if bare.Some? {
      return bare.value.control, bare.value.textWithoutYaml;
    }
    return None, rawText;
  }

  /** The first half of `extractAndParseYaml`: the last fenced yaml block. */
  method ExtractFencedYaml(rawText: string, env: Collaborators) returns (found: Option<YamlExtraction>)
    ensures found == FencedAttempt(rawText, env)
  {
    var yamlBlockMatches := env.scanYamlBlocks(rawText);
    if |yamlBlockMatches| > 0 {
      found := LoadFencedBlock(rawText, yamlBlockMatches[|yamlBlockMatches| - 1], env);
      return;
    }
    return None;
  }

  /** The fenced block's body loaded, and the match cut out of the text. */
  method LoadFencedBlock(rawText: string, lastMatch: YamlBlockMatch, env: Collaborators) returns (found: Option<YamlExtraction>)
    ensures found == FromFenced(rawText, lastMatch, env)
  {
    var loaded := env.loadControl(lastMatch.body);
    if loaded.Some? {
      var text := CutOut(rawText, lastMatch);
      return Some(YamlExtraction(loaded, Trim(text)));
    }
    return None;
  }

  /** The second half of `extractAndParseYaml`: the bare `projectId:` block at the end. */
  method ExtractBareYaml(rawText: string, env: Collaborators) returns (found: Option<YamlExtraction>)
    ensures found == FromBare(rawText, env)
  {
    var lines := Split(Trim(rawText), '\n');
    var yamlStartIndex := FindMetadataStart(lines);
    if yamlStartIndex != -1 {
      var yamlText := Join(lines[yamlStartIndex..], "\n");
      var loaded := env.loadControl(yamlText);
      if loaded.Some? {
        return Some(YamlExtraction(loaded, Trim(Join(lines[..yamlStartIndex], "\n"))));
      }
    }
    return None;
  }

  /** A fenced block that loads wins, and exactly that match is cut out of the text. */
  lemma FencedMetadataCutOut(raw: string, env: Collaborators, last: YamlBlockMatch)
    requires |env.scanYamlBlocks(raw)| > 0 && last == env.scanYamlBlocks(raw)[|env.scanYamlBlocks(raw)| - 1]
    requires env.loadControl(last.body).Some? && OccursAt(raw, last.fullMatch, last.index)
    ensures ExtractYaml(raw, env) == YamlExtraction(env.loadControl(last.body),
      Trim(raw[..last.index] + raw[last.index + |last.fullMatch|..]))
  {
    FencedCutOut(raw, env, last);
  }

  /** The fenced strategy on its own: the text kept is the reply without that match. */
  lemma FencedCutOut(raw: string, env: Collaborators, last: YamlBlockMatch)
    requires env.loadControl(last.body).Some? && OccursAt(raw, last.fullMatch, last.index)
    ensures FromFenced(raw, last, env) == Some(YamlExtraction(env.loadControl(last.body),
      Trim(raw[..last.index] + raw[last.index + |last.fullMatch|..])))
  {
    assert Substring(raw, 0, last.index) == raw[..last.index];
    assert Substring(raw, last.index + |last.fullMatch|, |raw|) == raw[last.index + |last.fullMatch|..];
    assert CutOut(raw, last) == raw[..last.index] + raw[last.index + |last.fullMatch|..];
  }

  /** Only the last fenced block is tried: when it does not load, the bare strategy decides,
      whatever the earlier fenced blocks hold. */
  lemma OnlyLastFencedBlockTried(raw: string, env: Collaborators)
    requires |env.scanYamlBlocks(raw)| > 0
    requires env.loadControl(env.scanYamlBlocks(raw)[|env.scanYamlBlocks(raw)| - 1].body).None?
    ensures ExtractYaml(raw, env) == FromBare(raw, env).GetOr(YamlExtraction(None, raw))
  {
  }

  /** Bare metadata, when there is no fenced yaml block or the last one does not load: the
      block starts at the last line of the final twenty whose trimmed form begins with
      `projectId:`, and the text kept is the lines before it. */
  lemma BareMetadataFound(raw: string, env: Collaborators, lines: seq<string>, start: nat)
    requires FencedAttempt(raw, env).None?
    requires lines == Split(Trim(raw), '\n')
    requires SearchLimit(|lines|) <= start < |lines| && IsMetadataStart(lines[start])
    requires forall k :: start < k < |lines| ==> !IsMetadataStart(lines[k])
    requires env.loadControl(Join(lines[start..], "\n")).Some?
    ensures ExtractYaml(raw, env) == YamlExtraction(env.loadControl(Join(lines[start..], "\n")), Trim(Join(lines[..start], "\n")))
  {
    MetadataStartUnique(lines, start);
  }

  lemma MetadataStartUnique(lines: seq<string>, start: nat)
    requires SearchLimit(|lines|) <= start < |lines| && IsMetadataStart(lines[start])
    requires forall k :: start < k < |lines| ==> !IsMetadataStart(lines[k])
    ensures BareMetadataStart(lines) == start
  {
    BareMetadataStartMeaning(lines);
  }

  /** When the fenced strategy finds nothing, a `projectId:` line above the final twenty lines
      is never found. */
  lemma BareMetadataOutsideWindow(raw: string, env: Collaborators, lines: seq<string>)
    requires FencedAttempt(raw, env).None?
    requires lines == Split(Trim(raw), '\n')
    requires forall k :: SearchLimit(|lines|) <= k < |lines| ==> !IsMetadataStart(lines[k])
    ensures ExtractYaml(raw, env) == YamlExtraction(None, raw)
  {
    BareMetadataStartMeaning(lines);
  }

  /** A control block comes from one of the two strategies. */
  lemma ControlComesFromAStrategy(raw: string, env: Collaborators)
    requires ExtractYaml(raw, env).control.Some?
    ensures var fenced := env.scanYamlBlocks(raw);
      (|fenced| > 0 && ExtractYaml(raw, env).control == env.loadControl(fenced[|fenced| - 1].body))
      || (var lines := Split(Trim(raw), '\n');
          BareMetadataStart(lines) != -1 &&
          ExtractYaml(raw, env).control == env.loadControl(Join(lines[BareMetadataStart(lines)..], "\n")))
  {
    var fenced := env.scanYamlBlocks(raw);
    if !(|fenced| > 0 && FromFenced(raw, fenced[|fenced| - 1], env).Some?) {
      assert FromBare(raw, env).Some?;
    }
  }

  // ---------------------------------------------------------------------------------------
  // The whole reply

  /** What `parseLLMResponse` returns. */
  function ParseResponse(raw: string, env: Collaborators): (r: Option<ParsedResponse>)
    ensures r.Some? ==> |r.value.operations| > 0
    ensures r.Some? ==> ExtractYaml(raw, env).control == Some(r.value.control)
    ensures r.Some? ==> forall k :: 0 <= k < |r.value.operations| ==> WellFormedOperation(r.value.operations[k])
    ensures r.Some? ==> forall k :: 0 <= k < |r.value.reasoning| ==> r.value.reasoning[k] != "" && IsTrimmed(r.value.reasoning[k])
  {
    var extracted := ExtractYaml(raw, env);
    if extracted.control.None? then None
    else
      var text := extracted.textWithoutYaml;
      var blocks := Accepted(env.scanCodeBlocks(text), BlockClassifier(env));
      AcceptedWellFormed(env.scanCodeBlocks(text), env);
      if |blocks| == 0 then None
      else Some(ParsedResponse(extracted.control.value, Operations(blocks), ReasoningLines(RemoveBlocks(text, FullMatches(blocks)))))
  }

  /** A reply is parsed exactly when it has a control block and at least one accepted code
      block in the text that remains. */
  lemma ParseResponseAbsentIff(raw: string, env: Collaborators)
    ensures var extracted := ExtractYaml(raw, env);
      ParseResponse(raw, env).None? <==>
        extracted.control.None? ||
        forall k :: 0 <= k < |env.scanCodeBlocks(extracted.textWithoutYaml)| ==>
          ParseCodeBlock(env.scanCodeBlocks(extracted.textWithoutYaml)[k], env).None?
  {
    var extracted := ExtractYaml(raw, env);
    AcceptedEmpty(env.scanCodeBlocks(extracted.textWithoutYaml), BlockClassifier(env));
  }

  /** The collecting loop of `parseLLMResponse`: each accepted block's operation and full
      match are appended in match order. `classify` is `parseCodeBlock`. */
  method CollectBlocks(matches: seq<BlockMatch>, classify: BlockMatch -> Option<ParsedBlock>)
    returns (operations: seq<FileOperation>, matchedBlocks: seq<string>)
    ensures operations == Operations(Accepted(matches, classify))
    ensures matchedBlocks == FullMatches(Accepted(matches, classify))
  {
    operations := [];
    matchedBlocks := [];
    var i := 0;
    while i < |matches|
      invariant 0 <= i <= |matches|
      invariant operations == Operations(Accepted(matches[..i], classify))
      invariant matchedBlocks == FullMatches(Accepted(matches[..i], classify))
    {
      assert matches[..i + 1][..i] == matches[..i];
      var result := classify(matches[i]);
      if result.Some? {
        operations := operations + [result.value.operation];
        matchedBlocks := matchedBlocks + [result.value.fullMatch];
      }
      i := i + 1;
    }
    assert matches[..|matches|] == matches;
  }

  /** The reasoning loop of `parseLLMResponse`: the first occurrence of each matched block is
      removed in turn. */
  method RemoveMatchedBlocks(text: string, matchedBlocks: seq<string>) returns (reasoningText: string)
    ensures reasoningText == RemoveBlocks(text, matchedBlocks)
  {
    reasoningText := text;
    for k := 0 to |matchedBlocks|
      invariant reasoningText == RemoveBlocks(text, matchedBlocks[..k])
    {
      assert matchedBlocks[..k + 1][..k] == matchedBlocks[..k];
      reasoningText := RemoveFirst(reasoningText, matchedBlocks[k]);
    }
    assert matchedBlocks[..|matchedBlocks|] == matchedBlocks;
  }

  /** `parseLLMResponse` */
  method ParseLLMResponse(rawText: string, env: Collaborators) returns (r: Option<ParsedResponse>)
    ensures r == ParseResponse(rawText, env)
  {
    var control, textWithoutYaml := ExtractAndParseYaml(rawText, env);
    if control.None? {
      return None;
    }
    var operations, matchedBlocks := CollectBlocks(env.scanCodeBlocks(textWithoutYaml), BlockClassifier(env));
    if |operations| == 0 {
      return None;
    }
    var reasoningText := RemoveMatchedBlocks(textWithoutYaml, matchedBlocks);
    var reasoning := ReasoningLines(reasoningText);
    return Some(ParsedResponse(control.value, operations, reasoning));
  }
}
