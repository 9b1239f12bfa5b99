/**
  The SEARCH/REPLACE patch engine run after every model reply: it cuts the
  reply into edit blocks and a commit message, checks every target path
  against the project root, rewrites the files one after the other, stages
  them and commits.
 */
module Patch {

  import opened Wrappers
  import opened Text

  const SearchMarker := "<<<<<<< SEARCH"
  const Divider := "======="
  const ReplaceMarker := ">>>>>>> REPLACE"
  const FallbackMessage := "Apply changes from LLM"

  /** One proposed edit: replace `search` by `replace` in the file at `path`. */
  datatype FileChange = FileChange(path: string, search: string, replace: string)

  // ===========================================================================
  // Recognising blocks
  // ===========================================================================

  /** The heuristic a line must pass to be taken as a file path. */
  predicate IsPathLine(line: string) {
    var p := Trim(line);
    p != [] && ' ' !in p && p[0] != '#'
  }

  /** Line `i` names a path and line `i + 1` is the SEARCH marker. */
  predicate OpensBlock(lines: seq<string>, i: nat) {
    i + 1 < |lines| && lines[i + 1] == SearchMarker && IsPathLine(lines[i])
  }

  /** The first REPLACE marker at or after `start`. */
  function CloseIndex(lines: seq<string>, start: nat): (r: Option<nat>)
    ensures r.Some? ==> start <= r.value < |lines| && lines[r.value] == ReplaceMarker
    ensures r.Some? ==> forall k :: start <= k < r.value ==> lines[k] != ReplaceMarker
    ensures r.None? ==> forall k :: start <= k < |lines| ==> lines[k] != ReplaceMarker
    decreases |lines| - start
  {
    if start >= |lines| then None
    else if lines[start] == ReplaceMarker then Some(start)
    else CloseIndex(lines, start + 1)
  }

  /** Position of the first divider line in a block body, or its length. */
  function DividerIndex(body: seq<string>): (d: nat)
    ensures d <= |body|
    ensures forall k :: 0 <= k < d ==> body[k] != Divider
    ensures d < |body| ==> body[d] == Divider
  {
    if body == [] then 0
    else if body[0] == Divider then 0
    else 1 + DividerIndex(body[1..])
  }

  /** The lines that are not dividers, in their order. */
  function WithoutDividers(ls: seq<string>): seq<string> {
    if ls == [] then []
    else WithoutDividers(ls[..|ls| - 1]) + (if ls[|ls| - 1] == Divider then [] else [ls[|ls| - 1]])
  }

  /** Search lines: the body up to its first divider. */
  function SearchLines(body: seq<string>): seq<string> {
    body[..DividerIndex(body)]
  }

  /** Replace lines: the non-divider lines after the first divider. */
  function ReplaceLines(body: seq<string>): seq<string> {
    WithoutDividers(body[DividerIndex(body)..])
  }

  /** A closed block: the change it proposes and the index of its REPLACE marker. */
  datatype Block = Block(change: FileChange, close: nat)

  /**
    The block whose path is line `i`, if that line opens a block and a
    REPLACE marker follows; its body is everything strictly between the
    SEARCH marker and the first REPLACE marker after it.
   */
  function BlockAt(lines: seq<string>, i: nat): Option<Block> {
    if OpensBlock(lines, i) then
      match CloseIndex(lines, i + 2)
      case None => None
      case Some(c) =>
        var body := lines[i + 2..c];
        Some(Block(FileChange(Trim(lines[i]), Join(SearchLines(body), "\n"), Join(ReplaceLines(body), "\n")), c))
    else None
  }

  /** The block table of the first `n` lines: entry `i` is the block opened at line `i`, if any. */
  function Table(lines: seq<string>, n: nat): (t: seq<Option<Block>>)
    ensures |t| == n
  {
    seq(n, (i: int) requires 0 <= i => BlockAt(lines, i))
  }

  /** The changes of the blocks in a table, in table order. */
  function ChangesOf(t: seq<Option<Block>>): seq<FileChange> {
    if t == [] then []
    else
      ChangesOf(t[..|t| - 1]) +
      match t[|t| - 1]
      case Some(b) => [b.change]
      case None => []
  }

  /** The line indices covered by the blocks in a table: from each path line to its REPLACE marker. */
  function ConsumedOf(t: seq<Option<Block>>): set<nat> {
    if t == [] then {}
    else
      ConsumedOf(t[..|t| - 1]) +
      match t[|t| - 1]
      case Some(b) => Span(|t| - 1, b.close)
      case None => {}
  }

  /** The changes of the blocks whose path line is before `n`, in line order. */
  function ChangesBefore(lines: seq<string>, n: nat): seq<FileChange> {
    ChangesOf(Table(lines, n))
  }

  /** The line indices covered by the blocks whose path line is before `n`. */
  function ConsumedBefore(lines: seq<string>, n: nat): set<nat> {
    ConsumedOf(Table(lines, n))
  }

  /** The indices from `lo` to `hi`, both included. */
  function Span(lo: nat, hi: nat): (r: set<nat>)
    ensures forall k :: k in r <==> lo <= k <= hi
    decreases hi + 1 - lo
  {
    if lo > hi then {} else {lo} + Span(lo + 1, hi)
  }

  /** The lines before `n` whose index is not in `consumed`, in order. */
  function KeptLines(lines: seq<string>, consumed: set<nat>, n: nat): seq<string>
    requires n <= |lines|
  {
    if n == 0 then []
    else KeptLines(lines, consumed, n - 1) + (if n - 1 in consumed then [] else [lines[n - 1]])
  }

  function Changes(lines: seq<string>): seq<FileChange> {
    ChangesBefore(lines, |lines|)
  }

  function MessageLines(lines: seq<string>): seq<string> {
    KeptLines(lines, ConsumedBefore(lines, |lines|), |lines|)
  }

  // ===========================================================================
  // Removing fenced code from the commit message
  // ===========================================================================

  predicate TicksAt(s: string, i: nat) {
    i + 3 <= |s| && s[i..i + 3] == "```"
  }

  /** The first triple backtick starting at or after `from`. */
  function FirstTicks(s: string, from: nat): (r: Option<nat>)
    ensures r.Some? ==> from <= r.value && TicksAt(s, r.value)
    ensures r.Some? ==> forall k :: from <= k < r.value ==> !TicksAt(s, k)
    ensures r.None? ==> forall k :: from <= k ==> !TicksAt(s, k)
    decreases |s| - from
  {
    if from + 3 > |s| then None
    else if TicksAt(s, from) then Some(from)
    else FirstTicks(s, from + 1)
  }

  /**
    Replacing every match of the pattern ```` ```[a-zA-Z]*\n?.*?\n?``` ````
    (dot matching newlines) by nothing: the leftmost match opens at the first
    triple backtick and, the middle being lazy, closes with the first triple
    backtick that starts at least three characters later; matching resumes
    after it.
   */
  function StripFences(s: string): (r: string)
    ensures |r| <= |s|
    decreases |s|
  {
    match FirstTicks(s, 0)
    case None => s
    case Some(p) =>
      match FirstTicks(s, p + 3)
      case None => s
      case Some(q) => s[..p] + StripFences(s[q + 3..])
  }

  lemma {:induction false} NoTicksFrom(s: string, from: nat)
    requires '`' !in s
    ensures FirstTicks(s, from).None?
    decreases |s| - from
  {
    if from + 3 <= |s| {
      assert s[from..from + 3][0] == s[from];
      NoTicksFrom(s, from + 1);
    }
  }

  /** Text without a backtick has no fence to remove. */
  lemma StripFencesPlain(s: string)
    requires '`' !in s
    ensures StripFences(s) == s
  {
    NoTicksFrom(s, 0);
  }

  /** The commit message: unconsumed lines, fences removed, trimmed. */
  function CommitMessage(response: string): string {
    Trim(StripFences(Join(MessageLines(Lines(response)), "\n")))
  }

  // ===========================================================================
  // parse_changes
  // ===========================================================================

  lemma DividerStep(body: seq<string>, l: string)
    ensures DividerIndex(body + [l]) ==
      if DividerIndex(body) < |body| then DividerIndex(body)
      else if l == Divider then |body| else |body| + 1
  {
    if body != [] {
      assert (body + [l])[1..] == body[1..] + [l];
      DividerStep(body[1..], l);
    }
  }

  lemma WithoutDividersStep(ls: seq<string>, l: string)
    ensures WithoutDividers(ls + [l]) == WithoutDividers(ls) + (if l == Divider then [] else [l])
  {
    assert (ls + [l])[..|ls|] == ls;
  }

  /** How the search part grows with one more body line. */
  lemma SearchStep(body: seq<string>, l: string)
    ensures SearchLines(body + [l]) ==
      if DividerIndex(body) == |body| && l != Divider then SearchLines(body) + [l] else SearchLines(body)
  {
    if DividerIndex(body) == |body| && l != Divider {
      SearchGrows(body, l);
    } else {
      SearchKept(body, l);
    }
  }

  lemma SearchKept(body: seq<string>, l: string)
    requires DividerIndex(body) < |body| || l == Divider
    ensures SearchLines(body + [l]) == SearchLines(body)
  {
    DividerStep(body, l);
    PrefixOfAppend(body, [l], DividerIndex(body));
  }

  lemma SearchGrows(body: seq<string>, l: string)
    requires DividerIndex(body) == |body| && l != Divider
    ensures SearchLines(body + [l]) == SearchLines(body) + [l]
  {
    DividerStep(body, l);
    TakeAll(body);
    TakeAll(body + [l]);
  }

  /** Once the divider has been seen, every further non-divider line is a replace line. */
  lemma ReplaceStepAfter(body: seq<string>, l: string)
    requires DividerIndex(body) < |body|
    ensures ReplaceLines(body + [l]) == if l != Divider then ReplaceLines(body) + [l] else ReplaceLines(body)
  {
    DividerStep(body, l);
    var d := DividerIndex(body);
    SuffixOfAppend(body, [l], d);
    WithoutDividersStep(body[d..], l);
  }

  /** Before the divider there are no replace lines. */
  lemma ReplaceStepBefore(body: seq<string>, l: string)
    requires DividerIndex(body) == |body|
    ensures ReplaceLines(body + [l]) == ReplaceLines(body)
  {
    DividerStep(body, l);
    var b := body + [l];
    var d := DividerIndex(body);
    assert body[d..] == [];
    assert WithoutDividers(b[DividerIndex(b)..]) == [] by {
      if l == Divider {
        assert b[DividerIndex(b)..] == [Divider];
        WithoutDividersStep([], l);
      } else {
        assert b[DividerIndex(b)..] == [];
      }
    }
  }

  /** The first REPLACE marker from `start` on is at `j`. */
  lemma CloseIndexAt(lines: seq<string>, start: nat, j: nat)
    requires start <= j < |lines| && lines[j] == ReplaceMarker
    requires forall k :: start <= k < j ==> lines[k] != ReplaceMarker
    ensures CloseIndex(lines, start) == Some(j)
  {
  }

  /** What the inner loop of `parse_changes` has collected after reading `body`. */
  datatype Scan = Scan(inSearch: bool, searchLines: seq<string>, replaceLines: seq<string>)

  function ScanOf(body: seq<string>): Scan {
    Scan(DividerIndex(body) == |body|, SearchLines(body), ReplaceLines(body))
  }

  /** One iteration of the inner loop on a line that is not the REPLACE marker. */
  function Push(st: Scan, line: string): Scan {
    if line == Divider then st.(inSearch := false)
    else if st.inSearch then st.(searchLines := st.searchLines + [line])
    else st.(replaceLines := st.replaceLines + [line])
  }

  lemma ScanStep(body: seq<string>, line: string)
    ensures ScanOf(body + [line]) == Push(ScanOf(body), line)
  {
    DividerStep(body, line);
    SearchStep(body, line);
    if DividerIndex(body) == |body| {
      ReplaceStepBefore(body, line);
    } else {
      ReplaceStepAfter(body, line);
    }
  }

  /**
    The inner loop of `parse_changes`: from line `start` on, collect search
    lines until the first divider and replace lines after it, up to the first
    REPLACE marker (`close`); without one, `close` is `None`.
   */
  method ScanBody(lines: seq<string>, start: nat)
    returns (close: Option<nat>, searchLines: seq<string>, replaceLines: seq<string>)
    requires start <= |lines|
    ensures close == CloseIndex(lines, start)
    ensures close.Some? ==> searchLines == SearchLines(lines[start..close.value])
    ensures close.Some? ==> replaceLines == ReplaceLines(lines[start..close.value])
  {
    searchLines := [];
    replaceLines := [];
    var inSearch := true;
    var j := start;
    ghost var body: seq<string> := [];
    while j < |lines|
      invariant start <= j <= |lines|
      invariant body == lines[start..j]
      invariant forall k :: start <= k < j ==> lines[k] != ReplaceMarker
      invariant Scan(inSearch, searchLines, replaceLines) == ScanOf(body)
    {
      var line := lines[j];
      if line == Divider {
        inSearch := false;
      } else if line == ReplaceMarker {
        CloseIndexAt(lines, start, j);
        close := Some(j);
        return;
      } else if inSearch {
        searchLines := searchLines + [line];
      } else {
        replaceLines := replaceLines + [line];
      }
      ScanStep(body, line);
      SliceGrows(lines, start, j);
      body := body + [line];
      j := j + 1;
    }
    close := None;
  }

  /** The block at `i`, read off the result of scanning its body. */
  lemma BlockFromScan(lines: seq<string>, i: nat, close: Option<nat>, searchLines: seq<string>, replaceLines: seq<string>)
    requires OpensBlock(lines, i)
    requires close == CloseIndex(lines, i + 2)
    requires close.Some? ==> searchLines == SearchLines(lines[i + 2..close.value])
    requires close.Some? ==> replaceLines == ReplaceLines(lines[i + 2..close.value])
    ensures close.None? ==> BlockAt(lines, i).None?
    ensures close.Some? ==>
      BlockAt(lines, i) == Some(Block(FileChange(Trim(lines[i]), Join(searchLines, "\n"), Join(replaceLines, "\n")), close.value))
  {
  }

  /** A table grows by the entry of its next line. */
  lemma TableStep(lines: seq<string>, i: nat)
    ensures Table(lines, i + 1)[..i] == Table(lines, i)
    ensures Table(lines, i + 1)[i] == BlockAt(lines, i)
  {
  }

  /** Extending the prefix by one line adds that line's block, if it has one. */
  lemma BeforeStep(lines: seq<string>, i: nat)
    ensures BlockAt(lines, i).None? ==>
      ChangesBefore(lines, i + 1) == ChangesBefore(lines, i) && ConsumedBefore(lines, i + 1) == ConsumedBefore(lines, i)
    ensures BlockAt(lines, i).Some? ==>
      ChangesBefore(lines, i + 1) == ChangesBefore(lines, i) + [BlockAt(lines, i).value.change] &&
      ConsumedBefore(lines, i + 1) == ConsumedBefore(lines, i) + Span(i, BlockAt(lines, i).value.close)
  {
    TableStep(lines, i);
  }

  /**
    The outer loop of `parse_changes`: for every line `i` followed by the
    SEARCH marker whose trimmed text passes the path heuristic, scan the body;
    a closed block yields a change and marks lines `i` to its REPLACE marker
    as consumed.
   */
  method FindBlocks(lines: seq<string>) returns (changes: seq<FileChange>, consumed: set<nat>)
    ensures changes == Changes(lines)
    ensures consumed == ConsumedBefore(lines, |lines|)
  {
    changes := [];
    consumed := {};
    for i := 0 to |lines|
      invariant changes == ChangesBefore(lines, i)
      invariant consumed == ConsumedBefore(lines, i)
    {
      BeforeStep(lines, i);
      if OpensBlock(lines, i) {
        var close, searchLines, replaceLines := ScanBody(lines, i + 2);
        BlockFromScan(lines, i, close, searchLines, replaceLines);
        if close.Some? {
          consumed := consumed + Span(i, close.value);
          changes := changes + [FileChange(Trim(lines[i]), Join(searchLines, "\n"), Join(replaceLines, "\n"))];
        }
      }
    }
  }

  /**
    `parse_changes`: the changes of the closed blocks in line order, and as
    commit message the unconsumed lines joined, with fenced code removed and
    trimmed.
   */
  method ParseChanges(response: string) returns (message: string, changes: seq<FileChange>)
    ensures changes == Changes(Lines(response))
    ensures message == CommitMessage(response)
  {
    var lines := Lines(response);
    var consumed;
    changes, consumed := FindBlocks(lines);
    var parts: seq<string> := [];
    for k := 0 to |lines|
      invariant parts == KeptLines(lines, consumed, k)
    {
      if k !in consumed {
        parts := parts + [lines[k]];
      }
    }
    message := Trim(StripFences(Join(parts, "\n")));
  }

  // ===========================================================================
  // What parsing promises
  // ===========================================================================

  /** The indices of the filled entries of a table, in ascending order. */
  function OpenersOf(t: seq<Option<Block>>): (r: seq<nat>)
    ensures |r| == |ChangesOf(t)|
  {
    if t == [] then []
    else OpenersOf(t[..|t| - 1]) + (if t[|t| - 1].Some? then [|t| - 1] else [])
  }

  /** The `k`-th change is the change of the `k`-th filled entry. */
  lemma {:induction false} OpenersChanges(t: seq<Option<Block>>)
    ensures forall k :: 0 <= k < |OpenersOf(t)| ==>
      OpenersOf(t)[k] < |t| && t[OpenersOf(t)[k]].Some? && t[OpenersOf(t)[k]].value.change == ChangesOf(t)[k]
  {
    if t != [] {
      var t' := t[..|t| - 1];
      OpenersChanges(t');
      assert forall j :: 0 <= j < |t'| ==> t'[j] == t[j];
    }
  }

  /** Appending an index above every element keeps a list ascending and bounded. */
  lemma PushAbove(o: seq<nat>, x: nat)
    requires forall k :: 0 <= k < |o| ==> o[k] < x
    requires forall a, b :: 0 <= a < b < |o| ==> o[a] < o[b]
    ensures forall k :: 0 <= k < |o + [x]| ==> (o + [x])[k] < x + 1
    ensures forall a, b :: 0 <= a < b < |o + [x]| ==> (o + [x])[a] < (o + [x])[b]
  {
  }

  lemma {:induction false} OpenersAscending(t: seq<Option<Block>>)
    ensures forall k :: 0 <= k < |OpenersOf(t)| ==> OpenersOf(t)[k] < |t|
    ensures forall a, b :: 0 <= a < b < |OpenersOf(t)| ==> OpenersOf(t)[a] < OpenersOf(t)[b]
  {
    if t != [] {
      var o := OpenersOf(t[..|t| - 1]);
      OpenersAscending(t[..|t| - 1]);
      if t[|t| - 1].Some? {
        PushAbove(o, |t| - 1);
      }
    }
  }

  lemma {:induction false} OpenersComplete(t: seq<Option<Block>>)
    ensures forall i :: 0 <= i < |t| && t[i].Some? ==> i in OpenersOf(t)
  {
    if t != [] {
      var t' := t[..|t| - 1];
      OpenersComplete(t');
      assert forall j :: 0 <= j < |t'| ==> t'[j] == t[j];
    }
  }

  /** The path lines of the closed blocks before `n`, in ascending order. */
  function Openers(lines: seq<string>, n: nat): seq<nat> {
    OpenersOf(Table(lines, n))
  }

  /**
    The `k`-th change is the change of the block opened at the `k`-th path
    line; path lines come in ascending order and every closed block is seen.
   */
  lemma ChangeOrigins(lines: seq<string>, n: nat)
    ensures |Openers(lines, n)| == |ChangesBefore(lines, n)|
    ensures forall k :: 0 <= k < |Openers(lines, n)| ==>
      Openers(lines, n)[k] < n && BlockAt(lines, Openers(lines, n)[k]).Some? &&
      BlockAt(lines, Openers(lines, n)[k]).value.change == ChangesBefore(lines, n)[k]
    ensures forall a, b :: 0 <= a < b < |Openers(lines, n)| ==> Openers(lines, n)[a] < Openers(lines, n)[b]
    ensures forall i :: 0 <= i < n && BlockAt(lines, i).Some? ==> i in Openers(lines, n)
  {
    var t := Table(lines, n);
    OpenersChanges(t);
    OpenersAscending(t);
    OpenersComplete(t);
  }

  /**
    Every change names the trimmed line right before a SEARCH marker, that
    path is non-empty, holds no space and does not start with `#`, and the
    changes follow the order of those lines.
   */
  lemma ChangePaths(lines: seq<string>)
    ensures |Openers(lines, |lines|)| == |Changes(lines)|
    ensures forall a, b :: 0 <= a < b < |Openers(lines, |lines|)| ==>
      Openers(lines, |lines|)[a] < Openers(lines, |lines|)[b]
    ensures forall k :: 0 <= k < |Changes(lines)| ==>
      var i := Openers(lines, |lines|)[k];
      var path := Changes(lines)[k].path;
      i + 1 < |lines| && lines[i + 1] == SearchMarker && path == Trim(lines[i]) &&
      path != [] && ' ' !in path && path[0] != '#'
  {
    ChangeOrigins(lines, |lines|);
  }

  lemma WithoutDividersFacts(ls: seq<string>)
    ensures Divider !in WithoutDividers(ls)
    ensures forall l :: l in WithoutDividers(ls) ==> l in ls
    ensures Divider !in ls ==> WithoutDividers(ls) == ls
  {
    if ls != [] {
      WithoutDividersFacts(ls[..|ls| - 1]);
      assert ls == ls[..|ls| - 1] + [ls[|ls| - 1]];
    }
  }

  /**
    A block's body runs from after the SEARCH marker to the first REPLACE
    marker; the search lines are the body up to its first divider, the replace
    lines are what follows without any divider, and neither holds a marker.
   */
  lemma BlockContent(lines: seq<string>, i: nat)
    requires BlockAt(lines, i).Some?
    ensures var b := BlockAt(lines, i).value;
      i + 2 <= b.close < |lines| && lines[b.close] == ReplaceMarker &&
      (forall k :: i + 2 <= k < b.close ==> lines[k] != ReplaceMarker)
    ensures var b := BlockAt(lines, i).value;
      var body := lines[i + 2..b.close];
      var search := SearchLines(body);
      var replace := ReplaceLines(body);
      b.change.search == Join(search, "\n") && b.change.replace == Join(replace, "\n") &&
      search == body[..|search|] && Divider !in search && ReplaceMarker !in search &&
      (|search| < |body| ==> body[|search|] == Divider) &&
      Divider !in replace && ReplaceMarker !in replace &&
      (|search| == |body| ==> replace == []) &&
      (|search| < |body| && Divider !in body[|search| + 1..] ==> replace == body[|search| + 1..])
  {
    var b := BlockAt(lines, i).value;
    var body := lines[i + 2..b.close];
    assert ReplaceMarker !in body;
    SearchParts(body);
    ReplaceParts(body);
  }

  /** The search lines are the body up to its first divider, which they do not hold. */
  lemma SearchParts(body: seq<string>)
    requires ReplaceMarker !in body
    ensures var search := SearchLines(body);
      search == body[..|search|] && Divider !in search && ReplaceMarker !in search &&
      (|search| < |body| ==> body[|search|] == Divider)
  {
  }

  /** The replace lines hold no marker; without dividers after the first they are the rest of the body. */
  lemma ReplaceParts(body: seq<string>)
    requires ReplaceMarker !in body
    ensures var d := |SearchLines(body)|;
      var replace := ReplaceLines(body);
      Divider !in replace && ReplaceMarker !in replace &&
      (d == |body| ==> replace == []) &&
      (d < |body| && Divider !in body[d + 1..] ==> replace == body[d + 1..])
  {
    var d := DividerIndex(body);
    ReplaceNoMarkers(body);
    if d == |body| {
      assert body[d..] == [];
    } else if Divider !in body[d + 1..] {
      ReplaceAfterDivider(body, d);
    }
  }

  lemma ReplaceNoMarkers(body: seq<string>)
    requires ReplaceMarker !in body
    ensures Divider !in ReplaceLines(body) && ReplaceMarker !in ReplaceLines(body)
  {
    var tail := body[DividerIndex(body)..];
    WithoutDividersFacts(tail);
    assert forall l :: l in tail ==> l in body;
  }

  lemma ReplaceAfterDivider(body: seq<string>, d: nat)
    requires d == DividerIndex(body) < |body| && Divider !in body[d + 1..]
    ensures ReplaceLines(body) == body[d + 1..]
  {
    var rest := body[d + 1..];
    DropSplit(body, d);
    WithoutDividersHead(rest);
    WithoutDividersFacts(rest);
  }

  lemma WithoutDividersHead(ls: seq<string>)
    ensures WithoutDividers([Divider] + ls) == WithoutDividers(ls)
    decreases |ls|
  {
    if ls != [] {
      var init := ls[..|ls| - 1];
      assert ([Divider] + ls)[..|ls|] == [Divider] + init;
      WithoutDividersHead(init);
    }
  }

  lemma ReplaceMarkerNotPath()
    ensures !IsPathLine(ReplaceMarker)
  {
    assert Trim(ReplaceMarker) == ReplaceMarker;
    assert ReplaceMarker[7] == ' ';
  }

  /** Every consumed index lies within a block of the table, from its entry to its close. */
  lemma {:induction false} ConsumedWithin(t: seq<Option<Block>>, k: nat) returns (i: nat)
    requires k in ConsumedOf(t)
    ensures i < |t| && t[i].Some? && i <= k <= t[i].value.close
  {
    var t' := t[..|t| - 1];
    if k in ConsumedOf(t') {
      i := ConsumedWithin(t', k);
      assert t'[i] == t[i];
    } else {
      i := |t| - 1;
    }
  }

  /** No REPLACE marker from `s` on means none from any later `t` on either. */
  lemma CloseIndexNoneLater(lines: seq<string>, s: nat, t: nat)
    requires s <= t && CloseIndex(lines, s).None?
    ensures CloseIndex(lines, t).None?
  {
  }

  /** No block opened at or after an unclosed one is closed. */
  lemma NoBlockAfterUnclosed(lines: seq<string>, i: nat, i': nat)
    requires OpensBlock(lines, i) && CloseIndex(lines, i + 2).None? && i <= i'
    ensures BlockAt(lines, i').None?
  {
    CloseIndexNoneLater(lines, i + 2, i' + 2);
  }

  /** Empty entries after position `i` add no change. */
  lemma {:induction false} ChangesNoneAfter(t: seq<Option<Block>>, i: nat)
    requires i <= |t|
    requires forall j :: i <= j < |t| ==> t[j].None?
    ensures ChangesOf(t) == ChangesOf(t[..i])
  {
    if |t| > i {
      var t' := t[..|t| - 1];
      ChangesNoneAfter(t', i);
      assert t'[..i] == t[..i];
    } else {
      assert t[..i] == t;
    }
  }

  /** Empty entries after position `i` consume nothing. */
  lemma {:induction false} ConsumedNoneAfter(t: seq<Option<Block>>, i: nat)
    requires i <= |t|
    requires forall j :: i <= j < |t| ==> t[j].None?
    ensures ConsumedOf(t) == ConsumedOf(t[..i])
  {
    if |t| > i {
      var t' := t[..|t| - 1];
      ConsumedNoneAfter(t', i);
      assert t'[..i] == t[..i];
    } else {
      assert t[..i] == t;
    }
  }

  /** A block opened before an unclosed one closes before it. */
  lemma CloseBeforeUnclosed(lines: seq<string>, i: nat, i': nat)
    requires OpensBlock(lines, i) && CloseIndex(lines, i + 2).None? && i' < i
    requires BlockAt(lines, i').Some?
    ensures BlockAt(lines, i').value.close < i
  {
    var c := BlockAt(lines, i').value.close;
    assert lines[c] == ReplaceMarker;
    ReplaceMarkerNotPath();
    assert c != i && c != i + 1;
    assert !(i + 2 <= c);
  }

  /**
    A block whose REPLACE marker never comes emits no change, and none of the
    lines from its path line on is consumed, so they all reach the commit
    message.
   */
  lemma UnclosedBlockKept(lines: seq<string>, i: nat)
    requires OpensBlock(lines, i) && CloseIndex(lines, i + 2).None?
    ensures Changes(lines) == ChangesBefore(lines, i)
    ensures forall k :: i <= k < |lines| ==> k !in ConsumedBefore(lines, |lines|)
  {
    var t := Table(lines, |lines|);
    forall j | i <= j < |t|
      ensures t[j].None?
    {
      NoBlockAfterUnclosed(lines, i, j);
    }
    ChangesNoneAfter(t, i);
    assert t[..i] == Table(lines, i);
    forall k | i <= k < |lines| && k in ConsumedBefore(lines, |lines|)
      ensures false
    {
      var i' := ConsumedWithin(t, k);
      if i' < i {
        CloseBeforeUnclosed(lines, i, i');
      }
    }
  }

  lemma {:induction false} KeptAll(lines: seq<string>, n: nat)
    requires n <= |lines|
    ensures KeptLines(lines, {}, n) == lines[..n]
  {
    if n > 0 {
      KeptAll(lines, n - 1);
      assert lines[..n] == lines[..n - 1] + [lines[n - 1]];
    }
  }

  /** A table without blocks has no changes and consumes nothing. */
  lemma {:induction false} EmptyTable(t: seq<Option<Block>>)
    requires forall j :: 0 <= j < |t| ==> t[j].None?
    ensures ChangesOf(t) == [] && ConsumedOf(t) == {}
  {
    if t != [] {
      var t' := t[..|t| - 1];
      assert forall j :: 0 <= j < |t'| ==> t'[j] == t[j];
      EmptyTable(t');
    }
  }

  /**
    A reply in which no block closes has no changes, and its commit message
    is all of its lines joined, fences removed, trimmed.
   */
  lemma NoBlocksNoChanges(response: string)
    requires forall i :: 0 <= i < |Lines(response)| ==> BlockAt(Lines(response), i).None?
    ensures Changes(Lines(response)) == []
    ensures CommitMessage(response) == Trim(StripFences(Join(Lines(response), "\n")))
  {
    var lines := Lines(response);
    EmptyTable(Table(lines, |lines|));
    KeptAll(lines, |lines|);
    assert lines[..|lines|] == lines;
  }

  /** Without a REPLACE line no block closes. */
  lemma NoMarkerNoBlocks(lines: seq<string>)
    requires ReplaceMarker !in lines
    ensures forall i :: 0 <= i < |lines| ==> BlockAt(lines, i).None?
  {
    assert forall k :: 0 <= k < |lines| ==> lines[k] != ReplaceMarker;
  }

  /** A reply making one edit of `a.txt` under the message `fix bug`, line by line. */
  const ExampleLines: seq<string> := ["fix bug", "a.txt", SearchMarker, "foo", Divider, "bar", ReplaceMarker]

  lemma ExampleBodyParts()
    ensures SearchLines(["foo", Divider, "bar"]) == ["foo"]
    ensures ReplaceLines(["foo", Divider, "bar"]) == ["bar"]
  {
    var body := ["foo", Divider, "bar"];
    assert DividerIndex(body) == 1;
    assert body[1..] == [Divider, "bar"];
    WithoutDividersStep([], Divider);
    WithoutDividersStep([Divider], "bar");
    assert [Divider] + ["bar"] == [Divider, "bar"];
  }

  lemma ExampleBlock()
    ensures BlockAt(ExampleLines, 1) == Some(Block(FileChange("a.txt", "foo", "bar"), 6))
  {
    var lines := ExampleLines;
    assert Trim("a.txt") == "a.txt";
    CloseIndexAt(lines, 3, 6);
    assert lines[3..6] == ["foo", Divider, "bar"];
    ExampleBodyParts();
  }

  lemma ExampleNoOtherBlock(i: nat)
    requires i < 7 && i != 1
    ensures BlockAt(ExampleLines, i).None?
  {
    assert !OpensBlock(ExampleLines, i);
  }

  lemma ExampleChanges()
    ensures Changes(ExampleLines) == [FileChange("a.txt", "foo", "bar")]
    ensures ConsumedBefore(ExampleLines, 7) == Span(1, 6)
  {
    var lines := ExampleLines;
    var b := Block(FileChange("a.txt", "foo", "bar"), 6);
    ExampleBlock();
    ExampleNoOtherBlock(0);
    var t := Table(lines, 7);
    assert |lines| == 7;
    forall j | 2 <= j < 7
      ensures t[j].None?
    {
      ExampleNoOtherBlock(j);
    }
    ChangesNoneAfter(t, 2);
    ConsumedNoneAfter(t, 2);
    var t2 := t[..2];
    assert t2 == [None, Some(b)];
    assert t2[..1] == [None];
    assert t2[..1][..0] == [];
    assert ChangesOf(t2[..1]) == [] && ConsumedOf(t2[..1]) == {};
    assert ChangesOf(t2) == [b.change];
    assert ConsumedOf(t2) == Span(1, 6);
  }

  lemma ExampleMessageLines()
    ensures MessageLines(ExampleLines) == ["fix bug"]
  {
    var lines := ExampleLines;
    ExampleChanges();
    var s := Span(1, 6);
    assert KeptLines(lines, s, 1) == ["fix bug"];
    assert KeptLines(lines, s, 2) == ["fix bug"];
    assert KeptLines(lines, s, 3) == ["fix bug"];
    assert KeptLines(lines, s, 4) == ["fix bug"];
    assert KeptLines(lines, s, 5) == ["fix bug"];
    assert KeptLines(lines, s, 6) == ["fix bug"];
    assert KeptLines(lines, s, 7) == ["fix bug"];
  }

  lemma ExampleReadBack()
    ensures Lines(Terminated(ExampleLines)) == ExampleLines
  {
    forall l | l in ExampleLines
      ensures '\n' !in l && !EndsWith(l, "\r")
    {
    }
    LinesOfTerminated(ExampleLines);
  }

  /** The one change is `a.txt`: `foo` to `bar`, and the message is `fix bug`. */
  lemma ParseExample()
    ensures Changes(Lines(Terminated(ExampleLines))) == [FileChange("a.txt", "foo", "bar")]
    ensures CommitMessage(Terminated(ExampleLines)) == "fix bug"
  {
    ExampleReadBack();
    ExampleChanges();
    ExampleMessageLines();
    ExampleMessageText();
  }

  lemma ExampleMessageText()
    ensures Trim(StripFences(Join(["fix bug"], "\n"))) == "fix bug"
  {
    assert '`' !in "fix bug";
    StripFencesPlain("fix bug");
    assert Trim("fix bug") == "fix bug";
  }

  // ===========================================================================
  // apply_and_commit_changes
  // ===========================================================================

  /** Why applying and committing stopped. */
  datatype PatchError =
    | Unresolvable(path: string)
    | OutsideRoot(path: string)
    | ReadFailed(path: string)
    | SearchNotFound(path: string)
    | Ambiguous(path: string, count: nat)
    | AddFailed(path: string)
    | CommitFailed

  /** The content written: non-empty content ends with exactly the newline it had, or one. */
  function EnsureNewline(s: string): (r: string)
    ensures s == [] ==> r == []
    ensures s != [] ==> EndsWith(r, "\n")
    ensures EndsWith(s, "\n") ==> r == s
    ensures r == s || r == s + "\n"
  {
    if s != [] && s[|s| - 1] != '\n' then s + "\n" else s
  }

  predicate Normalised(s: string) {
    s == [] || EndsWith(s, "\n")
  }

  /**
    The path pieces of `p` between slashes, empty pieces dropped: the normal
    components of a canonical path.
   */
  function Segments(p: string): seq<string>
    decreases |p|
  {
    if p == [] then []
    else
      var k := IndexOf(p, '/');
      var head := if k == 0 then [] else [p[..k]];
      if k == |p| then head else head + Segments(p[k + 1..])
  }

  /** `Path::components`: the root, if `p` is absolute, then the segments. */
  function Components(p: string): seq<string> {
    (if p != [] && p[0] == '/' then ["/"] else []) + Segments(p)
  }

  /** `Path::starts_with`: a whole-component prefix, not a string prefix. */
  predicate Within(path: string, root: string) {
    var c := Components(path);
    var r := Components(root);
    |r| <= |c| && c[..|r|] == r
  }

  /** The path of `change` resolves, and resolves inside `root`. */
  predicate Contained(change: FileChange, root: string, canonical: string -> Option<string>) {
    canonical(change.path).Some? && Within(canonical(change.path).value, root)
  }

  /** The check of one path: it must resolve, and resolve inside `root`. */
  function CheckPath(change: FileChange, root: string, canonical: string -> Option<string>): Option<PatchError> {
    match canonical(change.path)
    case None => Some(Unresolvable(change.path))
    case Some(c) => if Within(c, root) then None else Some(OutsideRoot(change.path))
  }

  /** The containment pre-check: the first change whose path fails the check. */
  function ContainmentError(changes: seq<FileChange>, root: string, canonical: string -> Option<string>): Option<PatchError>
    decreases |changes|
  {
    if changes == [] then None
    else if CheckPath(changes[0], root, canonical).Some? then CheckPath(changes[0], root, canonical)
    else ContainmentError(changes[1..], root, canonical)
  }

  /** The pre-check passes exactly when every path resolves inside the root. */
  lemma {:induction false} ContainmentOk(changes: seq<FileChange>, root: string, canonical: string -> Option<string>)
    ensures ContainmentError(changes, root, canonical).None? <==>
      forall k :: 0 <= k < |changes| ==> Contained(changes[k], root, canonical)
    decreases |changes|
  {
    if changes != [] && CheckPath(changes[0], root, canonical).None? {
      var rest := changes[1..];
      ContainmentOk(rest, root, canonical);
      assert forall k :: 0 < k < |changes| ==> changes[k] == rest[k - 1];
    }
  }

  /** A failed pre-check reports the first change whose path does not resolve inside the root. */
  lemma {:induction false} ContainmentFirst(changes: seq<FileChange>, root: string, canonical: string -> Option<string>)
    returns (k: nat)
    requires ContainmentError(changes, root, canonical).Some?
    ensures k < |changes| && !Contained(changes[k], root, canonical)
    ensures forall j :: 0 <= j < k ==> Contained(changes[j], root, canonical)
    ensures ContainmentError(changes, root, canonical) == CheckPath(changes[k], root, canonical)
    decreases |changes|
  {
    if CheckPath(changes[0], root, canonical).Some? {
      k := 0;
    } else {
      var rest := changes[1..];
      var j := ContainmentFirst(rest, root, canonical);
      k := j + 1;
      assert forall i :: 0 < i < |changes| ==> changes[i] == rest[i - 1];
    }
  }

  /**
    The new content of `change.path`: with an empty search text, the replace
    text; otherwise the file must hold the search text exactly once (counted
    without overlaps, as `matches` does) and that occurrence is replaced.
   */
  function NewContent(files: map<string, string>, change: FileChange): (r: Result<string, PatchError>)
    ensures change.search == [] ==> r == Ok(EnsureNewline(change.replace))
    ensures change.search != [] && change.path !in files ==> r == Err(ReadFailed(change.path))
    ensures r.Ok? ==> Normalised(r.value)
  {
    if change.search == [] then Ok(EnsureNewline(change.replace))
    else if change.path !in files then Err(ReadFailed(change.path))
    else
      var before := files[change.path];
      var n := CountMatches(before, change.search);
      if n == 0 then Err(SearchNotFound(change.path))
      else if n > 1 then Err(Ambiguous(change.path, n))
      else Ok(EnsureNewline(ReplaceFirst(before, change.search, change.replace)))
  }

  /** A search text that does not occur is reported as not found, and only then. */
  lemma NotFoundIff(files: map<string, string>, change: FileChange)
    ensures NewContent(files, change) == Err(SearchNotFound(change.path)) <==>
      change.search != [] && change.path in files && !Occurs(files[change.path], change.search)
  {
  }

  /** More than one occurrence is reported as ambiguous, with their number. */
  lemma AmbiguousCount(files: map<string, string>, change: FileChange)
    requires NewContent(files, change).Err? && NewContent(files, change).error.Ambiguous?
    ensures change.search != [] && change.path in files
    ensures NewContent(files, change).error ==
      Ambiguous(change.path, CountMatches(files[change.path], change.search))
    ensures CountMatches(files[change.path], change.search) >= 2
  {
  }

  /**
    A successful edit with a search text found the search text exactly once
    and writes the file with that occurrence replaced (which occurrence, and
    that nothing else changes, is `ReplaceFirstLeftmost`).
   */
  lemma ReplacedOnce(files: map<string, string>, change: FileChange)
    requires change.search != [] && NewContent(files, change).Ok?
    ensures change.path in files && CountMatches(files[change.path], change.search) == 1
    ensures NewContent(files, change).value == EnsureNewline(ReplaceFirst(files[change.path], change.search, change.replace))
  {
  }

  /**
    The rewrite loop: the changes are applied one after the other, each to
    the contents left by the ones before; the first failure stops the loop
    and keeps what was already written.
   */
  function ApplyAll(files: map<string, string>, changes: seq<FileChange>): (map<string, string>, Option<PatchError>)
    decreases |changes|
  {
    if changes == [] then (files, None)
    else
      match NewContent(files, changes[0])
      case Err(e) => (files, Some(e))
      case Ok(content) => ApplyAll(files[changes[0].path := content], changes[1..])
  }

  /** `git add` for each path in order, the first failing one stopping it. */
  function StageAll(staged: seq<string>, changes: seq<FileChange>, addOk: string -> bool): (seq<string>, Option<PatchError>)
    decreases |changes|
  {
    if changes == [] then (staged, None)
    else if !addOk(changes[0].path) then (staged, Some(AddFailed(changes[0].path)))
    else StageAll(staged + [changes[0].path], changes[1..], addOk)
  }

  function FinalMessage(message: string): (r: string)
    ensures r != []
    ensures message != [] ==> r == message
  {
    if message == [] then FallbackMessage else message
  }

  /** What the working tree and the repository look like to the patch engine. */
  datatype Repo = Repo(files: map<string, string>, staged: seq<string>, commits: seq<string>)

  /**
    `apply_and_commit_changes`: nothing to do without changes; with a project
    root, every path is checked before anything is written; then all files
    are rewritten, staged and committed, each step stopping at its first
    failure.
   */
  function ApplyAndCommit(st: Repo, message: string, changes: seq<FileChange>, root: Option<string>,
                          canonical: string -> Option<string>, addOk: string -> bool, commitOk: bool): (Repo, Result<(), PatchError>)
  {
    if changes == [] then (st, Ok(()))
    else if root.Some? && ContainmentError(changes, root.value, canonical).Some? then
      (st, Err(ContainmentError(changes, root.value, canonical).value))
    else
      var (files, e) := ApplyAll(st.files, changes);
      if e.Some? then (st.(files := files), Err(e.value))
      else
        var (staged, ae) := StageAll(st.staged, changes, addOk);
        if ae.Some? then (Repo(files, staged, st.commits), Err(ae.value))
        else if commitOk then (Repo(files, staged, st.commits + [FinalMessage(message)]), Ok(()))
        else (Repo(files, staged, st.commits), Err(CommitFailed))
  }

  /** `post_send`: parse the reply and, when it proposes changes, apply and commit them. */
  function PostSend(st: Repo, response: string, root: Option<string>,
                    canonical: string -> Option<string>, addOk: string -> bool, commitOk: bool): (Repo, Result<(), PatchError>)
  {
    var changes := Changes(Lines(response));
    if changes == [] then (st, Ok(()))
    else ApplyAndCommit(st, CommitMessage(response), changes, root, canonical, addOk, commitOk)
  }

  // ===========================================================================
  // What applying promises
  // ===========================================================================

  /** Paths that no change names keep their content, or their absence. */
  lemma {:induction false} ApplyUntouched(files: map<string, string>, changes: seq<FileChange>, p: string)
    requires forall k :: 0 <= k < |changes| ==> changes[k].path != p
    ensures p in ApplyAll(files, changes).0 <==> p in files
    ensures p in files ==> ApplyAll(files, changes).0[p] == files[p]
    decreases |changes|
  {
    if changes != [] {
      match NewContent(files, changes[0])
      case Err(_) =>
      case Ok(content) =>
        assert forall k :: 0 <= k < |changes[1..]| ==> changes[1..][k] == changes[k + 1];
        ApplyUntouched(files[changes[0].path := content], changes[1..], p);
    }
  }

  /**
    When every change applies, every file a change names exists afterwards
    and is empty or ends with a newline.
   */
  lemma {:induction false} ApplyNormalises(files: map<string, string>, changes: seq<FileChange>)
    requires ApplyAll(files, changes).1.None?
    ensures forall k :: 0 <= k < |changes| ==>
      changes[k].path in ApplyAll(files, changes).0 && Normalised(ApplyAll(files, changes).0[changes[k].path])
    decreases |changes|
  {
    if changes != [] {
      var p := changes[0].path;
      var content := NewContent(files, changes[0]).value;
      var next := files[p := content];
      var rest := changes[1..];
      ApplyNormalises(next, rest);
      assert forall k :: 0 < k < |changes| ==> changes[k] == rest[k - 1];
      if forall k :: 0 <= k < |rest| ==> rest[k].path != p {
        ApplyUntouched(next, rest, p);
      }
    }
  }

  /** A run that starts with a successful rewrite continues on the rest. */
  lemma ApplyConsPrefix(files: map<string, string>, changes: seq<FileChange>, j: nat)
    requires j < |changes| && NewContent(files, changes[0]).Ok?
    ensures ApplyAll(files, changes[..j + 1]) ==
      ApplyAll(files[changes[0].path := NewContent(files, changes[0]).value], changes[1..][..j])
  {
    assert changes[..j + 1][0] == changes[0];
    assert changes[..j + 1][1..] == changes[1..][..j];
  }

  /**
    The rewrite is not transactional: when change `k` fails, changes `0` to
    `k - 1` have been written and nothing after them.
   */
  lemma {:induction false} ApplyStopsAtFirstError(files: map<string, string>, changes: seq<FileChange>) returns (k: nat)
    requires ApplyAll(files, changes).1.Some?
    ensures k < |changes|
    ensures ApplyAll(files, changes[..k]).1.None?
    ensures NewContent(ApplyAll(files, changes[..k]).0, changes[k]) == Err(ApplyAll(files, changes).1.value)
    ensures ApplyAll(files, changes).0 == ApplyAll(files, changes[..k]).0
    decreases |changes|
  {
    assert changes[..0] == [];
    match NewContent(files, changes[0])
    case Err(e) =>
      k := 0;
    case Ok(content) =>
      var next := files[changes[0].path := content];
      var rest := changes[1..];
      var j := ApplyStopsAtFirstError(next, rest);
      k := j + 1;
      ApplyConsPrefix(files, changes, j);
      assert changes[k] == rest[j];
  }

  /** The paths of the changes, in order. */
  function Paths(changes: seq<FileChange>): (r: seq<string>)
    ensures |r| == |changes|
    ensures forall k :: 0 <= k < |changes| ==> r[k] == changes[k].path
  {
    if changes == [] then [] else [changes[0].path] + Paths(changes[1..])
  }

  /** Staging succeeds exactly when every `git add` does. */
  lemma {:induction false} StageAllOk(staged: seq<string>, changes: seq<FileChange>, addOk: string -> bool)
    ensures StageAll(staged, changes, addOk).1.None? <==> forall k :: 0 <= k < |changes| ==> addOk(changes[k].path)
    decreases |changes|
  {
    if changes != [] && addOk(changes[0].path) {
      var rest := changes[1..];
      StageAllOk(staged + [changes[0].path], rest, addOk);
      assert forall k :: 0 <= k < |rest| ==> rest[k] == changes[k + 1];
    }
  }

  /** A successful staging adds every changed path, in order. */
  lemma {:induction false} StageAllPaths(staged: seq<string>, changes: seq<FileChange>, addOk: string -> bool)
    requires StageAll(staged, changes, addOk).1.None?
    ensures StageAll(staged, changes, addOk).0 == staged + Paths(changes)
    decreases |changes|
  {
    if changes != [] {
      var rest := changes[1..];
      StageAllPaths(staged + [changes[0].path], rest, addOk);
      assert Paths(changes) == [changes[0].path] + Paths(rest);
      assert staged + [changes[0].path] + Paths(rest) == staged + Paths(changes);
    }
  }

  /** A failed staging reports the first path whose `git add` failed. */
  lemma {:induction false} StageFirstFailure(staged: seq<string>, changes: seq<FileChange>, addOk: string -> bool) returns (k: nat)
    requires StageAll(staged, changes, addOk).1.Some?
    ensures k < |changes| && !addOk(changes[k].path)
    ensures forall j :: 0 <= j < k ==> addOk(changes[j].path)
    ensures StageAll(staged, changes, addOk).1 == Some(AddFailed(changes[k].path))
    decreases |changes|
  {
    if !addOk(changes[0].path) {
      k := 0;
    } else {
      var rest := changes[1..];
      var j := StageFirstFailure(staged + [changes[0].path], rest, addOk);
      k := j + 1;
      assert forall i :: 0 < i < |changes| ==> changes[i] == rest[i - 1];
    }
  }

  /**
    With a project root, a single change whose path does not resolve inside
    it aborts the whole run before any file is written, staged or committed,
    reporting the first such change, which comes no later than it.
   */
  lemma EscapeWritesNothing(st: Repo, message: string, changes: seq<FileChange>, root: string,
                            canonical: string -> Option<string>, addOk: string -> bool, commitOk: bool, k: nat)
    returns (j: nat)
    requires k < |changes| && !Contained(changes[k], root, canonical)
    ensures ApplyAndCommit(st, message, changes, Some(root), canonical, addOk, commitOk).0 == st
    ensures j <= k && !Contained(changes[j], root, canonical)
    ensures ApplyAndCommit(st, message, changes, Some(root), canonical, addOk, commitOk).1 ==
      Err(CheckPath(changes[j], root, canonical).value)
  {
    ContainmentOk(changes, root, canonical);
    j := ContainmentFirst(changes, root, canonical);
  }

  /**
    A successful run with changes writes every named file normalised, keeps
    every other file, stages every path and records exactly one commit, under
    the message or, if that is empty, the fallback message.
   */
  lemma SuccessfulRun(st: Repo, message: string, changes: seq<FileChange>, root: Option<string>,
                      canonical: string -> Option<string>, addOk: string -> bool, commitOk: bool)
    requires changes != []
    requires ApplyAndCommit(st, message, changes, root, canonical, addOk, commitOk).1.Ok?
    ensures var st' := ApplyAndCommit(st, message, changes, root, canonical, addOk, commitOk).0;
      (forall k :: 0 <= k < |changes| ==> changes[k].path in st'.files && Normalised(st'.files[changes[k].path])) &&
      (forall p :: p in st.files && p !in Paths(changes) ==> p in st'.files && st'.files[p] == st.files[p]) &&
      st'.staged == st.staged + Paths(changes) &&
      st'.commits == st.commits + [FinalMessage(message)] &&
      commitOk && (forall k :: 0 <= k < |changes| ==> addOk(changes[k].path))
  {
    OkRunShape(st, message, changes, root, canonical, addOk, commitOk);
    ApplyNormalises(st.files, changes);
    StageAllOk(st.staged, changes, addOk);
    StageAllPaths(st.staged, changes, addOk);
    forall p | p in st.files && p !in Paths(changes)
      ensures p in ApplyAll(st.files, changes).0 && ApplyAll(st.files, changes).0[p] == st.files[p]
    {
      ApplyUntouched(st.files, changes, p);
    }
  }

  /** A successful run rewrote, staged and committed, each without error. */
  lemma OkRunShape(st: Repo, message: string, changes: seq<FileChange>, root: Option<string>,
                   canonical: string -> Option<string>, addOk: string -> bool, commitOk: bool)
    requires changes != []
    requires ApplyAndCommit(st, message, changes, root, canonical, addOk, commitOk).1.Ok?
    ensures ApplyAll(st.files, changes).1.None? && StageAll(st.staged, changes, addOk).1.None? && commitOk
    ensures ApplyAndCommit(st, message, changes, root, canonical, addOk, commitOk).0 ==
      Repo(ApplyAll(st.files, changes).0, StageAll(st.staged, changes, addOk).0, st.commits + [FinalMessage(message)])
  {
  }

  /** Without changes a run does nothing and succeeds. */
  lemma NoChangesNoRun(st: Repo, message: string, root: Option<string>,
                       canonical: string -> Option<string>, addOk: string -> bool, commitOk: bool)
    ensures ApplyAndCommit(st, message, [], root, canonical, addOk, commitOk) == (st, Ok(()))
  {
  }

  // ---------------------------------------------------------------------------
  // Examples
  // ---------------------------------------------------------------------------

  /** `hello world` becomes `hello rust`, the final newline kept. */
  lemma HelloRust()
    ensures NewContent(map["test-file.txt" := "hello world\n"], FileChange("test-file.txt", "hello world", "hello rust")) ==
      Ok("hello rust\n")
  {
    var hay := "hello world\n";
    var needle := "hello world";
    assert hay[..|needle|] == needle;
    assert CountMatches(hay[|needle|..], needle) == 0;
    assert CountMatches(hay, needle) == 1;
    assert ReplaceFirst(hay, needle, "hello rust") == "hello rust\n";
  }

  /** Two occurrences are ambiguous. */
  lemma AmbiguousExample()
    ensures NewContent(map["a.txt" := "foo foo\n"], FileChange("a.txt", "foo", "bar")) == Err(Ambiguous("a.txt", 2))
  {
    var hay := "foo foo\n";
    assert hay[..3] == "foo";
    var t := hay[3..];
    assert t[0] == ' ';
    assert t[..3] != "foo";
    assert t[1..][..3] == "foo";
    var u := t[1..][3..];
    assert u == "\n";
    assert CountMatches(u, "foo") == 0;
    assert CountMatches(t[1..], "foo") == 1;
    assert CountMatches(t, "foo") == 1;
    assert CountMatches(hay, "foo") == 2;
  }

  /** Overlapping occurrences count once, as `matches` does, so `aa` in `aaa` is replaced. */
  lemma OverlapCountsOnce()
    ensures NewContent(map["a.txt" := "aaa"], FileChange("a.txt", "aa", "b")) == Ok("ba\n")
  {
    var hay := "aaa";
    assert hay[..2] == "aa";
    assert hay[2..] == "a";
    assert CountMatches(hay[2..], "aa") == 0;
    assert CountMatches(hay, "aa") == 1;
    assert ReplaceFirst(hay, "aa", "b") == "b" + hay[2..] == "ba";
    assert EnsureNewline("ba") == "ba\n";
  }

  /** A name without a slash is one segment. */
  lemma SegmentsOfName(p: string)
    requires p != [] && '/' !in p
    ensures Segments(p) == [p]
  {
    assert IndexOf(p, '/') == |p|;
    assert p[..|p|] == p;
  }

  /** A name followed by a slash is a segment, and the segments after it follow. */
  lemma SegmentsOfDir(p: string, k: nat)
    requires 0 < k < |p| && '/' !in p[..k] && p[k] == '/'
    ensures Segments(p) == [p[..k]] + Segments(p[k + 1..])
  {
    assert IndexOf(p, '/') == k;
  }

  /** A leading slash adds no segment. */
  lemma SegmentsOfSlash(p: string)
    requires p != [] && p[0] == '/'
    ensures Segments(p) == Segments(p[1..])
  {
    var k := IndexOf(p, '/');
    assert k == 0 && p[k + 1..] == p[1..];
    if |p| == 1 {
      assert p[1..] == [];
    } else {
      NilAppend(Segments(p[1..]));
    }
  }

  /** The segments of `d/x` are `d` and `x`. */
  lemma SegmentsOfPair(d: string, x: string)
    requires d != [] && x != [] && '/' !in d && '/' !in x
    ensures Segments(d + "/" + x) == [d, x]
  {
    var q := d + "/" + x;
    assert q[..|d|] == d && q[|d|] == '/' && q[|d| + 1..] == x;
    SegmentsOfDir(q, |d|);
    SegmentsOfName(x);
  }

  /** The components of `/d/x` are the root, `d` and `x`. */
  lemma ComponentsOfAbsolute(d: string, x: string)
    requires d != [] && x != [] && '/' !in d && '/' !in x
    ensures Components("/" + (d + "/" + x)) == ["/", d, x]
  {
    var q := d + "/" + x;
    assert ("/" + q)[1..] == q;
    SegmentsOfSlash("/" + q);
    SegmentsOfPair(d, x);
  }

  /**
    Containment compares whole components: `/d/x` is not inside `/d/y` for
    another name `y`, even when `y` is a prefix of `x` as a string.
   */
  lemma WholeComponents(d: string, x: string, y: string)
    requires d != [] && x != [] && y != [] && '/' !in d && '/' !in x && '/' !in y && x != y
    ensures !Within("/" + (d + "/" + x), "/" + (d + "/" + y))
  {
    ComponentsOfAbsolute(d, x);
    ComponentsOfAbsolute(d, y);
    var c: seq<string> := ["/", d, x];
    assert c[..3] == c;
  }

  /** `/home/ab` is not inside `/home/a`. */
  lemma ComponentPrefix()
    ensures !Within("/home/ab", "/home/a")
  {
    WholeComponents("home", "ab", "a");
    assert "/" + ("home" + "/" + "ab") == "/home/ab";
    assert "/" + ("home" + "/" + "a") == "/home/a";
  }

  // ===========================================================================
  // The hook, over a working tree
  // ===========================================================================

  /** The containment loop of `apply_and_commit_changes`, which changes nothing. */
  method CheckContainment(changes: seq<FileChange>, root: string, canonical: string -> Option<string>)
    returns (e: Option<PatchError>)
    ensures e == ContainmentError(changes, root, canonical)
  {
    for i := 0 to |changes|
      invariant ContainmentError(changes, root, canonical) == ContainmentError(changes[i..], root, canonical)
    {
      assert changes[i..][1..] == changes[i + 1..];
      var c := canonical(changes[i].path);
      if c.None? {
        return Some(Unresolvable(changes[i].path));
      }
      if !Within(c.value, root) {
        return Some(OutsideRoot(changes[i].path));
      }
    }
    return None;
  }

  /** The files, the index and the history the hook works on. */
  class WorkTree {
    var files: map<string, string>
    var staged: seq<string>
    var commits: seq<string>

    constructor (files0: map<string, string>)
      ensures files == files0 && staged == [] && commits == []
    {
      files := files0;
      staged := [];
      commits := [];
    }

    function State(): Repo
      reads this
    {
      Repo(files, staged, commits)
    }

    /** The rewrite loop: write each change's new content in turn, stopping at the first failure. */
    method Rewrite(changes: seq<FileChange>) returns (e: Option<PatchError>)
      modifies this
      ensures (files, e) == ApplyAll(old(files), changes)
      ensures staged == old(staged) && commits == old(commits)
    {
      for i := 0 to |changes|
        invariant ApplyAll(old(files), changes) == ApplyAll(files, changes[i..])
        invariant staged == old(staged) && commits == old(commits)
      {
        assert changes[i..][1..] == changes[i + 1..];
        var change := changes[i];
        var content: string;
        if change.search == [] {
          content := change.replace;
        } else {
          if change.path !in files {
            return Some(ReadFailed(change.path));
          }
          var before := files[change.path];
          var occurrences := CountMatches(before, change.search);
          if occurrences == 0 {
            return Some(SearchNotFound(change.path));
          }
          if occurrences > 1 {
            return Some(Ambiguous(change.path, occurrences));
          }
          content := ReplaceFirst(before, change.search, change.replace);
        }
        if content != [] && content[|content| - 1] != '\n' {
          content := content + "\n";
        }
        files := files[change.path := content];
      }
      return None;
    }

    /** `git add` of every changed path, stopping at the first failure. */
    method Stage(changes: seq<FileChange>, addOk: string -> bool) returns (e: Option<PatchError>)
      modifies this
      ensures (staged, e) == StageAll(old(staged), changes, addOk)
      ensures files == old(files) && commits == old(commits)
    {
      for i := 0 to |changes|
        invariant StageAll(old(staged), changes, addOk) == StageAll(staged, changes[i..], addOk)
        invariant files == old(files) && commits == old(commits)
      {
        assert changes[i..][1..] == changes[i + 1..];
        if !addOk(changes[i].path) {
          return Some(AddFailed(changes[i].path));
        }
        staged := staged + [changes[i].path];
      }
      return None;
    }

    /**
      `apply_and_commit_changes`, with the exit status of each `git add` given
      by `addOk` and that of `git commit` by `commitOk`.
     */
    method ApplyAndCommitChanges(message: string, changes: seq<FileChange>, root: Option<string>,
                                 canonical: string -> Option<string>, addOk: string -> bool, commitOk: bool)
      returns (r: Result<(), PatchError>)
      modifies this
      ensures (State(), r) == ApplyAndCommit(old(State()), message, changes, root, canonical, addOk, commitOk)
    {
      if changes == [] {
        return Ok(());
      }
      if root.Some? {
        var e := CheckContainment(changes, root.value, canonical);
        if e.Some? {
          return Err(e.value);
        }
      }
      var e := Rewrite(changes);
      if e.Some? {
        return Err(e.value);
      }
      e := Stage(changes, addOk);
      if e.Some? {
        return Err(e.value);
      }
      var finalMessage := if message == [] then FallbackMessage else message;
      if !commitOk {
        return Err(CommitFailed);
      }
      commits := commits + [finalMessage];
      return Ok(());
    }

    /** `post_send`: parse the reply, then apply and commit when it has changes. */
    method PostSendHook(response: string, root: Option<string>,
                        canonical: string -> Option<string>, addOk: string -> bool, commitOk: bool)
      returns (r: Result<(), PatchError>)
      modifies this
      ensures (State(), r) == PostSend(old(State()), response, root, canonical, addOk, commitOk)
    {
      var message, changes := ParseChanges(response);
      if changes != [] {
        r := ApplyAndCommitChanges(message, changes, root, canonical, addOk, commitOk);
      } else {
        r := Ok(());
      }
    }
  }
}
