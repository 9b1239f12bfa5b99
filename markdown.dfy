/**
  Splitting a chat transcript written in Markdown into messages: a line
  `## <role>` (role `system`, `user` or `assistant`, any case, any
  surrounding whitespace) starts a new message, and every other line is part
  of the current message's content.
 */
module Markdown {

  import opened Wrappers
  import opened Text

  datatype ChatMessage = ChatMessage(role: string, content: string)

  const HeaderPrefix := "## "

  predicate IsRole(word: string) {
    word == "system" || word == "user" || word == "assistant"
  }

  /** The role a line opens, when it is a role header. */
  function HeaderRole(line: string): (r: Option<string>)
    ensures r.Some? ==> IsRole(r.value)
  {
    if StartsWith(line, HeaderPrefix) then
      var word := ToLower(Trim(line[|HeaderPrefix|..]));
      if IsRole(word) then Some(word) else None
    else None
  }

  // ---------------------------------------------------------------------------
  // The splitter as a fold over the lines
  // ---------------------------------------------------------------------------

  /** The loop's state: the messages so far, the current role, and its lines. */
  datatype Split = Split(messages: seq<ChatMessage>, role: Option<string>, buffer: seq<string>)

  const Start := Split([], None, [])

  /** Close the current message: kept only under a role and when its trimmed content is not empty. */
  function Flush(st: Split): seq<ChatMessage> {
    match st.role
    case None => st.messages
    case Some(role) =>
      var content := Trim(Join(st.buffer, "\n"));
      if content == [] then st.messages else st.messages + [ChatMessage(role, content)]
  }

  function Step(st: Split, line: string): Split {
    match HeaderRole(line)
    case Some(role) => Split(Flush(st), Some(role), [])
    case None => st.(buffer := st.buffer + [line])
  }

  function FoldFrom(st: Split, lines: seq<string>): Split {
    if lines == [] then st
    else Step(FoldFrom(st, lines[..|lines| - 1]), lines[|lines| - 1])
  }

  function Fold(lines: seq<string>): Split {
    FoldFrom(Start, lines)
  }

  /** The messages of a transcript. */
  function SplitLines(lines: seq<string>): seq<ChatMessage> {
    Flush(Fold(lines))
  }

  /** `split_chat_history_markdown`. */
  method SplitChatHistoryMarkdown(text: string) returns (messages: seq<ChatMessage>)
    ensures messages == SplitLines(Lines(text))
  {
    var lines := Lines(text);
    messages := [];
    var currentLines: seq<string> := [];
    var currentRole: Option<string> := None;
    for i := 0 to |lines|
      invariant Split(messages, currentRole, currentLines) == Fold(lines[..i])
    {
      assert lines[..i + 1][..i] == lines[..i];
      var line := lines[i];
      if StartsWith(line, HeaderPrefix) {
        var candidate := ToLower(Trim(line[|HeaderPrefix|..]));
        if IsRole(candidate) {
          if currentRole.Some? {
            var content := Trim(Join(currentLines, "\n"));
            if content != [] {
              messages := messages + [ChatMessage(currentRole.value, content)];
            }
          }
          currentLines := [];
          currentRole := Some(candidate);
        } else {
          currentLines := currentLines + [line];
        }
      } else {
        currentLines := currentLines + [line];
      }
    }
    assert lines[..|lines|] == lines;
    if currentRole.Some? {
      var content := Trim(Join(currentLines, "\n"));
      if content != [] {
        messages := messages + [ChatMessage(currentRole.value, content)];
      }
    }
  }

  // ---------------------------------------------------------------------------
  // What the splitter promises
  // ---------------------------------------------------------------------------

  /** Every message has a lowercase role word and non-empty, already trimmed content. */
  predicate WellFormed(m: ChatMessage) {
    IsRole(m.role) && m.content != [] && Trim(m.content) == m.content
  }

  lemma FlushWellFormed(st: Split)
    requires forall m :: m in st.messages ==> WellFormed(m)
    requires st.role.Some? ==> IsRole(st.role.value)
    ensures forall m :: m in Flush(st) ==> WellFormed(m)
  {
    if st.role.Some? {
      TrimIdempotent(Join(st.buffer, "\n"));
    }
  }

  lemma {:induction false} FoldWellFormed(lines: seq<string>)
    ensures forall m :: m in Fold(lines).messages ==> WellFormed(m)
    ensures Fold(lines).role.Some? ==> IsRole(Fold(lines).role.value)
  {
    if lines != [] {
      var n := |lines| - 1;
      FoldWellFormed(lines[..n]);
      FlushWellFormed(Fold(lines[..n]));
    }
  }

  /** The output has only well-formed messages: empty ones are never emitted. */
  lemma SplitWellFormed(lines: seq<string>)
    ensures forall m :: m in SplitLines(lines) ==> WellFormed(m)
  {
    FoldWellFormed(lines);
    FlushWellFormed(Fold(lines));
  }

  lemma {:induction false} FoldNoHeader(lines: seq<string>)
    requires forall i :: 0 <= i < |lines| ==> HeaderRole(lines[i]).None?
    ensures Fold(lines) == Split([], None, lines)
  {
    if lines != [] {
      var n := |lines| - 1;
      FoldNoHeader(lines[..n]);
      assert lines[..n] + [lines[n]] == lines;
    }
  }

  /** Text with no role header has no messages. */
  lemma NoHeaderNoMessages(lines: seq<string>)
    requires forall i :: 0 <= i < |lines| ==> HeaderRole(lines[i]).None?
    ensures SplitLines(lines) == []
  {
    FoldNoHeader(lines);
  }

  lemma {:induction false} FoldAppend(st: Split, a: seq<string>, b: seq<string>)
    ensures FoldFrom(st, a + b) == FoldFrom(FoldFrom(st, a), b)
  {
    if b == [] {
      assert a + b == a;
    } else {
      var n := |b| - 1;
      FoldAppend(st, a, b[..n]);
      assert (a + b)[..|a + b| - 1] == a + b[..n];
    }
  }

  /** Lines before the first role header are discarded. */
  lemma PreambleDiscarded(pre: seq<string>, header: string, rest: seq<string>)
    requires forall i :: 0 <= i < |pre| ==> HeaderRole(pre[i]).None?
    requires HeaderRole(header).Some?
    ensures SplitLines(pre + [header] + rest) == SplitLines([header] + rest)
  {
    FoldNoHeader(pre);
    FoldAppend(Start, pre, [header]);
    assert FoldFrom(Start, pre + [header]) == FoldFrom(Start, [header]) by {
      assert FoldFrom(Start, [header]) == Step(Start, header) by {
        assert [header][..0] == [];
      }
    }
    FoldAppend(Start, pre + [header], rest);
    FoldAppend(Start, [header], rest);
  }

  /** Index just after the last role header, or 0 when there is none. */
  function SectionStart(lines: seq<string>): (k: nat)
    ensures k <= |lines|
  {
    if lines == [] then 0
    else
      var n := |lines| - 1;
      if HeaderRole(lines[n]).Some? then |lines| else SectionStart(lines[..n])
  }

  /** No header follows the section start, and the line before it is one. */
  lemma {:induction false} SectionStartHeader(lines: seq<string>)
    ensures forall j :: SectionStart(lines) <= j < |lines| ==> HeaderRole(lines[j]).None?
    ensures SectionStart(lines) > 0 ==> HeaderRole(lines[SectionStart(lines) - 1]).Some?
  {
    if lines != [] {
      var n := |lines| - 1;
      if HeaderRole(lines[n]).None? {
        SectionStartHeader(lines[..n]);
        var k := SectionStart(lines[..n]);
        forall j | k <= j < |lines|
          ensures HeaderRole(lines[j]).None?
        {
          if j < n {
            assert lines[j] == lines[..n][j];
          }
        }
        assert k > 0 ==> lines[k - 1] == lines[..n][k - 1];
      }
    }
  }

  /**
    The current message holds, verbatim, every line since the last role
    header (other `## ` lines included), under that header's role.
   */
  lemma {:induction false} CurrentSection(lines: seq<string>)
    ensures Fold(lines).buffer == lines[SectionStart(lines)..]
    ensures Fold(lines).role == if SectionStart(lines) == 0 then None else HeaderRole(lines[SectionStart(lines) - 1])
  {
    if lines != [] {
      var n := |lines| - 1;
      var st := Fold(lines[..n]);
      assert Fold(lines) == Step(st, lines[n]);
      if HeaderRole(lines[n]).Some? {
        assert SectionStart(lines) == |lines|;
        assert Fold(lines).buffer == [];
      } else {
        CurrentSection(lines[..n]);
        var k := SectionStart(lines[..n]);
        assert SectionStart(lines) == k;
        assert Fold(lines) == st.(buffer := st.buffer + [lines[n]]);
        assert lines[..n][k..] + [lines[n]] == lines[k..];
        assert k > 0 ==> lines[..n][k - 1] == lines[k - 1];
      }
    }
  }

  /** The content of the last message is its section's lines, joined and trimmed. */
  lemma LastMessage(lines: seq<string>)
    requires SectionStart(lines) > 0
    ensures var k := SectionStart(lines);
      var content := Trim(Join(lines[k..], "\n"));
      HeaderRole(lines[k - 1]).Some? &&
      SplitLines(lines) == Fold(lines).messages + (if content == [] then [] else [ChatMessage(HeaderRole(lines[k - 1]).value, content)])
  {
    SectionStartHeader(lines);
    CurrentSection(lines);
  }

  lemma FoldPush(lines: seq<string>, line: string)
    ensures Fold(lines + [line]) == Step(Fold(lines), line)
  {
    assert (lines + [line])[..|lines|] == lines;
  }

  /** A line that does not start with `#` never opens a message. */
  lemma PlainLine(line: string)
    requires line != [] && line[0] != '#'
    ensures HeaderRole(line) == None
  {
    assert !StartsWith(line, HeaderPrefix) by {
      if |line| >= |HeaderPrefix| {
        assert line[..|HeaderPrefix|][0] == line[0];
      }
    }
  }

  lemma HeaderUser()
    ensures HeaderRole("## User") == Some("user")
  {
    assert "## User"[3..] == "User";
  }

  lemma HeaderNotes()
    ensures HeaderRole("## Notes") == None
  {
    assert "## Notes"[3..] == "Notes";
    assert |ToLower(Trim("Notes"))| == 5;
  }

  /** A line with the header prefix whose rest, trimmed and lowered, is a role, is that role's header. */
  lemma HeaderOf(line: string, rest: string, word: string)
    requires |line| >= 3 && line[..3] == HeaderPrefix && line[3..] == rest
    requires ToLower(Trim(rest)) == word && IsRole(word)
    ensures HeaderRole(line) == Some(word)
  {
  }

  lemma HeaderAssistant()
    ensures HeaderRole("##  ASSISTANT ") == Some("assistant")
  {
    var line := "##  ASSISTANT ";
    assert line[..3] == HeaderPrefix && line[3..] == " ASSISTANT ";
    TrimAssistant();
    LowerAssistant();
    HeaderOf(line, " ASSISTANT ", "assistant");
  }

  lemma TrimAssistant()
    ensures Trim(" ASSISTANT ") == "ASSISTANT"
  {
    var s := " ASSISTANT ";
    assert s[1..] == "ASSISTANT ";
    assert s[1..][..9] == "ASSISTANT";
  }

  lemma LowerAssistant()
    ensures ToLower("ASSISTANT") == "assistant"
  {
  }

  lemma ExampleUserSection()
    ensures Fold(["intro", "## User", "hi", "## Notes"]) == Split([], Some("user"), ["hi", "## Notes"])
  {
    var l0, l1, l2, l3 := "intro", "## User", "hi", "## Notes";
    PlainLine(l0);
    PlainLine(l2);
    HeaderUser();
    HeaderNotes();
    FoldPush([], l0);
    assert [] + [l0] == [l0];
    FoldPush([l0], l1);
    assert [l0] + [l1] == [l0, l1];
    FoldPush([l0, l1], l2);
    assert [l0, l1] + [l2] == [l0, l1, l2];
    FoldPush([l0, l1, l2], l3);
    assert [l0, l1, l2] + [l3] == [l0, l1, l2, l3];
  }

  lemma ExampleUserContent()
    ensures Trim(Join(["hi", "## Notes"], "\n")) == "hi\n## Notes"
  {
    assert Join(["hi", "## Notes"], "\n") == "hi\n## Notes";
  }

  lemma ExampleAssistantSection()
    ensures Fold(["intro", "## User", "hi", "## Notes", "##  ASSISTANT "])
      == Split([ChatMessage("user", "hi\n## Notes")], Some("assistant"), [])
  {
    var pre := ["intro", "## User", "hi", "## Notes"];
    ExampleUserSection();
    HeaderAssistant();
    ExampleUserContent();
    FoldPush(pre, "##  ASSISTANT ");
    assert pre + ["##  ASSISTANT "] == ["intro", "## User", "hi", "## Notes", "##  ASSISTANT "];
  }

  /**
    A worked transcript: the preamble is dropped, `## Notes` stays inside the
    user's message, and the header's case and spacing do not matter.
   */
  lemma Example()
    ensures SplitLines(["intro", "## User", "hi", "## Notes", "##  ASSISTANT ", "hello"])
      == [ChatMessage("user", "hi\n## Notes"), ChatMessage("assistant", "hello")]
  {
    var pre := ["intro", "## User", "hi", "## Notes", "##  ASSISTANT "];
    ExampleAssistantSection();
    PlainLine("hello");
    FoldPush(pre, "hello");
    assert pre + ["hello"] == ["intro", "## User", "hi", "## Notes", "##  ASSISTANT ", "hello"];
    assert Fold(pre + ["hello"]) == Split([ChatMessage("user", "hi\n## Notes")], Some("assistant"), ["hello"]);
    ExampleAssistantContent();
  }

  lemma ExampleAssistantContent()
    ensures Trim(Join(["hello"], "\n")) == "hello"
  {
    assert Trim("hello") == "hello";
  }

  // ---------------------------------------------------------------------------
  // Roles come in the order of the headers
  // ---------------------------------------------------------------------------

  /** `a` is a subsequence of `b` (matching from the back). */
  predicate IsSub(a: seq<string>, b: seq<string>)
    decreases |b|
  {
    if a == [] then true
    else if b == [] then false
    else if a[|a| - 1] == b[|b| - 1] then IsSub(a[..|a| - 1], b[..|b| - 1])
    else IsSub(a, b[..|b| - 1])
  }

  lemma SubExtend(a: seq<string>, b: seq<string>, x: string)
    requires IsSub(a, b)
    ensures IsSub(a + [x], b + [x])
  {
    assert (a + [x])[..|a|] == a && (b + [x])[..|b|] == b;
  }

  lemma {:induction false} SubWeaken(a: seq<string>, b: seq<string>, x: string)
    requires IsSub(a, b)
    ensures IsSub(a, b + [x])
    decreases |b|, 2
  {
    assert (b + [x])[..|b|] == b;
    if a != [] && a[|a| - 1] == x {
      SubDropLast(a, b);
    }
  }

  lemma {:induction false} SubDropLast(a: seq<string>, b: seq<string>)
    requires IsSub(a, b) && a != []
    ensures IsSub(a[..|a| - 1], b)
    decreases |b|, 1
  {
    var a', b' := a[..|a| - 1], b[..|b| - 1];
    assert b' + [b[|b| - 1]] == b;
    if a[|a| - 1] == b[|b| - 1] {
      SubWeaken(a', b', b[|b| - 1]);
    } else {
      SubDropLast(a, b');
      SubWeaken(a', b', b[|b| - 1]);
    }
  }

  lemma {:induction false} SubLength(a: seq<string>, b: seq<string>)
    requires IsSub(a, b)
    ensures |a| <= |b|
    decreases |b|
  {
    if a != [] {
      if a[|a| - 1] == b[|b| - 1] {
        SubLength(a[..|a| - 1], b[..|b| - 1]);
      } else {
        SubLength(a, b[..|b| - 1]);
      }
    }
  }

  function Roles(ms: seq<ChatMessage>): (r: seq<string>)
    ensures |r| == |ms|
  {
    if ms == [] then [] else Roles(ms[..|ms| - 1]) + [ms[|ms| - 1].role]
  }

  lemma RolesPush(ms: seq<ChatMessage>, m: ChatMessage)
    ensures Roles(ms + [m]) == Roles(ms) + [m.role]
  {
    assert (ms + [m])[..|ms|] == ms;
  }

  /** The roles of the header lines, in order. */
  function HeaderRoles(lines: seq<string>): seq<string> {
    if lines == [] then []
    else
      var n := |lines| - 1;
      HeaderRoles(lines[..n]) + (match HeaderRole(lines[n]) case Some(r) => [r] case None => [])
  }

  function RoleSeq(role: Option<string>): seq<string> {
    match role
    case None => []
    case Some(r) => [r]
  }

  /** Closing the current message keeps the roles a subsequence of the open ones. */
  lemma FlushRoles(st: Split, h: seq<string>)
    requires IsSub(Roles(st.messages) + RoleSeq(st.role), h)
    ensures IsSub(Roles(Flush(st)), h)
  {
    match st.role
    case None =>
      assert Roles(st.messages) + RoleSeq(st.role) == Roles(st.messages);
    case Some(role) =>
      var content := Trim(Join(st.buffer, "\n"));
      if content == [] {
        SubDropLast(Roles(st.messages) + [role], h);
        assert (Roles(st.messages) + [role])[..|Roles(st.messages)|] == Roles(st.messages);
      } else {
        RolesPush(st.messages, ChatMessage(role, content));
      }
  }

  lemma {:induction false} FoldRoles(lines: seq<string>)
    ensures IsSub(Roles(Fold(lines).messages) + RoleSeq(Fold(lines).role), HeaderRoles(lines))
  {
    if lines != [] {
      var n := |lines| - 1;
      var st := Fold(lines[..n]);
      FoldRoles(lines[..n]);
      match HeaderRole(lines[n])
      case Some(r) =>
        FlushRoles(st, HeaderRoles(lines[..n]));
        SubExtend(Roles(Flush(st)), HeaderRoles(lines[..n]), r);
      case None =>
        assert HeaderRoles(lines) == HeaderRoles(lines[..n]);
    }
  }

  /**
    The messages come in the order of their headers: their roles are a
    subsequence of the header roles, so there are never more messages than
    header lines.
   */
  lemma RolesInOrder(lines: seq<string>)
    ensures IsSub(Roles(SplitLines(lines)), HeaderRoles(lines))
    ensures |SplitLines(lines)| <= |HeaderRoles(lines)|
  {
    FoldRoles(lines);
    FlushRoles(Fold(lines), HeaderRoles(lines));
    SubLength(Roles(SplitLines(lines)), HeaderRoles(lines));
  }
}
