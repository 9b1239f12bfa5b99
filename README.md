# retort, modelled in Dafny

retort is a command-line pair-programming assistant. It keeps a tree of chat
messages in SQLite. Each user message records which files were sent with it.
A user can show a conversation, list its leaves, move tags between messages,
stage files for the next message and send a prompt. When the reply contains
SEARCH/REPLACE blocks, a post-send hook rewrites the named files and commits
them with git.

This project models the logic at the centre of that program and proves what
it promises:

- `patch.dfy` (module `Patch`) models the patch hook of
  `src/hooks/postprocessor.rs`:
  - `parse_changes` is modelled as written: an outer scan over line indices and an inner scan to the close marker. Blocks may overlap, and a `=======` line is never content.
  - The consumed-line set, the commit message and the fence removal.
  - `apply_and_commit_changes` runs over the class `WorkTree`, which holds the files, the index and the commits. Its path containment check is a prefix test on whole path components.
  - `post_send`.
- `store.dfy` (module `Store`) models `src/db.rs`:
  - the database is the class `Database`, whose fields hold the message rows, the tag table, the profile and the stage rows;
  - stage edits (`retain`/`push` on three lists, written back);
  - the new and legacy stage row formats;
  - the ancestor and leaf queries, as functions over the message rows;
  - the tag table.
- `turn.dfy` (module `Turn`) models the decisions inside `run()` in `src/lib.rs`:
  - `tag set` outcomes;
  - the `history` target;
  - the parent and tag choice for `send`;
  - the inherited context found through the parent's parent;
  - the merge of inherited and prepared files into `path -> is_readonly`;
  - the sorted partition and file loading;
  - the order of effects in one `send`;
  - the `list` preview.
- `markdown.dfy` (module `Markdown`) models `split_chat_history_markdown` from `src/prompt.rs`: a loop over the lines with a current role and a line buffer.
- `text.dfy` (module `Text`) holds the parts of Rust's `str` that the core relies on: `lines`, `join`, `trim`, `to_lowercase`, `matches(..).count()` and `replacen(.., 1)`.
- `order.dfy` (module `Order`) holds the byte-wise order on strings, and the sorted listing of a set of strings that `sort()` and `ORDER BY tag` produce.
- `wrappers.dfy` holds `Option` and `Result`.

Imperative code in the source is imperative here too. `FindBlocks`, `ScanBody`, `WorkTree.Rewrite`, `WorkTree.Stage`, `InsertAll`, `Partition`, `LoadFiles` and `SplitChatHistoryMarkdown` are `while`/`for` loops. Each is proved equal to a function, and the properties are proved about that function. The store's mutators are methods of `Database` with `modifies` frames.

Three points of the code's behaviour that are easy to misread:

- The merge of inherited and prepared context never looks at `dropped_files`. A dropped file that the parent turn recorded is still sent (`Turn.DroppedStillSent`).
- Inherited metadata that is present, non-empty and does not decode is an error for the whole `send`. It does not fall back to empty context (`src/lib.rs:310` uses `?`; see `Turn.Inherited`).
- `get_conversation_history` of an unknown id returns no rows; it is not an error (`Store.HistoryUnknown`).

## Model

| member | source | states |
|---|---|---|
| Patch.CloseIndex | src/hooks/postprocessor.rs:37-50 | the close is the first `>>>>>>> REPLACE` line at or after the start; none means no such line |
| Patch.ScanBody | src/hooks/postprocessor.rs:37-50 | the inner loop finds that close and collects exactly the search lines and replace lines of the body before it |
| Patch.FindBlocks | src/hooks/postprocessor.rs:22-64 | the outer loop emits exactly the changes of the block scan and marks exactly the consumed indices |
| Patch.ParseChanges | src/hooks/postprocessor.rs:17-79 | the changes and the commit message are those of the scan over `lines()` of the reply |
| Patch.ChangeOrigins | src/hooks/postprocessor.rs:22-62 | each change comes from one opening line, openers strictly increase, and every index that opens a closed block is an opener |
| Patch.ChangePaths | src/hooks/postprocessor.rs:22-57 | every change's path is the trimmed line just before a SEARCH line, non-empty, without a space, not starting with `#`; changes follow ascending line order |
| Patch.BlockContent | src/hooks/postprocessor.rs:37-60 | search is the lines before the first `=======`, joined by newline; replace is the non-`=======` lines after it, up to the close; no marker line is content |
| Patch.SearchParts | src/hooks/postprocessor.rs:38-45 | the search lines are a prefix of the body, free of markers, ended by the first divider |
| Patch.ReplaceParts | src/hooks/postprocessor.rs:38-48 | the replace lines hold no marker; with no divider they are empty; with one divider they are the rest of the body |
| Patch.UnclosedBlockKept | src/hooks/postprocessor.rs:37-62 | an opening with no close emits no change from there on and none of its lines is consumed |
| Patch.ConsumedWithin | src/hooks/postprocessor.rs:52-56 | every consumed index lies between an emitted block's path line and its close |
| Patch.KeptAll | src/hooks/postprocessor.rs:66-73 | with nothing consumed, every line is kept in order |
| Patch.NoBlocksNoChanges | src/hooks/postprocessor.rs:22-78 | a reply in which no block closes yields no change, and its commit message is the whole reply, with fences removed and trimmed |
| Patch.NoMarkerNoBlocks | src/hooks/postprocessor.rs:38-52 | without a `>>>>>>> REPLACE` line no block closes |
| Patch.ExampleChanges | src/hooks/postprocessor.rs:22-62 | a reply of a message line and one block yields the one change and consumes exactly the block's lines, 1 to 6 |
| Patch.ParseExample | src/hooks/postprocessor.rs:17-79 | for the one-block reply, parsing gives that change and keeps the surrounding text as the commit message |
| Patch.StripFences | src/hooks/postprocessor.rs:75-76 | the fence removal never lengthens the message |
| Patch.FirstTicks | src/hooks/postprocessor.rs:75-76 | the leftmost triple backtick at or after a position, or none |
| Patch.StripFencesPlain | src/hooks/postprocessor.rs:75-76 | text without a backtick is left as it is |
| Patch.EnsureNewline | src/hooks/postprocessor.rs:157-160 | empty stays empty; otherwise the result ends with a newline, and an existing one is not doubled |
| Patch.ContainmentOk | src/hooks/postprocessor.rs:91-126 | the pre-check passes exactly when every change's canonical path lies under the root |
| Patch.ContainmentFirst | src/hooks/postprocessor.rs:91-126 | a failing pre-check reports the first change outside the root |
| Patch.CheckContainment | src/hooks/postprocessor.rs:91-126 | the loop computes that pre-check |
| Patch.WholeComponents | src/hooks/postprocessor.rs:118 | two sibling names are never inside one another, as `Path::starts_with` compares whole components |
| Patch.ComponentPrefix | src/hooks/postprocessor.rs:118 | `/home/ab` is not inside `/home/a` |
| Patch.NewContent | src/hooks/postprocessor.rs:131-160 | empty search writes the replace text; a missing file is a read error; any content written is normalised |
| Patch.NotFoundIff | src/hooks/postprocessor.rs:136-141 | the not-found error occurs exactly when the search is non-empty and absent from the file |
| Patch.AmbiguousCount | src/hooks/postprocessor.rs:142-148 | the ambiguous error names the occurrence count, which is at least two |
| Patch.ReplacedOnce | src/hooks/postprocessor.rs:137-150 | a successful non-empty search occurs exactly once and the one occurrence is replaced |
| Text.ReplaceFirstLeftmost | src/hooks/postprocessor.rs:150 | `replacen(.., 1)` replaces the leftmost occurrence, and changes nothing when there is none |
| Text.CountMatches | src/hooks/postprocessor.rs:137 | the non-overlapping count is zero exactly when the search does not occur |
| Text.FirstOccurrence | src/hooks/postprocessor.rs:150 | the leftmost index at which the search occurs, or none when it does not occur |
| Patch.HelloRust | tests/cli_fence.rs:99-101 | `hello world\n` with search `hello world` and replace `hello rust` becomes `hello rust\n` |
| Patch.AmbiguousExample | src/hooks/postprocessor.rs:142-148 | a search found twice is refused, naming 2 |
| Patch.OverlapCountsOnce | src/hooks/postprocessor.rs:137-150 | `aa` in `aaa` counts once, since matches do not overlap, and is replaced |
| Patch.ApplyUntouched | src/hooks/postprocessor.rs:128-162 | a file that no change names is left as it was |
| Patch.ApplyNormalises | src/hooks/postprocessor.rs:128-162 | after a successful rewrite every changed file exists and ends with a newline unless empty |
| Patch.ApplyStopsAtFirstError | src/hooks/postprocessor.rs:128-162 | a failing rewrite keeps the writes before the failing change and stops there, with that change's error |
| Patch.StageAllOk | src/hooks/postprocessor.rs:165-170 | staging succeeds exactly when every `git add` succeeds |
| Patch.StageAllPaths | src/hooks/postprocessor.rs:165-170 | successful staging adds the changed paths in order |
| Patch.StageFirstFailure | src/hooks/postprocessor.rs:165-170 | a failed staging names the first path whose `git add` failed |
| Patch.FinalMessage | src/hooks/postprocessor.rs:172-176 | the commit message is never empty; a non-empty message is used as it is |
| Patch.EscapeWritesNothing | src/hooks/postprocessor.rs:91-128 | with a root set, one path outside it leaves the repository unchanged and reports a path outside the root |
| Patch.SuccessfulRun | src/hooks/postprocessor.rs:81-192 | a successful run writes the changed files, leaves the rest, stages the paths and commits once with the final message |
| Patch.NoChangesNoRun | src/hooks/postprocessor.rs:87-89 | no changes: nothing written, staged or committed |
| Patch.WorkTree.Rewrite | src/hooks/postprocessor.rs:128-162 | the loop's files and error are those of the rewrite function; index and commits unchanged |
| Patch.WorkTree.Stage | src/hooks/postprocessor.rs:165-170 | the loop's index and error are those of the staging function; files and commits unchanged |
| Patch.WorkTree.ApplyAndCommitChanges | src/hooks/postprocessor.rs:81-192 | new state and result are those of the apply-and-commit function |
| Patch.WorkTree.PostSendHook | src/hooks/postprocessor.rs:196-202 | parse, then apply and commit only when there are changes |
| Text.Lines | src/hooks/postprocessor.rs:18 | no line holds a newline; only empty text has no lines |
| Text.LinesOfTerminated | src/hooks/postprocessor.rs:18 | lines each followed by a newline split back into those lines |
| Text.Trim | src/prompt.rs:116 | the result is no longer than the input and neither starts nor ends with whitespace |
| Text.TrimSlice | src/prompt.rs:120 | the result is a slice of the input with only whitespace cut from either end |
| Text.TrimEmpty | src/prompt.rs:122 | trimming gives empty text exactly when the input is all whitespace |
| Text.ToLower | src/prompt.rs:116 | same length, each character lowered |
| Text.Join | src/prompt.rs:120 | a single part joins to itself |
| Store.EncodeStage | src/db.rs:284-299 | everything goes in the first column and `[]` in the second; decoding gives the stage back |
| Store.DecodeStage | src/db.rs:252-282 | new format gives all three lists; legacy gives two arrays, an unparsable one as empty, and no dropped files |
| Store.GetContextStage | src/db.rs:252-282 | a stage without a row is an error naming it |
| Store.AddFileEffect | src/db.rs:301-330 | the path is in the target list only, not dropped, once when it was at most once; every other entry keeps its order |
| Store.AddFileIdempotent | src/db.rs:317-325 | adding a path twice equals adding it once |
| Store.RemoveFileEffect | src/db.rs:368-382 | the path leaves both lists and is dropped once; others unchanged; an absent path leaves both lists as they were |
| Store.Find | src/db.rs:217-220 | the message with that id, or none when no message has it |
| Store.ParentId | src/db.rs:342-350 | an unknown id and a root both give none; otherwise the parent column |
| Store.MetadataOf | src/db.rs:332-340 | an unknown id gives none; otherwise the metadata column |
| Store.History | src/db.rs:113-142 | the ancestor chain, in ascending `(created_at, id)` order, as a permutation |
| Store.HistoryUnknown | src/db.rs:113-126 | an unknown id has an empty history |
| Store.ChainToRoot | src/db.rs:116-124 | in a store with dense ids whose every parent id names an earlier message, the chain starts at the message and each link names the next as parent, down to a root |
| Store.LeafRowsExact | src/db.rs:86-95 | the rows are exactly the leaves; a row's tag is bound to its message; a leaf with a bound tag has a row for each and no untagged row |
| Store.LeafRowsOnce | src/db.rs:86-95 | with the ids `add_message` hands out, each tagged row and each untagged leaf's row occurs exactly once |
| Store.ExpandOrdered | src/db.rs:89-93 | rows of messages in descending order are in descending order |
| Store.LeafRowsNewestFirst | src/db.rs:89-93 | the leaf rows are newest first by `(created_at, id)` |
| Store.AddChildReplacesLeaf | src/db.rs:86-95 | a new child of a leaf replaces it in the leaf set |
| Store.TagTarget | src/db.rs:158-166 | the message a tag names, or none when the tag is unbound |
| Store.AllTags | src/db.rs:184-197 | every binding once, sorted by name |
| Store.Database.constructor | src/db.rs:16-65 | a new database is empty, with the `default` stage of two empty arrays |
| Store.Database.AddMessage | src/db.rs:144-156 | the new row is appended with the next id |
| Store.Database.SetChatTag | src/db.rs:168-174 | the binding is inserted or overwritten |
| Store.Database.DeleteChatTag | src/db.rs:176-182 | returns the previous target and removes the binding |
| Store.Database.UpdateContextStage | src/db.rs:284-299 | the row of that name is rewritten in the new format; no row, no change |
| Store.Database.AddFileToStage | src/db.rs:301-330 | read, edit, write back; an unknown stage is an error and changes nothing |
| Store.Database.RemoveFileFromStage | src/db.rs:368-382 | read, edit, write back; an unknown stage is an error and changes nothing |
| Store.Database.ClearContextStage | src/db.rs:360-366 | the stage then reads back with its name and three empty lists |
| Turn.TagSet | src/lib.rs:45-65 | an unknown message is refused; otherwise the tag ends up on the id, with the outcome already, moved or new |
| Turn.TagSetRepeat | src/lib.rs:45-65 | repeating a successful tag set reports that the tag is already there |
| Turn.ParseI64 | src/lib.rs:248 | in range when parsed; empty text, a bare sign, a non-digit anywhere after an optional sign, and an out-of-range value fail; unsigned, `+` and `-` digits give their value |
| Turn.ParseShow | src/lib.rs:248 | a printed id parses back to itself |
| Turn.HistoryTarget | src/lib.rs:228-255 | each argument combination's target and each one's error |
| Turn.ChooseParent | src/lib.rs:278-296 | `--new`: no parent, no tag; `--parent`: that id, no tag; `--chat` or else the active tag: its target, and that tag is moved |
| Turn.ContinueChat | src/lib.rs:483-492 | once the tag sits on the answer, continuing that chat answers the answer |
| Turn.Inherited | src/lib.rs:300-315 | no parent, the ignore flag, no grandparent, or missing or empty metadata give no files; malformed metadata on the parent's parent is an error, exactly then; encoded metadata is inherited as it is |
| Turn.NextTurnInherits | src/lib.rs:300-315 | the next turn inherits the files recorded with the question just answered |
| Turn.MergedFlags | src/lib.rs:321-333 | keys are the four lists; prepared beats inherited; read-only beats read-write within one source |
| Turn.InsertAll | src/lib.rs:321-333 | the loop inserts every path with the flag, keeping the rest |
| Turn.MergeContexts | src/lib.rs:321-333 | the four insert loops build that merge |
| Turn.DroppedStillSent | src/lib.rs:321-333 | a dropped path that is otherwise in context is still sent; the dropped list changes nothing |
| Turn.SortedKeys | src/lib.rs:340-341 | the keys, ascending |
| Turn.Select | src/lib.rs:368-380 | exactly the paths with the given flag |
| Turn.SelectAscending | src/lib.rs:368-380 | the selection of ascending paths is ascending |
| Turn.PartitionExact | src/lib.rs:368-380 | each path lands in exactly one of the two outputs, both ascending |
| Turn.Partition | src/lib.rs:371-380 | the loop computes both selections |
| Turn.FirstMissing | src/lib.rs:343-345 | the index of the first unreadable path, every earlier one readable |
| Turn.LoadedOf | src/lib.rs:343-362 | the loop's records up to a readable point: one entry per path |
| Turn.LoadFiles | src/lib.rs:343-362 | an unreadable path fails naming the first; otherwise the prompt entries and hashed records of each visibility |
| Turn.MergedPaths | src/lib.rs:340-341 | ascending, exactly the paths in context |
| Turn.ContextMetadataOk | src/lib.rs:343-345 | the files load exactly when every merged path can be read |
| Turn.ContextMetadataFails | src/lib.rs:343-345 | a failure names a merged path that cannot be read |
| Turn.ContextMetadataFiles | src/lib.rs:335-362 | the records are ascending, split by flag, each with its file's hash |
| Turn.RecordQuestion | src/lib.rs:298-404 | nothing is recorded on failure; otherwise the user message with its files is appended |
| Turn.FinishTurn | src/lib.rs:468-492 | hooks run first; only on success are the stage cleared, the answer appended and the tag moved |
| Turn.Send | src/lib.rs:266-493 | the whole send: question first, then the hook, then clear, answer and tag move, each step only after the one before succeeds |
| Turn.LastUserContent | src/lib.rs:170 | the content of the last user message, or none when there is none |
| Turn.Preview | src/lib.rs:170-177 | at most 70 characters of that content, else of the leaf's, with newlines shown as spaces |
| Markdown.HeaderRole | src/prompt.rs:115-117 | a header opens only a lowercase role |
| Markdown.HeaderAssistant | src/prompt.rs:115-117 | `##  ASSISTANT ` opens an assistant message |
| Markdown.SplitChatHistoryMarkdown | src/prompt.rs:108-147 | the loop computes the fold of the splitter over the lines |
| Markdown.SplitWellFormed | src/prompt.rs:117-143 | every message has a role word and non-empty trimmed content |
| Markdown.NoHeaderNoMessages | src/prompt.rs:138-146 | text with no role header gives no messages |
| Markdown.PreambleDiscarded | src/prompt.rs:119-127 | lines before the first header are discarded |
| Markdown.CurrentSection | src/prompt.rs:114-136 | the buffer is the lines after the last header, and the role is that header's |
| Markdown.LastMessage | src/prompt.rs:138-144 | the last section is kept when its trimmed content is not empty |
| Markdown.Example | src/prompt.rs:114-135 | a preamble is dropped, a `## Notes` line stays content, and a spaced upper-case header opens a message |
| Markdown.RolesInOrder | src/prompt.rs:117-144 | the output roles are a subsequence of the header roles, so there are never more messages than headers |
| Order.BelowTransitive | src/lib.rs:341 | the string order is transitive |
| Order.BelowTotal | src/lib.rs:341 | of two different strings one is below the other |
| Order.Least | src/db.rs:184-197 | the least element of a non-empty set |
| Order.SortedSet | src/db.rs:184-197 | a set listed ascending, each element once |

## Left out

- I/O becomes parameters:
  - The file system is a map from path to content. A path that is not in the map cannot be read.
  - The SHA-256 hash is a function parameter.
  - The clock's `created_at` value is passed in.
  - The exit statuses of `git add` and `git commit` are passed in.
  - The model's reply, or its failure, is passed in.
- Canonicalisation is a parameter `canonical` that maps a change's path to its canonical form or none. `current_dir`, `create_dir_all` and any canonicalisation error are inside that oracle. A failed write is not modelled.
- SQL itself is replaced by in-memory state. The DDL, engine errors, foreign keys and the `create_dir_all` of `setup` are left out. Only the default stage row and the `default` profile's two columns are kept. `created_at` is the clock's value in seconds, so ties are broken by id.
- serde JSON is an abstract datatype. A stage column is an object with three lists, an array of strings, or anything else. A metadata column is empty, a decodable record, or malformed.
- These commands are printing only and are not modelled: `stage` with no file (it prints the inherited and prepared views), `profile` (its `set_active_chat_tag` and `set_project_root`), and the `tag list` and `history` output format. Streaming, the CLI parser and configuration loading are left out too.
- `prompt::build_prompt_messages` and the system-prompt split: `build_prompt_messages` is not part of this model, and the template build is I/O. Hooks other than the patch hook are not modelled.
- `str::trim` and `to_lowercase` are ASCII-only here. `chars().take(70)` counts code points, and so does the model, over `char`.
- Store.ChainToRoot: holds only when every parent id names an earlier message. `add_message` does not check this, and `send --parent` passes the id through unchecked (`src/lib.rs:283-285`). With a later or unknown parent id, the chain stops at a message that is not a root.
- The file system map is keyed by the path text as written. `a.txt`, `./a.txt` and an absolute path to the same file are three different keys here, while `fs::read_to_string` and `fs::write` treat them as one file. So two changes naming one file by different spellings do not see each other's writes in the model (`Patch.NewContent`, `Patch.WorkTree.Rewrite`, `Turn.LoadFiles`).
- Store.History: walks at most as many parent links as there are messages. The recursive query does not stop on a parent cycle, and only a hand-chosen `--parent` could create one.
- Store.LeafRowsExact: a leaf bound to several tags yields its rows by tag name. The SQL leaves the order of those rows open.
- Patch.StripFences: the contract gives only the length bound and leaves backtick-free text unchanged. The function itself models the regex `(?s)```[a-zA-Z]*\n?.*?\n?``` ` as a scanner: it takes the leftmost triple backtick, finds the first triple backtick at least three characters later, removes everything through it, and repeats.
- Text.Join: the contract states only the one-part case; the joined text is the definition.
- Markdown.HeaderRole: the contract states only that a header yields a role word; the exact condition is in `Markdown.Example` and the definition.
