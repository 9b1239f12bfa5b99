/**
  The conversation store: a tree of messages linked by parent ids, named tags
  pointing at messages, and the per-name context stage (the files prepared
  for the next message). The SQL tables become in-memory values; JSON text
  is replaced by what decoding it yields.
 */
module Store {

  import opened Wrappers
  import opened Order

  // ===========================================================================
  // Values
  // ===========================================================================

  datatype FileMetadata = FileMetadata(path: string, hash: string)

  /** The files that went into a user message, recorded with it. */
  datatype MessageMetadata = MessageMetadata(readWrite: seq<FileMetadata>, readOnly: seq<FileMetadata>)

  /** A message's metadata column: empty text, a decodable record, or anything else. */
  datatype MetaText = EmptyText | Encoded(meta: MessageMetadata) | Malformed

  datatype Message = Message(
    id: int,
    parentId: Option<int>,
    role: string,
    content: string,
    metadata: Option<MetaText>,
    createdAt: int)

  /** The three file lists of a stage, as stored in the new row format. */
  datatype PreparedContext = PreparedContext(readWrite: seq<string>, readOnly: seq<string>, dropped: seq<string>)

  datatype ContextStage = ContextStage(name: string, readWrite: seq<string>, readOnly: seq<string>, dropped: seq<string>)

  /** A stage column's text: an object with all three lists, an array of strings, or anything else. */
  datatype ColumnText = ObjectText(prepared: PreparedContext) | ArrayText(items: seq<string>) | OtherText

  /** A `context_stages` row: its `read_write_files` and `read_only_files` columns. */
  datatype StageRow = StageRow(first: ColumnText, second: ColumnText)

  datatype StoreError = NoSuchStage(name: string)

  // ===========================================================================
  // Stage rows: encode and decode
  // ===========================================================================

  /** `update_context_stage`: everything into the first column, `[]` into the second. */
  function EncodeStage(stage: ContextStage): (row: StageRow)
    ensures DecodeStage(stage.name, row) == stage
    ensures row.second == ArrayText([])
  {
    StageRow(ObjectText(PreparedContext(stage.readWrite, stage.readOnly, stage.dropped)), ArrayText([]))
  }

  /**
    The row decoding of `get_context_stage`: the new object format if the
    first column holds one; otherwise the legacy format, two string arrays,
    either of which decodes to empty when it is not one, and no dropped files.
   */
  function DecodeStage(name: string, row: StageRow): (stage: ContextStage)
    ensures stage.name == name
    ensures row.first.ObjectText? ==>
      stage.readWrite == row.first.prepared.readWrite && stage.readOnly == row.first.prepared.readOnly &&
      stage.dropped == row.first.prepared.dropped
    ensures !row.first.ObjectText? ==> stage.dropped == []
    ensures !row.first.ObjectText? ==>
      stage.readWrite == (if row.first.ArrayText? then row.first.items else []) &&
      stage.readOnly == (if row.second.ArrayText? then row.second.items else [])
  {
    var readOnly := match row.second case ArrayText(items) => items case _ => [];
    match row.first
    case ObjectText(p) => ContextStage(name, p.readWrite, p.readOnly, p.dropped)
    case ArrayText(items) => ContextStage(name, items, readOnly, [])
    case OtherText => ContextStage(name, [], readOnly, [])
  }

  /** `get_context_stage`: a stage that has no row is an error. */
  function GetContextStage(stages: map<string, StageRow>, name: string): (r: Result<ContextStage, StoreError>)
    ensures name !in stages <==> r == Err(NoSuchStage(name))
    ensures r.Ok? ==> r.value.name == name
  {
    if name in stages then Ok(DecodeStage(name, stages[name])) else Err(NoSuchStage(name))
  }

  // ===========================================================================
  // Stage edits
  // ===========================================================================

  /** `retain(|f| f != x)`: drop every copy of `x`, keep the rest in order. */
  function Without(s: seq<string>, x: string): (r: seq<string>)
    ensures x !in r
    ensures forall y :: y != x ==> (y in r <==> y in s)
    ensures |r| <= |s|
  {
    if s == [] then []
    else (if s[0] == x then [] else [s[0]]) + Without(s[1..], x)
  }

  /** Push `x` unless it is already there. */
  function PushAbsent(s: seq<string>, x: string): (r: seq<string>)
    ensures x in r
    ensures forall y :: y in r <==> y in s || y == x
  {
    if x in s then s else s + [x]
  }

  /**
    `add_file_to_stage`: not dropped any more, out of the other list, into
    the requested list unless already there.
   */
  function AddFile(stage: ContextStage, path: string, readOnly: bool): ContextStage {
    var dropped := Without(stage.dropped, path);
    if readOnly then stage.(dropped := dropped, readWrite := Without(stage.readWrite, path), readOnly := PushAbsent(stage.readOnly, path))
    else stage.(dropped := dropped, readOnly := Without(stage.readOnly, path), readWrite := PushAbsent(stage.readWrite, path))
  }

  /** `remove_file_from_stage`: out of both lists, into the dropped list unless already there. */
  function RemoveFile(stage: ContextStage, path: string): ContextStage {
    stage.(readWrite := Without(stage.readWrite, path), readOnly := Without(stage.readOnly, path),
           dropped := PushAbsent(stage.dropped, path))
  }

  /** `clear_context_stage`: the name kept, all three lists empty. */
  function Cleared(name: string): ContextStage {
    ContextStage(name, [], [], [])
  }

  lemma {:induction false} WithoutAbsent(s: seq<string>, x: string)
    requires x !in s
    ensures Without(s, x) == s
  {
    if s != [] {
      assert s[0] != x;
      WithoutAbsent(s[1..], x);
      assert s == [s[0]] + s[1..];
    }
  }

  lemma {:induction false} WithoutAppend(s: seq<string>, t: seq<string>, x: string)
    ensures Without(s + t, x) == Without(s, x) + Without(t, x)
  {
    if s != [] {
      assert (s + t)[1..] == s[1..] + t;
      WithoutAppend(s[1..], t, x);
    } else {
      assert s + t == t;
    }
  }

  /** Number of copies of `x`. */
  function Count(s: seq<string>, x: string): nat {
    multiset(s)[x]
  }

  /**
    What adding a path to the stage does: the path is not dropped and is in
    the requested list only, exactly once if it was there at most once; every
    other entry of every list keeps its place.
   */
  lemma AddFileEffect(stage: ContextStage, path: string, readOnly: bool)
    ensures var r := AddFile(stage, path, readOnly);
      r.name == stage.name && path !in r.dropped &&
      (readOnly ==> path in r.readOnly && path !in r.readWrite) &&
      (!readOnly ==> path in r.readWrite && path !in r.readOnly) &&
      Without(r.readWrite, path) == Without(stage.readWrite, path) &&
      Without(r.readOnly, path) == Without(stage.readOnly, path) &&
      Without(r.dropped, path) == Without(stage.dropped, path)
    ensures var r := AddFile(stage, path, readOnly);
      (readOnly && Count(stage.readOnly, path) <= 1 ==> Count(r.readOnly, path) == 1) &&
      (!readOnly && Count(stage.readWrite, path) <= 1 ==> Count(r.readWrite, path) == 1)
  {
    var r := AddFile(stage, path, readOnly);
    WithoutTwice(stage.dropped, path);
    if readOnly {
      WithoutTwice(stage.readWrite, path);
      PushAbsentWithout(stage.readOnly, path);
    } else {
      WithoutTwice(stage.readOnly, path);
      PushAbsentWithout(stage.readWrite, path);
    }
  }

  lemma WithoutTwice(s: seq<string>, x: string)
    ensures Without(Without(s, x), x) == Without(s, x)
  {
    WithoutAbsent(Without(s, x), x);
  }

  lemma PushAbsentWithout(s: seq<string>, x: string)
    ensures Without(PushAbsent(s, x), x) == Without(s, x)
    ensures Count(s, x) <= 1 ==> Count(PushAbsent(s, x), x) == 1
  {
    if x !in s {
      WithoutAppend(s, [x], x);
      assert Without([x], x) == [];
      assert multiset(s + [x]) == multiset(s) + multiset{x};
    }
  }

  /** Adding the same path twice leaves the stage as adding it once. */
  lemma AddFileIdempotent(stage: ContextStage, path: string, readOnly: bool)
    ensures AddFile(AddFile(stage, path, readOnly), path, readOnly) == AddFile(stage, path, readOnly)
  {
    var r := AddFile(stage, path, readOnly);
    WithoutAbsent(r.dropped, path);
    if readOnly {
      WithoutAbsent(r.readWrite, path);
    } else {
      WithoutAbsent(r.readOnly, path);
    }
  }

  /**
    What removing a path does: in neither list, in the dropped list (pushed
    only if absent); every other entry keeps its place, and removing a path
    that is in neither list leaves both lists as they were.
   */
  lemma RemoveFileEffect(stage: ContextStage, path: string)
    ensures var r := RemoveFile(stage, path);
      r.name == stage.name && path !in r.readWrite && path !in r.readOnly && path in r.dropped &&
      Without(r.readWrite, path) == Without(stage.readWrite, path) &&
      Without(r.readOnly, path) == Without(stage.readOnly, path) &&
      Without(r.dropped, path) == Without(stage.dropped, path) &&
      (Count(stage.dropped, path) <= 1 ==> Count(r.dropped, path) == 1)
    ensures path !in stage.readWrite && path !in stage.readOnly ==>
      RemoveFile(stage, path).readWrite == stage.readWrite && RemoveFile(stage, path).readOnly == stage.readOnly
  {
    WithoutTwice(stage.readWrite, path);
    WithoutTwice(stage.readOnly, path);
    PushAbsentWithout(stage.dropped, path);
    if path !in stage.readWrite && path !in stage.readOnly {
      WithoutAbsent(stage.readWrite, path);
      WithoutAbsent(stage.readOnly, path);
    }
  }

  // ===========================================================================
  // Messages
  // ===========================================================================

  /** The message with id `id`, if there is one. */
  function Find(ms: seq<Message>, id: int): (r: Option<Message>)
    ensures r.Some? ==> r.value in ms && r.value.id == id
    ensures r.None? ==> forall m :: m in ms ==> m.id != id
  {
    if ms == [] then None
    else if ms[0].id == id then Some(ms[0])
    else Find(ms[1..], id)
  }

  /** Row `i` holds id `i + 1`: the ids `add_message` hands out. */
  predicate DenseIds(ms: seq<Message>) {
    forall i :: 0 <= i < |ms| ==> ms[i].id == i + 1
  }

  lemma {:induction false} FindDense(ms: seq<Message>, id: int)
    requires DenseIds(ms)
    ensures 1 <= id <= |ms| ==> Find(ms, id) == Some(ms[id - 1])
    ensures !(1 <= id <= |ms|) ==> Find(ms, id).None?
  {
    if ms != [] {
      var t := ms[1..];
      if ms[0].id != id {
        assert forall m :: m in t ==> m.id != 1 by {
          forall m | m in t
            ensures m.id != 1
          {
            var i :| 0 <= i < |t| && t[i] == m;
            assert ms[i + 1] == m;
          }
        }
        if 2 <= id <= |ms| {
          var m := ms[id - 1];
          assert Find(t, id).Some? by {
            assert t[id - 2] == m;
          }
          FindFirst(t, id - 2);
        }
      }
    }
  }

  /** With unique ids, the message found is the one at that id's index. */
  lemma FindFirst(ms: seq<Message>, i: nat)
    requires i < |ms|
    requires forall j :: 0 <= j < |ms| ==> ms[j].id == ms[0].id + j
    ensures Find(ms, ms[i].id) == Some(ms[i])
    decreases i
  {
    if i > 0 {
      assert ms[0].id != ms[i].id;
      FindFirst(ms[1..], i - 1);
    }
  }

  /** `message_exists`. */
  predicate MessageExists(ms: seq<Message>, id: int) {
    Find(ms, id).Some?
  }

  /** `get_parent_id`: `None` both for a root and for an unknown id. */
  function ParentId(ms: seq<Message>, id: int): (r: Option<int>)
    ensures Find(ms, id).None? ==> r.None?
    ensures Find(ms, id).Some? ==> r == Find(ms, id).value.parentId
  {
    match Find(ms, id)
    case None => None
    case Some(m) => m.parentId
  }

  /** `get_message_metadata`: `None` both for no metadata and for an unknown id. */
  function MetadataOf(ms: seq<Message>, id: int): (r: Option<MetaText>)
    ensures Find(ms, id).None? ==> r.None?
    ensures Find(ms, id).Some? ==> r == Find(ms, id).value.metadata
  {
    match Find(ms, id)
    case None => None
    case Some(m) => m.metadata
  }

  // ---------------------------------------------------------------------------
  // The ancestor chain and `get_conversation_history`
  // ---------------------------------------------------------------------------

  /**
    The message `id`, its parent, its parent's parent, and so on, following
    at most `fuel` links; the walk stops at a root or at a parent id with no
    message.
   */
  function Ancestors(ms: seq<Message>, id: int, fuel: nat): seq<Message>
    decreases fuel
  {
    if fuel == 0 then []
    else
      match Find(ms, id)
      case None => []
      case Some(m) =>
        [m] + match m.parentId
          case None => []
          case Some(p) => Ancestors(ms, p, fuel - 1)
  }

  /** The key of `ORDER BY created_at, id`. */
  predicate KeyLe(a: Message, b: Message) {
    a.createdAt < b.createdAt || (a.createdAt == b.createdAt && a.id <= b.id)
  }

  predicate SortedAsc(s: seq<Message>) {
    forall i, j :: 0 <= i < j < |s| ==> KeyLe(s[i], s[j])
  }

  function Insert(x: Message, s: seq<Message>): (r: seq<Message>)
    requires SortedAsc(s)
    ensures SortedAsc(r)
    ensures multiset(r) == multiset(s) + multiset{x}
  {
    if s == [] then [x]
    else if KeyLe(x, s[0]) then [x] + s
    else
      var rest := Insert(x, s[1..]);
      assert s == [s[0]] + s[1..];
      InsertAbove(x, s, rest);
      [s[0]] + rest
  }

  /** Every element of `rest` (the tail with `x` inserted) is at or above `s[0]`. */
  lemma InsertAbove(x: Message, s: seq<Message>, rest: seq<Message>)
    requires s != [] && SortedAsc(s) && !KeyLe(x, s[0])
    requires SortedAsc(rest) && multiset(rest) == multiset(s[1..]) + multiset{x}
    ensures SortedAsc([s[0]] + rest)
  {
    forall j | 0 <= j < |rest|
      ensures KeyLe(s[0], rest[j])
    {
      assert rest[j] in multiset(rest);
      if rest[j] != x {
        assert rest[j] in multiset(s[1..]);
        var k :| 0 <= k < |s[1..]| && s[1..][k] == rest[j];
        assert s[k + 1] == rest[j];
      }
    }
    var r := [s[0]] + rest;
    forall i, j | 0 <= i < j < |r|
      ensures KeyLe(r[i], r[j])
    {
      if i == 0 {
        assert r[j] == rest[j - 1];
      } else {
        assert r[i] == rest[i - 1] && r[j] == rest[j - 1];
      }
    }
  }

  /** Messages in ascending `(created_at, id)` order. */
  function SortAsc(s: seq<Message>): (r: seq<Message>)
    ensures SortedAsc(r)
    ensures multiset(r) == multiset(s)
  {
    if s == [] then []
    else
      assert s == [s[0]] + s[1..];
      Insert(s[0], SortAsc(s[1..]))
  }

  /** `get_conversation_history`: the ancestor chain, oldest first. */
  function History(ms: seq<Message>, id: int): (r: seq<Message>)
    ensures SortedAsc(r)
    ensures multiset(r) == multiset(Ancestors(ms, id, |ms|))
  {
    SortAsc(Ancestors(ms, id, |ms|))
  }

  /** An unknown id has no history. */
  lemma HistoryUnknown(ms: seq<Message>, id: int)
    requires !MessageExists(ms, id)
    ensures History(ms, id) == []
  {
    assert Ancestors(ms, id, |ms|) == [];
  }

  /** Every parent id names an earlier message. */
  predicate ParentsEarlier(ms: seq<Message>) {
    forall i :: 0 <= i < |ms| && ms[i].parentId.Some? ==> 1 <= ms[i].parentId.value < ms[i].id
  }

  /** Each message of `c` names the next one as its parent, and the last is a root. */
  predicate LinksToRoot(c: seq<Message>)
    decreases |c|
  {
    c != [] &&
    if |c| == 1 then c[0].parentId.None?
    else c[0].parentId == Some(c[1].id) && LinksToRoot(c[1..])
  }

  /** A message whose parent heads a chain to the root extends that chain. */
  lemma LinksCons(m: Message, rest: seq<Message>)
    requires LinksToRoot(rest) && m.parentId == Some(rest[0].id)
    ensures LinksToRoot([m] + rest)
  {
    assert ([m] + rest)[1..] == rest;
  }

  /** The same, pointwise. */
  lemma {:induction false} LinksToRootPointwise(c: seq<Message>)
    requires LinksToRoot(c)
    ensures forall k :: 0 <= k < |c| - 1 ==> c[k].parentId == Some(c[k + 1].id)
    ensures c[|c| - 1].parentId.None?
    decreases |c|
  {
    if |c| > 1 {
      LinksToRootPointwise(c[1..]);
      forall k | 0 <= k < |c| - 1
        ensures c[k].parentId == Some(c[k + 1].id)
      {
        if k > 0 {
          assert c[k] == c[1..][k - 1] && c[k + 1] == c[1..][k];
        }
      }
    }
  }

  /** One step of the chain, in a store whose ids are dense. */
  lemma AncestorsDense(ms: seq<Message>, id: int, fuel: nat)
    requires DenseIds(ms) && 1 <= id <= |ms| && fuel > 0
    ensures ms[id - 1].parentId.None? ==> Ancestors(ms, id, fuel) == [ms[id - 1]]
    ensures ms[id - 1].parentId.Some? ==>
      Ancestors(ms, id, fuel) == [ms[id - 1]] + Ancestors(ms, ms[id - 1].parentId.value, fuel - 1)
  {
    FindDense(ms, id);
  }

  /**
    In a store whose ids are dense and whose parents come before their
    children, the chain of a message starts at it, links each message to its
    parent, and ends at a root.
   */
  lemma {:induction false} ChainToRoot(ms: seq<Message>, id: int, fuel: nat)
    requires DenseIds(ms) && ParentsEarlier(ms)
    requires 1 <= id <= |ms| && id <= fuel
    ensures LinksToRoot(Ancestors(ms, id, fuel))
    ensures Ancestors(ms, id, fuel)[0] == ms[id - 1]
    decreases fuel
  {
    AncestorsDense(ms, id, fuel);
    var m := ms[id - 1];
    var c := Ancestors(ms, id, fuel);
    if m.parentId.Some? {
      var p := m.parentId.value;
      assert m.id == id && 1 <= p < id;
      ChainToRoot(ms, p, fuel - 1);
      var rest := Ancestors(ms, p, fuel - 1);
      LinksCons(m, rest);
    } else {
      assert c == [m];
    }
  }

  // ---------------------------------------------------------------------------
  // Leaves: `get_leaf_messages`
  // ---------------------------------------------------------------------------

  /** No message names `id` as its parent. */
  predicate IsLeaf(ms: seq<Message>, id: int) {
    forall m :: m in ms ==> m.parentId != Some(id)
  }

  /** The messages of `s` that are leaves of `ms`, in order. */
  function LeavesAmong(ms: seq<Message>, s: seq<Message>): (r: seq<Message>)
    ensures forall m :: m in r <==> m in s && IsLeaf(ms, m.id)
  {
    if s == [] then []
    else (if IsLeaf(ms, s[0].id) then [s[0]] else []) + LeavesAmong(ms, s[1..])
  }

  function Reverse(s: seq<Message>): (r: seq<Message>)
    ensures |r| == |s|
    ensures forall i :: 0 <= i < |s| ==> r[i] == s[|s| - 1 - i]
  {
    if s == [] then [] else Reverse(s[1..]) + [s[0]]
  }

  /** One row of `get_leaf_messages`. */
  datatype Leaf = Leaf(id: int, createdAt: int, content: string, tag: Option<string>)

  /** The tags bound to `id`, by name. */
  ghost function TagsOf(tags: map<string, int>, id: int): (r: seq<string>)
    ensures Ascending(r)
    ensures forall t :: t in r <==> t in tags && tags[t] == id
  {
    SortedSet(set t | t in tags && tags[t] == id)
  }

  /** The rows of one leaf: one per tag bound to it, or one without a tag. */
  ghost function RowsOf(m: Message, tags: map<string, int>): (r: seq<Leaf>)
    ensures forall row :: row in r ==> row.id == m.id && row.createdAt == m.createdAt && row.content == m.content
    ensures forall t :: t in tags && tags[t] == m.id ==> Leaf(m.id, m.createdAt, m.content, Some(t)) in r
    ensures (forall t :: t in tags ==> tags[t] != m.id) ==> r == [Leaf(m.id, m.createdAt, m.content, None)]
  {
    var ts := TagsOf(tags, m.id);
    if ts == [] then [Leaf(m.id, m.createdAt, m.content, None)]
    else
      var rows := seq(|ts|, i requires 0 <= i < |ts| => Leaf(m.id, m.createdAt, m.content, Some(ts[i])));
      assert forall t :: t in tags && tags[t] == m.id ==> Leaf(m.id, m.createdAt, m.content, Some(t)) in rows by {
        forall t | t in tags && tags[t] == m.id
          ensures Leaf(m.id, m.createdAt, m.content, Some(t)) in rows
        {
          var i :| 0 <= i < |ts| && ts[i] == t;
          assert rows[i] == Leaf(m.id, m.createdAt, m.content, Some(t));
        }
      }
      rows
  }

  ghost function Expand(s: seq<Message>, tags: map<string, int>): seq<Leaf> {
    if s == [] then [] else RowsOf(s[0], tags) + Expand(s[1..], tags)
  }

  /**
    `get_leaf_messages`: the messages nobody names as parent, newest first
    by `(created_at, id)`, each joined with the tags bound to it.
   */
  ghost function LeafRows(ms: seq<Message>, tags: map<string, int>): seq<Leaf> {
    Expand(Reverse(SortAsc(LeavesAmong(ms, ms))), tags)
  }

  lemma {:induction false} ExpandSound(s: seq<Message>, tags: map<string, int>, row: Leaf)
    requires row in Expand(s, tags)
    ensures exists m :: m in s && row.id == m.id && row.createdAt == m.createdAt && row.content == m.content
  {
    assert s != [];
    if row !in RowsOf(s[0], tags) {
      ExpandSound(s[1..], tags, row);
      var m :| m in s[1..] && row.id == m.id && row.createdAt == m.createdAt && row.content == m.content;
      assert m in s;
    }
  }

  lemma {:induction false} ExpandCovers(s: seq<Message>, tags: map<string, int>, m: Message)
    requires m in s
    ensures exists row :: row in Expand(s, tags) && row.id == m.id
  {
    if m == s[0] {
      var head := RowsOf(s[0], tags);
      assert head != [] && head[0] in head;
      assert head[0] in Expand(s, tags);
    } else {
      assert m in s[1..];
      ExpandCovers(s[1..], tags, m);
      var row :| row in Expand(s[1..], tags) && row.id == m.id;
      assert row in Expand(s, tags);
    }
  }

  lemma {:induction false} ExpandTagged(s: seq<Message>, tags: map<string, int>, m: Message, t: string)
    requires m in s && t in tags && tags[t] == m.id
    ensures Leaf(m.id, m.createdAt, m.content, Some(t)) in Expand(s, tags)
  {
    if m != s[0] {
      assert m in s[1..];
      ExpandTagged(s[1..], tags, m, t);
    }
  }

  /** The sorted, reversed list of leaves holds exactly the leaves. */
  lemma LeafOrderMembers(ms: seq<Message>)
    ensures forall m :: m in Reverse(SortAsc(LeavesAmong(ms, ms))) <==> m in ms && IsLeaf(ms, m.id)
  {
    var leaves := LeavesAmong(ms, ms);
    SortMembers(leaves);
    ReverseMembers(SortAsc(leaves));
  }

  lemma SortMembers(s: seq<Message>)
    ensures forall m :: m in SortAsc(s) <==> m in s
  {
    var sorted := SortAsc(s);
    assert forall m :: m in sorted <==> m in multiset(sorted);
    assert forall m :: m in s <==> m in multiset(s);
  }

  lemma ReverseMembers(s: seq<Message>)
    ensures forall m :: m in Reverse(s) <==> m in s
  {
    var r := Reverse(s);
    forall m
      ensures m in r <==> m in s
    {
      if m in s {
        var i :| 0 <= i < |s| && s[i] == m;
        assert r[|s| - 1 - i] == m;
      }
      if m in r {
        var i :| 0 <= i < |r| && r[i] == m;
        assert s[|s| - 1 - i] == m;
      }
    }
  }

  /**
    Exactly the leaves are listed: every row is a leaf message, every leaf
    has a row, and a leaf bound to several tags has a row for each.
   */
  lemma LeafRowsExact(ms: seq<Message>, tags: map<string, int>)
    ensures forall row :: row in LeafRows(ms, tags) ==>
      exists m :: m in ms && IsLeaf(ms, m.id) && row.id == m.id && row.content == m.content
    ensures forall row :: row in LeafRows(ms, tags) && row.tag.Some? ==>
      row.tag.value in tags && tags[row.tag.value] == row.id
    ensures forall row :: row in LeafRows(ms, tags) && row.tag.None? ==>
      forall t :: t in tags ==> tags[t] != row.id
    ensures forall m :: m in ms && IsLeaf(ms, m.id) ==> exists row :: row in LeafRows(ms, tags) && row.id == m.id
    ensures forall m, t :: m in ms && IsLeaf(ms, m.id) && t in tags && tags[t] == m.id ==>
      Leaf(m.id, m.createdAt, m.content, Some(t)) in LeafRows(ms, tags)
  {
    var desc := Reverse(SortAsc(LeavesAmong(ms, ms)));
    LeafOrderMembers(ms);
    forall row | row in LeafRows(ms, tags)
      ensures exists m :: m in ms && IsLeaf(ms, m.id) && row.id == m.id && row.content == m.content
    {
      ExpandSound(desc, tags, row);
    }
    forall row | row in LeafRows(ms, tags)
      ensures row.tag.Some? ==> row.tag.value in tags && tags[row.tag.value] == row.id
      ensures row.tag.None? ==> forall t :: t in tags ==> tags[t] != row.id
    {
      var m := ExpandFrom(desc, tags, row);
      RowsOfExact(m, tags);
    }
    forall m | m in ms && IsLeaf(ms, m.id)
      ensures exists row :: row in LeafRows(ms, tags) && row.id == m.id
    {
      ExpandCovers(desc, tags, m);
    }
    forall m, t | m in ms && IsLeaf(ms, m.id) && t in tags && tags[t] == m.id
      ensures Leaf(m.id, m.createdAt, m.content, Some(t)) in LeafRows(ms, tags)
    {
      ExpandTagged(desc, tags, m, t);
    }
  }

  /** The message of `s` whose rows hold `row`. */
  lemma {:induction false} ExpandFrom(s: seq<Message>, tags: map<string, int>, row: Leaf) returns (m: Message)
    requires row in Expand(s, tags)
    ensures m in s && row in RowsOf(m, tags)
  {
    assert s != [];
    if row in RowsOf(s[0], tags) {
      m := s[0];
    } else {
      m := ExpandFrom(s[1..], tags, row);
    }
  }

  /** The rows of one message name only tags bound to it, lack a tag only when none is, and never repeat. */
  lemma RowsOfExact(m: Message, tags: map<string, int>)
    ensures forall row :: row in RowsOf(m, tags) && row.tag.Some? ==>
      row.tag.value in tags && tags[row.tag.value] == m.id
    ensures forall row :: row in RowsOf(m, tags) && row.tag.None? ==> forall t :: t in tags ==> tags[t] != m.id
    ensures forall i, j :: 0 <= i < j < |RowsOf(m, tags)| ==> RowsOf(m, tags)[i] != RowsOf(m, tags)[j]
  {
    var ts := TagsOf(tags, m.id);
    var r := RowsOf(m, tags);
    if ts != [] {
      assert |r| == |ts| && forall i :: 0 <= i < |r| ==> r[i] == Leaf(m.id, m.createdAt, m.content, Some(ts[i]));
      forall row | row in r
        ensures row.tag.Some? && row.tag.value in tags && tags[row.tag.value] == m.id
      {
        var i :| 0 <= i < |r| && r[i] == row;
        assert ts[i] in ts;
      }
      forall i, j | 0 <= i < j < |r|
        ensures r[i] != r[j]
      {
        BelowIrreflexive(ts[i]);
      }
    }
  }

  /** An element of a sequence without repeats occurs once. */
  lemma {:induction false} DistinctOnce(s: seq<Leaf>, x: Leaf)
    requires forall i, j :: 0 <= i < j < |s| ==> s[i] != s[j]
    requires x in s
    ensures multiset(s)[x] == 1
  {
    assert s == [s[0]] + s[1..];
    assert forall k :: 0 <= k < |s| - 1 ==> s[1..][k] == s[k + 1];
    if s[0] != x {
      DistinctOnce(s[1..], x);
    }
  }

  /** A message of a sequence whose ids do not repeat occurs once. */
  lemma {:induction false} UniqueOnce(s: seq<Message>, m: Message)
    requires forall i, j :: 0 <= i < j < |s| ==> s[i].id != s[j].id
    requires m in s
    ensures multiset(s)[m] == 1
  {
    assert s == [s[0]] + s[1..];
    assert forall k :: 0 <= k < |s| - 1 ==> s[1..][k] == s[k + 1];
    if s[0] != m {
      UniqueOnce(s[1..], m);
    }
  }

  lemma {:induction false} ReverseMultiset(s: seq<Message>)
    ensures multiset(Reverse(s)) == multiset(s)
  {
    if s != [] {
      ReverseMultiset(s[1..]);
      assert s == [s[0]] + s[1..];
    }
  }

  /** Filtering on leaves keeps every copy of a leaf. */
  lemma {:induction false} LeavesAmongCount(ms: seq<Message>, s: seq<Message>, m: Message)
    requires IsLeaf(ms, m.id)
    ensures multiset(LeavesAmong(ms, s))[m] == multiset(s)[m]
  {
    if s != [] {
      LeavesAmongCount(ms, s[1..], m);
      assert s == [s[0]] + s[1..];
    }
  }

  /** A row of `m` occurs as often as `m` does, when no other message of `s` shares its id. */
  lemma {:induction false} ExpandCount(s: seq<Message>, tags: map<string, int>, m: Message, row: Leaf)
    requires row in RowsOf(m, tags)
    requires forall x :: x in s && x.id == m.id ==> x == m
    ensures multiset(Expand(s, tags))[row] == multiset(s)[m]
  {
    if s != [] {
      assert s == [s[0]] + s[1..];
      assert multiset(Expand(s, tags)) == multiset(RowsOf(s[0], tags)) + multiset(Expand(s[1..], tags));
      assert multiset(s) == multiset{s[0]} + multiset(s[1..]);
      ExpandCount(s[1..], tags, m, row);
      RowCount(s[0], tags, m, row);
    }
  }

  /** The rows of `x` hold `row` of `m` once when `x` is `m`, and not at all otherwise. */
  lemma RowCount(x: Message, tags: map<string, int>, m: Message, row: Leaf)
    requires row in RowsOf(m, tags)
    requires x.id == m.id ==> x == m
    ensures multiset(RowsOf(x, tags))[row] == if x == m then 1 else 0
  {
    if x == m {
      RowsOfExact(m, tags);
      DistinctOnce(RowsOf(m, tags), row);
    } else {
      assert row !in RowsOf(x, tags);
    }
  }

  /** One leaf row, in a store whose ids are dense, occurs once in the listing. */
  lemma LeafRowOnce(ms: seq<Message>, tags: map<string, int>, m: Message, row: Leaf)
    requires DenseIds(ms) && m in ms && IsLeaf(ms, m.id) && row in RowsOf(m, tags)
    ensures multiset(LeafRows(ms, tags))[row] == 1
  {
    var leaves := LeavesAmong(ms, ms);
    var desc := Reverse(SortAsc(leaves));
    LeafOrderMembers(ms);
    forall x | x in desc && x.id == m.id
      ensures x == m
    {
      var i :| 0 <= i < |ms| && ms[i] == x;
      var j :| 0 <= j < |ms| && ms[j] == m;
    }
    ExpandCount(desc, tags, m, row);
    ReverseMultiset(SortAsc(leaves));
    LeavesAmongCount(ms, ms, m);
    UniqueOnce(ms, m);
  }

  /**
    With the ids `add_message` hands out, the left join lists each row once:
    a leaf bound to several tags once per tag, an untagged leaf once without one.
   */
  lemma LeafRowsOnce(ms: seq<Message>, tags: map<string, int>)
    requires DenseIds(ms)
    ensures forall m, t :: m in ms && IsLeaf(ms, m.id) && t in tags && tags[t] == m.id ==>
      multiset(LeafRows(ms, tags))[Leaf(m.id, m.createdAt, m.content, Some(t))] == 1
    ensures forall m :: m in ms && IsLeaf(ms, m.id) && (forall t :: t in tags ==> tags[t] != m.id) ==>
      multiset(LeafRows(ms, tags))[Leaf(m.id, m.createdAt, m.content, None)] == 1
  {
    forall m, t | m in ms && IsLeaf(ms, m.id) && t in tags && tags[t] == m.id
      ensures multiset(LeafRows(ms, tags))[Leaf(m.id, m.createdAt, m.content, Some(t))] == 1
    {
      LeafRowOnce(ms, tags, m, Leaf(m.id, m.createdAt, m.content, Some(t)));
    }
    forall m | m in ms && IsLeaf(ms, m.id) && (forall t :: t in tags ==> tags[t] != m.id)
      ensures multiset(LeafRows(ms, tags))[Leaf(m.id, m.createdAt, m.content, None)] == 1
    {
      assert RowsOf(m, tags)[0] == Leaf(m.id, m.createdAt, m.content, None);
      LeafRowOnce(ms, tags, m, Leaf(m.id, m.createdAt, m.content, None));
    }
  }

  /** The `(created_at, id)` order on rows. */
  predicate RowKeyLe(a: Leaf, b: Leaf) {
    a.createdAt < b.createdAt || (a.createdAt == b.createdAt && a.id <= b.id)
  }

  predicate RowsDescending(rows: seq<Leaf>) {
    forall i, j :: 0 <= i < j < |rows| ==> RowKeyLe(rows[j], rows[i])
  }

  lemma {:induction false} ExpandOrdered(s: seq<Message>, tags: map<string, int>)
    requires forall i, j :: 0 <= i < j < |s| ==> KeyLe(s[j], s[i])
    ensures RowsDescending(Expand(s, tags))
  {
    if s != [] {
      ExpandOrdered(s[1..], tags);
      HeadAboveRest(s, tags);
      ConcatDescending(RowsOf(s[0], tags), Expand(s[1..], tags));
    }
  }

  /** Two descending runs, the first above the second, make one descending run. */
  lemma ConcatDescending(head: seq<Leaf>, rest: seq<Leaf>)
    requires RowsDescending(head) && RowsDescending(rest)
    requires forall a, b :: a in head && b in rest ==> RowKeyLe(b, a)
    ensures RowsDescending(head + rest)
  {
    var rows := head + rest;
    forall i, j | 0 <= i < j < |rows|
      ensures RowKeyLe(rows[j], rows[i])
    {
      if j < |head| {
        assert rows[i] == head[i] && rows[j] == head[j];
      } else if i < |head| {
        assert rows[i] == head[i] && head[i] in head;
        assert rows[j] == rest[j - |head|] && rest[j - |head|] in rest;
      } else {
        assert rows[i] == rest[i - |head|] && rows[j] == rest[j - |head|];
      }
    }
  }

  /** The rows of the newest message are all at least as new as the rows of the others. */
  lemma HeadAboveRest(s: seq<Message>, tags: map<string, int>)
    requires s != []
    requires forall i, j :: 0 <= i < j < |s| ==> KeyLe(s[j], s[i])
    ensures RowsDescending(RowsOf(s[0], tags))
    ensures forall a, b :: a in RowsOf(s[0], tags) && b in Expand(s[1..], tags) ==> RowKeyLe(b, a)
  {
    var head := RowsOf(s[0], tags);
    forall i, j | 0 <= i < j < |head|
      ensures RowKeyLe(head[j], head[i])
    {
      assert head[i] in head && head[j] in head;
    }
    forall a, b | a in head && b in Expand(s[1..], tags)
      ensures RowKeyLe(b, a)
    {
      ExpandSound(s[1..], tags, b);
      var m :| m in s[1..] && b.id == m.id && b.createdAt == m.createdAt && b.content == m.content;
      var k :| 0 <= k < |s[1..]| && s[1..][k] == m;
      assert s[k + 1] == m;
      assert KeyLe(s[k + 1], s[0]);
    }
  }

  lemma ReverseDescending(s: seq<Message>)
    requires SortedAsc(s)
    ensures var r := Reverse(s);
      forall i, j :: 0 <= i < j < |r| ==> KeyLe(r[j], r[i])
  {
    var r := Reverse(s);
    forall i, j | 0 <= i < j < |r|
      ensures KeyLe(r[j], r[i])
    {
      assert r[j] == s[|s| - 1 - j] && r[i] == s[|s| - 1 - i];
    }
  }

  /** Newest first: the rows come in descending `(created_at, id)` order. */
  lemma LeafRowsNewestFirst(ms: seq<Message>, tags: map<string, int>)
    ensures RowsDescending(LeafRows(ms, tags))
  {
    var sorted := SortAsc(LeavesAmong(ms, ms));
    ReverseDescending(sorted);
    ExpandOrdered(Reverse(sorted), tags);
    assert LeafRows(ms, tags) == Expand(Reverse(sorted), tags);
  }

  /** The ids of the leaves. */
  ghost function LeafIds(ms: seq<Message>): set<int> {
    set m | m in ms && IsLeaf(ms, m.id) :: m.id
  }

  /**
    Answering a leaf replaces it among the leaves by the answer, as long as
    no message already names the answer's fresh id as its parent.
   */
  lemma AddChildReplacesLeaf(ms: seq<Message>, child: Message, p: int)
    requires child.parentId == Some(p)
    requires forall m :: m in ms ==> m.id != child.id && m.parentId != Some(child.id)
    requires exists m :: m in ms && m.id == p
    ensures LeafIds(ms + [child]) == LeafIds(ms) - {p} + {child.id}
  {
    var ms' := ms + [child];
    forall x | x in LeafIds(ms')
      ensures x in LeafIds(ms) - {p} + {child.id}
    {
      var m :| m in ms' && IsLeaf(ms', m.id) && m.id == x;
      if m != child {
        assert m in ms;
        assert child in ms';
        assert x != p;
        assert IsLeaf(ms, m.id) by {
          forall m' | m' in ms
            ensures m'.parentId != Some(m.id)
          {
            assert m' in ms';
          }
        }
      }
    }
    forall x | x in LeafIds(ms) - {p} + {child.id}
      ensures x in LeafIds(ms')
    {
      if x == child.id {
        assert child in ms';
        assert IsLeaf(ms', child.id) by {
          forall m' | m' in ms'
            ensures m'.parentId != Some(child.id)
          {
            if m' != child {
              assert m' in ms;
            }
          }
        }
      } else {
        var m :| m in ms && IsLeaf(ms, m.id) && m.id == x;
        assert m in ms';
        assert IsLeaf(ms', m.id) by {
          forall m' | m' in ms'
            ensures m'.parentId != Some(m.id)
          {
            if m' != child {
              assert m' in ms;
            }
          }
        }
      }
    }
  }

  // ===========================================================================
  // Tags
  // ===========================================================================

  /** `get_message_id_by_tag`. */
  function TagTarget(tags: map<string, int>, tag: string): (r: Option<int>)
    ensures r.Some? <==> tag in tags
    ensures r.Some? ==> r.value == tags[tag]
  {
    if tag in tags then Some(tags[tag]) else None
  }

  datatype Tag = Tag(name: string, messageId: int)

  /** `get_all_tags`: every binding once, by name. */
  ghost function AllTags(tags: map<string, int>): (r: seq<Tag>)
    ensures |r| == |tags.Keys|
    ensures forall i :: 0 <= i < |r| ==> r[i].name in tags && r[i].messageId == tags[r[i].name]
    ensures forall t :: t in tags ==> Tag(t, tags[t]) in r
    ensures forall i, j :: 0 <= i < j < |r| ==> Below(r[i].name, r[j].name)
  {
    TagRows(SortedSet(tags.Keys), tags)
  }

  /** One row per name of `names`, in that order. */
  function TagRows(names: seq<string>, tags: map<string, int>): (r: seq<Tag>)
    requires forall t :: t in names ==> t in tags
    ensures |r| == |names|
    ensures forall i :: 0 <= i < |r| ==> r[i].name == names[i] && r[i].messageId == tags[names[i]]
    ensures forall t :: t in names ==> Tag(t, tags[t]) in r
  {
    var r := seq(|names|, i requires 0 <= i < |names| => Tag(names[i], tags[names[i]]));
    assert forall t :: t in names ==> Tag(t, tags[t]) in r by {
      forall t | t in names
        ensures Tag(t, tags[t]) in r
      {
        var i :| 0 <= i < |names| && names[i] == t;
        assert r[i] == Tag(t, tags[t]);
      }
    }
    r
  }

  // ===========================================================================
  // The database
  // ===========================================================================

  /** The tables, in memory. */
  class Database {
    var messages: seq<Message>
    var tags: map<string, int>
    var activeTag: Option<string>
    var projectRoot: Option<string>
    var stages: map<string, StageRow>

    ghost predicate Valid()
      reads this
    {
      DenseIds(messages)
    }

    /** `setup` on a new file: no messages, no tags, the `default` stage with two empty arrays. */
    constructor ()
      ensures Valid()
      ensures messages == [] && tags == map[] && activeTag == None && projectRoot == None
      ensures stages == map["default" := StageRow(ArrayText([]), ArrayText([]))]
    {
      messages := [];
      tags := map[];
      activeTag := None;
      projectRoot := None;
      stages := map["default" := StageRow(ArrayText([]), ArrayText([]))];
    }

    /** `add_message`: the new row gets the next id; `createdAt` is the clock's reading. */
    method AddMessage(parentId: Option<int>, role: string, content: string, metadata: Option<MetaText>, createdAt: int)
      returns (id: int)
      requires Valid()
      modifies this
      ensures Valid()
      ensures id == |old(messages)| + 1
      ensures messages == old(messages) + [Message(id, parentId, role, content, metadata, createdAt)]
      ensures tags == old(tags) && activeTag == old(activeTag) && projectRoot == old(projectRoot) && stages == old(stages)
    {
      id := |messages| + 1;
      messages := messages + [Message(id, parentId, role, content, metadata, createdAt)];
    }

    /** `set_chat_tag`: insert or overwrite the binding. */
    method SetChatTag(tag: string, id: int)
      modifies this
      ensures tags == old(tags)[tag := id]
      ensures messages == old(messages) && activeTag == old(activeTag) && projectRoot == old(projectRoot) && stages == old(stages)
    {
      tags := tags[tag := id];
    }

    /** `delete_chat_tag`: the previous target, and the binding gone. */
    method DeleteChatTag(tag: string) returns (previous: Option<int>)
      modifies this
      ensures previous == TagTarget(old(tags), tag)
      ensures tags == old(tags) - {tag}
      ensures messages == old(messages) && activeTag == old(activeTag) && projectRoot == old(projectRoot) && stages == old(stages)
    {
      previous := TagTarget(tags, tag);
      if previous.Some? {
        tags := tags - {tag};
      }
    }

    /** `update_context_stage`: rewrite the row of that name in the new format; no row, no change. */
    method UpdateContextStage(stage: ContextStage)
      modifies this
      ensures stages == if stage.name in old(stages) then old(stages)[stage.name := EncodeStage(stage)] else old(stages)
      ensures messages == old(messages) && tags == old(tags) && activeTag == old(activeTag) && projectRoot == old(projectRoot)
    {
      if stage.name in stages {
        stages := stages[stage.name := EncodeStage(stage)];
      }
    }

    /** `add_file_to_stage`: read the stage, edit its lists in place, write it back. */
    method AddFileToStage(name: string, path: string, readOnly: bool) returns (r: Result<(), StoreError>)
      modifies this
      ensures name !in old(stages) ==> r == Err(NoSuchStage(name)) && stages == old(stages)
      ensures name in old(stages) ==> (r == Ok(()) &&
        stages == old(stages)[name := EncodeStage(AddFile(DecodeStage(name, old(stages)[name]), path, readOnly))])
      ensures messages == old(messages) && tags == old(tags) && activeTag == old(activeTag) && projectRoot == old(projectRoot)
    {
      var got := GetContextStage(stages, name);
      if got.Err? {
        return Err(got.error);
      }
      var stage := got.value;
      stage := stage.(dropped := Without(stage.dropped, path));
      if readOnly {
        stage := stage.(readWrite := Without(stage.readWrite, path));
        if path !in stage.readOnly {
          stage := stage.(readOnly := stage.readOnly + [path]);
        }
      } else {
        stage := stage.(readOnly := Without(stage.readOnly, path));
        if path !in stage.readWrite {
          stage := stage.(readWrite := stage.readWrite + [path]);
        }
      }
      UpdateContextStage(stage);
      return Ok(());
    }

    /** `remove_file_from_stage`: out of both lists, onto the dropped list, written back. */
    method RemoveFileFromStage(name: string, path: string) returns (r: Result<(), StoreError>)
      modifies this
      ensures name !in old(stages) ==> r == Err(NoSuchStage(name)) && stages == old(stages)
      ensures name in old(stages) ==> (r == Ok(()) &&
        stages == old(stages)[name := EncodeStage(RemoveFile(DecodeStage(name, old(stages)[name]), path))])
      ensures messages == old(messages) && tags == old(tags) && activeTag == old(activeTag) && projectRoot == old(projectRoot)
    {
      var got := GetContextStage(stages, name);
      if got.Err? {
        return Err(got.error);
      }
      var stage := got.value;
      stage := stage.(readWrite := Without(stage.readWrite, path), readOnly := Without(stage.readOnly, path));
      if path !in stage.dropped {
        stage := stage.(dropped := stage.dropped + [path]);
      }
      UpdateContextStage(stage);
      return Ok(());
    }

    /** `clear_context_stage`: the stage then reads back with its name kept and all three lists empty. */
    method ClearContextStage(name: string)
      modifies this
      ensures stages == if name in old(stages) then old(stages)[name := EncodeStage(Cleared(name))] else old(stages)
      ensures name in old(stages) ==> GetContextStage(stages, name) == Ok(ContextStage(name, [], [], []))
      ensures messages == old(messages) && tags == old(tags) && activeTag == old(activeTag) && projectRoot == old(projectRoot)
    {
      UpdateContextStage(Cleared(name));
    }
  }
}
