/**
  The decisions the command runner makes around the store: which message a
  history or tag command names, which parent and tag a new message gets,
  which files go into it and with what visibility, and the order in which
  one send records the question, runs the patch hook, clears the stage,
  records the answer and moves the chat tag.
 */
module Turn {

  import opened Wrappers
  import opened Order
  import opened Store
  import Patch

  // ===========================================================================
  // `tag set`
  // ===========================================================================

  datatype TagSetOutcome = UnknownMessage | AlreadyPointing | MovedFrom(previous: int) | Created

  /**
    `tag set <tag> <id>`: an unknown message is refused with the tags as
    they were; otherwise the tag ends up on `id`, and the outcome says whether
    it was already there, moved, or new.
   */
  function TagSet(ms: seq<Message>, tags: map<string, int>, tag: string, id: int): (r: (map<string, int>, TagSetOutcome))
    ensures r.1 == UnknownMessage <==> !MessageExists(ms, id)
    ensures r.1 == UnknownMessage ==> r.0 == tags
    ensures r.1 != UnknownMessage ==> r.0 == tags[tag := id]
    ensures r.1 == AlreadyPointing <==> MessageExists(ms, id) && TagTarget(tags, tag) == Some(id)
    ensures r.1 == Created <==> MessageExists(ms, id) && tag !in tags
    ensures r.1.MovedFrom? ==> tag in tags && tags[tag] == r.1.previous && r.1.previous != id
  {
    if !MessageExists(ms, id) then (tags, UnknownMessage)
    else
      match TagTarget(tags, tag)
      case Some(previous) =>
        if previous == id then
          assert tags[tag := id] == tags;
          (tags, AlreadyPointing)
        else (tags[tag := id], MovedFrom(previous))
      case None => (tags[tag := id], Created)
  }

  /** Repeating a successful `tag set` changes nothing and reports that the tag is already there. */
  lemma TagSetRepeat(ms: seq<Message>, tags: map<string, int>, tag: string, id: int)
    requires TagSet(ms, tags, tag, id).1 != UnknownMessage
    ensures var once := TagSet(ms, tags, tag, id).0;
      TagSet(ms, once, tag, id) == (once, AlreadyPointing)
  {
    var once := TagSet(ms, tags, tag, id).0;
    assert TagTarget(once, tag) == Some(id);
  }

  // ===========================================================================
  // Integers as the command line spells them
  // ===========================================================================

  const I64Min: int := -0x8000_0000_0000_0000
  const I64Max: int := 0x7FFF_FFFF_FFFF_FFFF

  predicate IsDigit(c: char) {
    '0' <= c <= '9'
  }

  predicate AllDigits(s: string) {
    forall i :: 0 <= i < |s| ==> IsDigit(s[i])
  }

  /** The value of a string of decimal digits. */
  function DigitsValue(s: string): nat
    requires AllDigits(s)
  {
    if s == [] then 0
    else DigitsValue(s[..|s| - 1]) * 10 + (s[|s| - 1] as int - '0' as int)
  }

  /**
    `str::parse::<i64>`: an optional `+` or `-`, then at least one decimal
    digit and nothing else, with a value that fits in 64 signed bits.
   */
  function ParseI64(s: string): (r: Option<int>)
    ensures r.Some? ==> I64Min <= r.value <= I64Max
    ensures s == [] || s == "+" || s == "-" ==> r.None?
    ensures (exists i :: 0 < i < |s| && !IsDigit(s[i])) ==> r.None?
    ensures |s| > 0 && s[0] != '+' && s[0] != '-' && !IsDigit(s[0]) ==> r.None?
    ensures AllDigits(s) && s != [] && DigitsValue(s) <= I64Max ==> r == Some(DigitsValue(s))
    ensures AllDigits(s) && s != [] && DigitsValue(s) > I64Max ==> r.None?
    ensures |s| > 1 && s[0] == '+' && AllDigits(s[1..]) ==>
      r == (if DigitsValue(s[1..]) <= I64Max then Some(DigitsValue(s[1..])) else None)
    ensures |s| > 1 && s[0] == '-' && AllDigits(s[1..]) ==>
      r == (if DigitsValue(s[1..]) <= -I64Min then Some(0 - DigitsValue(s[1..])) else None)
  {
    if s == [] then None
    else
      var signed := s[0] == '+' || s[0] == '-';
      var digits := if signed then s[1..] else s;
      assert forall i :: 0 <= i < |digits| ==> digits[i] == s[i + (if signed then 1 else 0)];
      if digits == [] || !AllDigits(digits) then None
      else
        var v: int := if s[0] == '-' then 0 - DigitsValue(digits) as int else DigitsValue(digits);
        if I64Min <= v <= I64Max then Some(v) else None
  }

  /** How `{}` prints a natural number. */
  function ShowNat(n: nat): (s: string)
    ensures s != [] && AllDigits(s)
  {
    if n < 10 then [('0' as int + n) as char]
    else ShowNat(n / 10) + [('0' as int + n % 10) as char]
  }

  /** How `{}` prints an `i64`, as the listing shows message ids. */
  function ShowInt(n: int): string {
    if n < 0 then "-" + ShowNat(-n) else ShowNat(n)
  }

  lemma {:induction false} DigitsOfShow(n: nat)
    ensures DigitsValue(ShowNat(n)) == n
  {
    if n >= 10 {
      var s := ShowNat(n);
      DigitsOfShow(n / 10);
      assert s[..|s| - 1] == ShowNat(n / 10);
    }
  }

  /** An id printed by the listing parses back to itself. */
  lemma ParseShow(n: int)
    requires I64Min <= n <= I64Max
    ensures ParseI64(ShowInt(n)) == Some(n)
  {
    if n < 0 {
      DigitsOfShow(-n);
      ParseNegative(ShowNat(-n));
    } else {
      DigitsOfShow(n);
    }
  }

  /** A minus sign before digits in range parses to the negated value. */
  lemma ParseNegative(d: string)
    requires d != [] && AllDigits(d) && DigitsValue(d) <= -I64Min
    ensures ParseI64("-" + d) == Some(0 - DigitsValue(d))
  {
    var s := "-" + d;
    assert s[0] == '-' && s[1..] == d;
  }

  // ===========================================================================
  // `history`: which message to show the chain of
  // ===========================================================================

  datatype HistoryError =
    | NoActiveTag
    | ActiveTagDangling(tag: string)
    | TagNotFound(tag: string)
    | NotAnInteger(text: string)
    | NoSuchMessage(id: int)
    | InvalidCombination

  /**
    The leaf the `history` command starts from: the active tag's target with no
    argument, the named tag's target with a value (and `-t` or nothing), the
    message id given with `-m`; any other combination is refused.
   */
  function HistoryTarget(ms: seq<Message>, tags: map<string, int>, activeTag: Option<string>,
                         target: Option<string>, byTag: bool, byMessage: bool): (r: Result<int, HistoryError>)
    ensures target.None? && (byTag || byMessage) ==> r == Err(InvalidCombination)
    ensures target.Some? && byTag && byMessage ==> r == Err(InvalidCombination)
    ensures target.None? && !byTag && !byMessage ==>
      (r.Ok? <==> activeTag.Some? && activeTag.value in tags) &&
      (r.Ok? ==> r.value == tags[activeTag.value]) &&
      (activeTag.None? ==> r == Err(NoActiveTag))
    ensures target.Some? && !byMessage ==>
      (r.Ok? <==> target.value in tags) && (r.Ok? ==> r.value == tags[target.value])
    ensures target.Some? && !byTag && byMessage ==>
      (r.Ok? <==> ParseI64(target.value).Some? && MessageExists(ms, ParseI64(target.value).value)) &&
      (r.Ok? ==> r.value == ParseI64(target.value).value)
  {
    match (target, byTag, byMessage)
    case (None, false, false) =>
      (match activeTag
       case None => Err(NoActiveTag)
       case Some(t) =>
         match TagTarget(tags, t)
         case None => Err(ActiveTagDangling(t))
         case Some(id) => Ok(id))
    case (Some(v), _, false) =>
      (match TagTarget(tags, v)
       case None => Err(TagNotFound(v))
       case Some(id) => Ok(id))
    case (Some(v), false, true) =>
      (match ParseI64(v)
       case None => Err(NotAnInteger(v))
       case Some(id) => if MessageExists(ms, id) then Ok(id) else Err(NoSuchMessage(id)))
    case _ => Err(InvalidCombination)
  }

  // ===========================================================================
  // `send`: parent and tag choice
  // ===========================================================================

  /** The parent of the new user message, and the tag to move onto the answer. */
  datatype Choice = Choice(parentId: Option<int>, tagForUpdate: Option<string>)

  /**
    `--new` starts a root and moves no tag; `--parent id` branches from `id`
    and moves no tag; `--chat t` continues from `t`'s target and moves `t`;
    with none of them the active tag plays the part of `--chat`, and without
    an active tag a new root is started.
   */
  function ChooseParent(newChat: bool, parent: Option<int>, chat: Option<string>,
                        tags: map<string, int>, activeTag: Option<string>): (c: Choice)
    ensures newChat ==> c == Choice(None, None)
    ensures c.tagForUpdate.Some? <==> !newChat && parent.None? && (chat.Some? || activeTag.Some?)
    ensures c.tagForUpdate.Some? ==> c.tagForUpdate == (if chat.Some? then chat else activeTag)
    ensures c.tagForUpdate.Some? ==> c.parentId == TagTarget(tags, c.tagForUpdate.value)
    ensures c.tagForUpdate.None? ==> c.parentId == (if newChat then None else parent)
  {
    if newChat then Choice(None, None)
    else if parent.Some? then Choice(parent, None)
    else if chat.Some? then Choice(TagTarget(tags, chat.value), chat)
    else if activeTag.Some? then Choice(TagTarget(tags, activeTag.value), activeTag)
    else Choice(None, None)
  }

  /** After the tag has been moved onto an answer, continuing that chat answers the answer. */
  lemma ContinueChat(tags: map<string, int>, tag: string, answer: int, activeTag: Option<string>)
    ensures ChooseParent(false, None, Some(tag), tags[tag := answer], activeTag) == Choice(Some(answer), Some(tag))
    ensures ChooseParent(false, None, None, tags[tag := answer], Some(tag)) == Choice(Some(answer), Some(tag))
  {
  }

  // ===========================================================================
  // `send`: the inherited context
  // ===========================================================================

  datatype SendError =
    | MalformedMetadata(userMessage: int)
    | StageMissing(storeError: StoreError)
    | Unreadable(path: string)
    | ModelFailed
    | HookFailed(patchError: Patch.PatchError)

  const NoFiles := MessageMetadata([], [])

  /**
    The files of the previous turn: the metadata of the parent's parent (the
    user message the parent answered). Nothing is inherited without a parent,
    when told to ignore it, when that message or its metadata is missing, or
    when the metadata text is empty; metadata that does not decode is an error.
   */
  function Inherited(ms: seq<Message>, parentId: Option<int>, ignore: bool): (r: Result<MessageMetadata, SendError>)
    ensures parentId.None? || ignore ==> r == Ok(NoFiles)
    ensures r.Err? ==> (parentId.Some? && !ignore && ParentId(ms, parentId.value).Some? &&
      r.error == MalformedMetadata(ParentId(ms, parentId.value).value) &&
      MetadataOf(ms, ParentId(ms, parentId.value).value) == Some(Malformed))
    ensures r.Ok? && r.value != NoFiles ==> (parentId.Some? && ParentId(ms, parentId.value).Some? &&
      MetadataOf(ms, ParentId(ms, parentId.value).value) == Some(Encoded(r.value)))
    ensures parentId.Some? && !ignore && ParentId(ms, parentId.value).None? ==> r == Ok(NoFiles)
    ensures parentId.Some? && !ignore && ParentId(ms, parentId.value).Some? ==>
      var meta := MetadataOf(ms, ParentId(ms, parentId.value).value);
      (meta == Some(Malformed) <==> r.Err?) &&
      (meta.None? || meta == Some(EmptyText) ==> r == Ok(NoFiles)) &&
      (meta.Some? && meta.value.Encoded? ==> r == Ok(meta.value.meta))
  {
    if parentId.None? || ignore then Ok(NoFiles)
    else
      match ParentId(ms, parentId.value)
      case None => Ok(NoFiles)
      case Some(u) =>
        match MetadataOf(ms, u)
        case None => Ok(NoFiles)
        case Some(EmptyText) => Ok(NoFiles)
        case Some(Encoded(meta)) => Ok(meta)
        case Some(Malformed) => Err(MalformedMetadata(u))
  }

  /**
    What one turn records is what the next turn inherits: answering the
    answer to a user message brings back that message's files.
   */
  lemma NextTurnInherits(ms: seq<Message>, user: Message, answer: Message, meta: MessageMetadata)
    requires DenseIds(ms + [user, answer])
    requires user.metadata == Some(Encoded(meta)) && answer.parentId == Some(user.id)
    ensures Inherited(ms + [user, answer], Some(answer.id), false) == Ok(meta)
  {
    var all := ms + [user, answer];
    assert all[|ms|] == user && all[|ms| + 1] == answer;
    FindDense(all, answer.id);
    FindDense(all, user.id);
  }

  // ===========================================================================
  // `send`: merging the inherited files with the prepared stage
  // ===========================================================================

  function FilePaths(fs: seq<FileMetadata>): (r: seq<string>)
    ensures |r| == |fs|
    ensures forall i :: 0 <= i < |fs| ==> r[i] == fs[i].path
  {
    seq(|fs|, i requires 0 <= i < |fs| => fs[i].path)
  }

  /** A path named by any of the four lists; the dropped list is not one of them. */
  predicate InContext(inherited: MessageMetadata, prepared: ContextStage, p: string) {
    p in FilePaths(inherited.readWrite) || p in FilePaths(inherited.readOnly) ||
    p in prepared.readWrite || p in prepared.readOnly
  }

  /**
    The visibility a path ends up with: the prepared stage over the inherited
    files, and within each, read-only (inserted later) over read-write.
   */
  function MergedFlags(inherited: MessageMetadata, prepared: ContextStage): (flags: map<string, bool>)
    ensures forall p :: p in flags <==> InContext(inherited, prepared, p)
    ensures forall p :: p in prepared.readOnly ==> p in flags && flags[p]
    ensures forall p :: p in prepared.readWrite && p !in prepared.readOnly ==> p in flags && !flags[p]
    ensures forall p :: p in flags && p !in prepared.readWrite && p !in prepared.readOnly ==>
      flags[p] == (p in FilePaths(inherited.readOnly))
  {
    var keys := set p | p in FilePaths(inherited.readWrite) + FilePaths(inherited.readOnly) + prepared.readWrite + prepared.readOnly;
    map p | p in keys ::
      if p in prepared.readOnly then true
      else if p in prepared.readWrite then false
      else p in FilePaths(inherited.readOnly)
  }

  /** One insert loop: every path of `paths` is mapped to `value`, later entries over earlier ones. */
  method InsertAll(flags: map<string, bool>, paths: seq<string>, value: bool) returns (r: map<string, bool>)
    ensures forall p :: p in r <==> p in flags || p in paths
    ensures forall p :: p in r ==> r[p] == (if p in paths then value else flags[p])
  {
    r := flags;
    for i := 0 to |paths|
      invariant forall p :: p in r <==> p in flags || p in paths[..i]
      invariant forall p :: p in r ==> r[p] == (if p in paths[..i] then value else flags[p])
    {
      assert paths[..i + 1] == paths[..i] + [paths[i]];
      r := r[paths[i] := value];
    }
    assert paths[..|paths|] == paths;
  }

  /** The four insert loops that build the path-to-read-only map. */
  method MergeContexts(inherited: MessageMetadata, prepared: ContextStage) returns (flags: map<string, bool>)
    ensures flags == MergedFlags(inherited, prepared)
  {
    var irw, iro := FilePaths(inherited.readWrite), FilePaths(inherited.readOnly);
    var f1 := InsertAll(map[], irw, false);
    var f2 := InsertAll(f1, iro, true);
    var f3 := InsertAll(f2, prepared.readWrite, false);
    flags := InsertAll(f3, prepared.readOnly, true);
    var m := MergedFlags(inherited, prepared);
    assert forall p :: p in flags <==> p in m;
    forall p | p in flags
      ensures flags[p] == m[p]
    {
    }
  }

  /** A dropped path that is still inherited (or prepared) is sent all the same. */
  lemma DroppedStillSent(inherited: MessageMetadata, prepared: ContextStage, p: string)
    requires p in prepared.dropped && InContext(inherited, prepared, p)
    ensures p in MergedFlags(inherited, prepared)
    ensures MergedFlags(inherited, prepared) == MergedFlags(inherited, prepared.(dropped := []))
  {
    var a, b := MergedFlags(inherited, prepared), MergedFlags(inherited, prepared.(dropped := []));
    assert forall q :: q in a <==> q in b;
  }

  // ===========================================================================
  // `send`: sorting, loading and partitioning the paths
  // ===========================================================================

  /** The keys of the map in ascending order: `keys().collect()` then `sort()`. */
  method SortedKeys(flags: map<string, bool>) returns (paths: seq<string>)
    ensures Ascending(paths)
    ensures forall p :: p in paths <==> p in flags
  {
    paths := [];
    var rest := flags.Keys;
    while rest != {}
      invariant Ascending(paths)
      invariant forall p :: p in flags <==> p in paths || p in rest
      invariant forall p, q :: p in paths && q in rest ==> Below(p, q)
      decreases |rest|
    {
      ghost var least := Least(rest);
      assert least in rest && forall y :: y in rest && y != least ==> Below(least, y);
      var x :| x in rest && forall y :: y in rest && y != x ==> Below(x, y);
      paths := paths + [x];
      rest := rest - {x};
    }
  }

  /** The paths whose flag is `readOnly`, in their order. */
  function Select(paths: seq<string>, flags: map<string, bool>, readOnly: bool): (r: seq<string>)
    requires forall p :: p in paths ==> p in flags
    ensures forall p :: p in r <==> p in paths && flags[p] == readOnly
  {
    if paths == [] then []
    else
      var n := |paths| - 1;
      assert paths == paths[..n] + [paths[n]];
      Select(paths[..n], flags, readOnly) + (if flags[paths[n]] == readOnly then [paths[n]] else [])
  }

  /** Selecting from an ascending sequence gives an ascending sequence. */
  lemma {:induction false} SelectAscending(paths: seq<string>, flags: map<string, bool>, readOnly: bool)
    requires forall p :: p in paths ==> p in flags
    requires Ascending(paths)
    ensures Ascending(Select(paths, flags, readOnly))
  {
    if paths != [] {
      var n := |paths| - 1;
      var front := paths[..n];
      SelectAscending(front, flags, readOnly);
      var s := Select(front, flags, readOnly);
      forall i | 0 <= i < |s|
        ensures Below(s[i], paths[n])
      {
        assert s[i] in s;
        var j :| 0 <= j < n && front[j] == s[i];
      }
    }
  }

  /** Every path lands in exactly one of the two outputs, and both are in ascending order. */
  lemma PartitionExact(paths: seq<string>, flags: map<string, bool>)
    requires forall p :: p in paths ==> p in flags
    requires Ascending(paths)
    ensures forall p :: p in paths ==> (p in Select(paths, flags, true) <==> p !in Select(paths, flags, false))
    ensures forall p :: p in Select(paths, flags, true) || p in Select(paths, flags, false) ==> p in paths
    ensures Ascending(Select(paths, flags, true)) && Ascending(Select(paths, flags, false))
  {
    SelectAscending(paths, flags, true);
    SelectAscending(paths, flags, false);
  }

  /** The read-write and read-only lists of the context view. */
  method Partition(flags: map<string, bool>, paths: seq<string>) returns (readWrite: seq<string>, readOnly: seq<string>)
    requires forall p :: p in paths ==> p in flags
    ensures readWrite == Select(paths, flags, false)
    ensures readOnly == Select(paths, flags, true)
  {
    readWrite, readOnly := [], [];
    for i := 0 to |paths|
      invariant readWrite == Select(paths[..i], flags, false)
      invariant readOnly == Select(paths[..i], flags, true)
    {
      assert paths[..i + 1][..i] == paths[..i];
      if flags[paths[i]] {
        readOnly := readOnly + [paths[i]];
      } else {
        readWrite := readWrite + [paths[i]];
      }
    }
    assert paths[..|paths|] == paths;
  }

  /** Index of the first path that cannot be read, or `|paths|`. */
  function FirstMissing(paths: seq<string>, files: map<string, string>): (k: nat)
    ensures k <= |paths|
    ensures forall j :: 0 <= j < k ==> paths[j] in files
    ensures k < |paths| ==> paths[k] !in files
  {
    if paths == [] then 0
    else if paths[0] !in files then 0
    else 1 + FirstMissing(paths[1..], files)
  }

  /** Past a readable path, the first unreadable one lies further on. */
  lemma FirstMissingStep(paths: seq<string>, files: map<string, string>, i: nat)
    requires i <= FirstMissing(paths, files) && i < |paths|
    ensures paths[i] in files ==> i + 1 <= FirstMissing(paths, files)
    ensures paths[i] !in files ==> i == FirstMissing(paths, files)
  {
  }

  /** The records of the files, each with the hash of its content. */
  function Described(ps: seq<string>, files: map<string, string>, hash: string -> string): (r: seq<FileMetadata>)
    requires forall p :: p in ps ==> p in files
    ensures |r| == |ps|
    ensures forall i :: 0 <= i < |ps| ==> r[i] == FileMetadata(ps[i], hash(files[ps[i]]))
  {
    if ps == [] then []
    else
      var n := |ps| - 1;
      Described(ps[..n], files, hash) + [FileMetadata(ps[n], hash(files[ps[n]]))]
  }

  /** The `(path, content)` pairs handed to the prompt. */
  function Entries(ps: seq<string>, files: map<string, string>): (r: seq<(string, string)>)
    requires forall p :: p in ps ==> p in files
    ensures |r| == |ps|
    ensures forall i :: 0 <= i < |ps| ==> r[i] == (ps[i], files[ps[i]])
  {
    if ps == [] then []
    else
      var n := |ps| - 1;
      Entries(ps[..n], files) + [(ps[n], files[ps[n]])]
  }

  lemma SelectPush(paths: seq<string>, flags: map<string, bool>, readOnly: bool, i: nat)
    requires forall p :: p in paths ==> p in flags
    requires i < |paths|
    ensures Select(paths[..i + 1], flags, readOnly) ==
      Select(paths[..i], flags, readOnly) + (if flags[paths[i]] == readOnly then [paths[i]] else [])
  {
    assert paths[..i + 1][..i] == paths[..i];
  }

  lemma EntriesPush(ps: seq<string>, p: string, files: map<string, string>)
    requires forall q :: q in ps ==> q in files
    requires p in files
    ensures Entries(ps + [p], files) == Entries(ps, files) + [(p, files[p])]
  {
    assert (ps + [p])[..|ps|] == ps;
  }

  lemma DescribedPush(ps: seq<string>, p: string, files: map<string, string>, hash: string -> string)
    requires forall q :: q in ps ==> q in files
    requires p in files
    ensures Described(ps + [p], files, hash) == Described(ps, files, hash) + [FileMetadata(p, hash(files[p]))]
  {
    assert (ps + [p])[..|ps|] == ps;
  }

  datatype Loaded = Loaded(readWritePrompt: seq<(string, string)>, readOnlyPrompt: seq<(string, string)>, metadata: MessageMetadata)

  /** The paths before the first unreadable one can all be read. */
  lemma PrefixReadable(paths: seq<string>, files: map<string, string>, n: nat)
    requires n <= FirstMissing(paths, files)
    ensures forall p :: p in paths[..n] ==> p in files
  {
    forall p | p in paths[..n]
      ensures p in files
    {
      var j :| 0 <= j < n && paths[..n][j] == p;
    }
  }

  /** What loading the first `n` paths yields: the prompts and the records of each visibility. */
  function LoadedOf(paths: seq<string>, n: nat, flags: map<string, bool>, files: map<string, string>,
                    hash: string -> string): (l: Loaded)
    requires forall p :: p in paths ==> p in flags
    requires n <= FirstMissing(paths, files)
    ensures |l.readWritePrompt| + |l.readOnlyPrompt| == n
  {
    var ps := paths[..n];
    PrefixReadable(paths, files, n);
    SelectSizes(ps, flags);
    var rw, ro := Select(ps, flags, false), Select(ps, flags, true);
    Loaded(Entries(rw, files), Entries(ro, files), MessageMetadata(Described(rw, files, hash), Described(ro, files, hash)))
  }

  /** The two selections share out the paths between them. */
  lemma {:induction false} SelectSizes(ps: seq<string>, flags: map<string, bool>)
    requires forall p :: p in ps ==> p in flags
    ensures |Select(ps, flags, false)| + |Select(ps, flags, true)| == |ps|
  {
    if ps != [] {
      var n := |ps| - 1;
      assert forall p :: p in ps[..n] ==> p in ps;
      SelectSizes(ps[..n], flags);
    }
  }

  /** Loading one more readable path adds it to the prompt and the records of its visibility. */
  lemma LoadedStep(paths: seq<string>, i: nat, flags: map<string, bool>, files: map<string, string>, hash: string -> string)
    requires forall p :: p in paths ==> p in flags
    requires i < FirstMissing(paths, files)
    ensures var l, l' := LoadedOf(paths, i, flags, files, hash), LoadedOf(paths, i + 1, flags, files, hash);
      var p := paths[i];
      var f := FileMetadata(p, hash(files[p]));
      if flags[p] then
        l'.readWritePrompt == l.readWritePrompt && l'.metadata.readWrite == l.metadata.readWrite &&
        l'.readOnlyPrompt == l.readOnlyPrompt + [(p, files[p])] && l'.metadata.readOnly == l.metadata.readOnly + [f]
      else
        l'.readOnlyPrompt == l.readOnlyPrompt && l'.metadata.readOnly == l.metadata.readOnly &&
        l'.readWritePrompt == l.readWritePrompt + [(p, files[p])] && l'.metadata.readWrite == l.metadata.readWrite + [f]
  {
    var p := paths[i];
    PrefixReadable(paths, files, i);
    PrefixReadable(paths, files, i + 1);
    if flags[p] {
      SelectedStep(paths, i, flags, files, hash, true);
      SelectedKept(paths, i, flags, files, hash, false);
    } else {
      SelectedStep(paths, i, flags, files, hash, false);
      SelectedKept(paths, i, flags, files, hash, true);
    }
  }

  /** One more path with the flag `readOnly` extends that visibility's prompt and records. */
  lemma SelectedStep(paths: seq<string>, i: nat, flags: map<string, bool>, files: map<string, string>,
                     hash: string -> string, readOnly: bool)
    requires forall p :: p in paths ==> p in flags
    requires i < FirstMissing(paths, files) && flags[paths[i]] == readOnly
    ensures forall p :: p in paths[..i] ==> p in files
    ensures forall p :: p in paths[..i + 1] ==> p in files
    ensures var s, s' := Select(paths[..i], flags, readOnly), Select(paths[..i + 1], flags, readOnly);
      var p := paths[i];
      Entries(s', files) == Entries(s, files) + [(p, files[p])] &&
      Described(s', files, hash) == Described(s, files, hash) + [FileMetadata(p, hash(files[p]))]
  {
    PrefixReadable(paths, files, i);
    PrefixReadable(paths, files, i + 1);
    SelectPush(paths, flags, readOnly, i);
    var s := Select(paths[..i], flags, readOnly);
    EntriesPush(s, paths[i], files);
    DescribedPush(s, paths[i], files, hash);
  }

  /** One more path with the other flag leaves this visibility's prompt and records as they were. */
  lemma SelectedKept(paths: seq<string>, i: nat, flags: map<string, bool>, files: map<string, string>,
                     hash: string -> string, readOnly: bool)
    requires forall p :: p in paths ==> p in flags
    requires i < FirstMissing(paths, files) && flags[paths[i]] != readOnly
    ensures Select(paths[..i + 1], flags, readOnly) == Select(paths[..i], flags, readOnly)
  {
    SelectPush(paths, flags, readOnly, i);
  }

  /**
    Read every path in order, hash its content and file it under its
    visibility; the first path that cannot be read ends the send.
   */
  method LoadFiles(flags: map<string, bool>, paths: seq<string>, files: map<string, string>, hash: string -> string)
    returns (r: Result<Loaded, SendError>)
    requires forall p :: p in paths ==> p in flags
    ensures FirstMissing(paths, files) < |paths| ==> r == Err(Unreadable(paths[FirstMissing(paths, files)]))
    ensures FirstMissing(paths, files) == |paths| ==> (r.Ok? &&
      r.value.readWritePrompt == Entries(Select(paths, flags, false), files) &&
      r.value.readOnlyPrompt == Entries(Select(paths, flags, true), files) &&
      r.value.metadata == MessageMetadata(Described(Select(paths, flags, false), files, hash),
                                          Described(Select(paths, flags, true), files, hash)))
  {
    var rwPrompt, roPrompt: seq<(string, string)> := [], [];
    var rwMeta, roMeta: seq<FileMetadata> := [], [];
    for i := 0 to |paths|
      invariant i <= FirstMissing(paths, files)
      invariant Loaded(rwPrompt, roPrompt, MessageMetadata(rwMeta, roMeta)) == LoadedOf(paths, i, flags, files, hash)
    {
      var p := paths[i];
      FirstMissingStep(paths, files, i);
      if p !in files {
        return Err(Unreadable(p));
      }
      var content := files[p];
      var h := hash(content);
      LoadedStep(paths, i, flags, files, hash);
      if flags[p] {
        roPrompt := roPrompt + [(p, content)];
        roMeta := roMeta + [FileMetadata(p, h)];
      } else {
        rwPrompt := rwPrompt + [(p, content)];
        rwMeta := rwMeta + [FileMetadata(p, h)];
      }
    }
    assert paths[..|paths|] == paths;
    return Ok(Loaded(rwPrompt, roPrompt, MessageMetadata(rwMeta, roMeta)));
  }

  /** The merged paths in ascending order. */
  ghost function MergedPaths(inherited: MessageMetadata, prepared: ContextStage): (paths: seq<string>)
    ensures Ascending(paths)
    ensures forall p :: p in paths <==> InContext(inherited, prepared, p)
    ensures forall p :: p in paths ==> p in MergedFlags(inherited, prepared)
  {
    SortedSet(MergedFlags(inherited, prepared).Keys)
  }

  /**
    The metadata the user message is recorded with: the merged paths in
    ascending order, split by visibility, each with its content's hash; or
    the error for the first path that cannot be read.
   */
  ghost function ContextMetadata(inherited: MessageMetadata, prepared: ContextStage,
                                 files: map<string, string>, hash: string -> string): Result<MessageMetadata, SendError>
  {
    var flags := MergedFlags(inherited, prepared);
    var paths := MergedPaths(inherited, prepared);
    var k := FirstMissing(paths, files);
    if k < |paths| then Err(Unreadable(paths[k]))
    else Ok(MessageMetadata(Described(Select(paths, flags, false), files, hash),
                            Described(Select(paths, flags, true), files, hash)))
  }

  /** Recording succeeds exactly when every merged path can be read. */
  lemma ContextMetadataOk(inherited: MessageMetadata, prepared: ContextStage,
                          files: map<string, string>, hash: string -> string)
    ensures ContextMetadata(inherited, prepared, files, hash).Ok? <==>
      forall p :: InContext(inherited, prepared, p) ==> p in files
  {
    var paths := MergedPaths(inherited, prepared);
    ReadableIff(paths, files);
    assert ContextMetadata(inherited, prepared, files, hash).Ok? <==> FirstMissing(paths, files) == |paths|;
  }

  /** A failed recording names a merged path that cannot be read. */
  lemma ContextMetadataFails(inherited: MessageMetadata, prepared: ContextStage,
                             files: map<string, string>, hash: string -> string) returns (p: string)
    requires ContextMetadata(inherited, prepared, files, hash).Err?
    ensures InContext(inherited, prepared, p) && p !in files
    ensures ContextMetadata(inherited, prepared, files, hash).error == Unreadable(p)
  {
    var paths := MergedPaths(inherited, prepared);
    p := paths[FirstMissing(paths, files)];
    assert p in paths;
  }

  /** No path is missing exactly when every path can be read. */
  lemma ReadableIff(paths: seq<string>, files: map<string, string>)
    ensures FirstMissing(paths, files) == |paths| <==> forall p :: p in paths ==> p in files
  {
    if FirstMissing(paths, files) == |paths| {
      AllReadable(paths, files);
    } else {
      assert paths[FirstMissing(paths, files)] in paths;
    }
  }

  /** When no path is missing, every path can be read. */
  lemma AllReadable(paths: seq<string>, files: map<string, string>)
    requires FirstMissing(paths, files) == |paths|
    ensures forall p :: p in paths ==> p in files
  {
    forall p | p in paths
      ensures p in files
    {
      var j :| 0 <= j < |paths| && paths[j] == p;
    }
  }

  lemma DescribedFacts(ps: seq<string>, files: map<string, string>, hash: string -> string)
    requires forall p :: p in ps ==> p in files
    ensures FilePaths(Described(ps, files, hash)) == ps
    ensures forall f :: f in Described(ps, files, hash) ==> f.path in files && f.hash == hash(files[f.path])
  {
    var d := Described(ps, files, hash);
    assert FilePaths(d) == ps;
    forall f | f in d
      ensures f.path in files && f.hash == hash(files[f.path])
    {
      var i :| 0 <= i < |d| && d[i] == f;
      assert ps[i] in ps;
    }
  }

  /**
    The recorded files are exactly the merged ones: each visibility list in
    ascending path order and holding the paths with that visibility, each
    file with the hash of its content.
   */
  lemma ContextMetadataFiles(inherited: MessageMetadata, prepared: ContextStage,
                             files: map<string, string>, hash: string -> string)
    requires ContextMetadata(inherited, prepared, files, hash).Ok?
    ensures var m := ContextMetadata(inherited, prepared, files, hash).value;
      var flags := MergedFlags(inherited, prepared);
      Ascending(FilePaths(m.readWrite)) && Ascending(FilePaths(m.readOnly)) &&
      (forall p :: p in FilePaths(m.readOnly) <==> InContext(inherited, prepared, p) && flags[p]) &&
      (forall p :: p in FilePaths(m.readWrite) <==> InContext(inherited, prepared, p) && !flags[p]) &&
      (forall f :: f in m.readWrite ==> f.path in files && f.hash == hash(files[f.path])) &&
      (forall f :: f in m.readOnly ==> f.path in files && f.hash == hash(files[f.path]))
  {
    var flags := MergedFlags(inherited, prepared);
    var paths := MergedPaths(inherited, prepared);
    AllReadable(paths, files);
    DescribedSelect(paths, flags, files, hash, false);
    DescribedSelect(paths, flags, files, hash, true);
  }

  /** The records of one visibility: ascending, exactly the paths with that flag, each hashed. */
  lemma DescribedSelect(paths: seq<string>, flags: map<string, bool>, files: map<string, string>,
                        hash: string -> string, readOnly: bool)
    requires forall p :: p in paths ==> p in flags && p in files
    requires Ascending(paths)
    ensures var d := Described(Select(paths, flags, readOnly), files, hash);
      Ascending(FilePaths(d)) &&
      (forall p :: p in FilePaths(d) <==> p in paths && flags[p] == readOnly) &&
      (forall f :: f in d ==> f.path in files && f.hash == hash(files[f.path]))
  {
    SelectAscending(paths, flags, readOnly);
    DescribedFacts(Select(paths, flags, readOnly), files, hash);
  }

  /** What `LoadFiles` returns on the merged paths is the recorded metadata. */
  lemma LoadedMetadata(inherited: MessageMetadata, prepared: ContextStage, files: map<string, string>,
                       hash: string -> string, r: Result<Loaded, SendError>)
    requires var paths := MergedPaths(inherited, prepared);
      var flags := MergedFlags(inherited, prepared);
      (FirstMissing(paths, files) < |paths| ==> r == Err(Unreadable(paths[FirstMissing(paths, files)]))) &&
      (FirstMissing(paths, files) == |paths| ==>
        (r.Ok? && r.value.metadata == MessageMetadata(Described(Select(paths, flags, false), files, hash),
                                                      Described(Select(paths, flags, true), files, hash))))
    ensures r.Err? ==> ContextMetadata(inherited, prepared, files, hash) == Err(r.error)
    ensures r.Ok? ==> ContextMetadata(inherited, prepared, files, hash) == Ok(r.value.metadata)
  {
  }

  /** Everything `send` works out before it records the question. */
  ghost function Recorded(ms: seq<Message>, stages: map<string, StageRow>, files: map<string, string>,
                          c: Choice, ignoreInherited: bool, hash: string -> string): Result<MessageMetadata, SendError>
  {
    match Inherited(ms, c.parentId, ignoreInherited)
    case Err(e) => Err(e)
    case Ok(inherited) =>
      match GetContextStage(stages, "default")
      case Err(e) => Err(StageMissing(e))
      case Ok(prepared) => ContextMetadata(inherited, prepared, files, hash)
  }

  // ===========================================================================
  // `send`: the sequence of effects
  // ===========================================================================

  /**
    Up to the user message: inherit, read the stage, merge, sort, load and
    hash, then record the question with its files. Nothing is recorded when
    any of these fails.
   */
  method RecordQuestion(db: Database, files: map<string, string>, prompt: string, c: Choice,
                        ignoreInherited: bool, hash: string -> string, sentAt: int)
    returns (r: Result<int, SendError>)
    requires db.Valid()
    modifies db
    ensures db.Valid()
    ensures db.tags == old(db.tags) && db.stages == old(db.stages)
    ensures db.activeTag == old(db.activeTag) && db.projectRoot == old(db.projectRoot)
    ensures var pre := Recorded(old(db.messages), old(db.stages), files, c, ignoreInherited, hash);
      (r.Err? <==> pre.Err?) &&
      (r.Err? ==> r.error == pre.error && db.messages == old(db.messages)) &&
      (r.Ok? ==> r.value == |old(db.messages)| + 1 &&
                 db.messages == old(db.messages) + [Message(r.value, c.parentId, "user", prompt, Some(Encoded(pre.value)), sentAt)])
  {
    var inherited := Inherited(db.messages, c.parentId, ignoreInherited);
    if inherited.Err? {
      return Err(inherited.error);
    }
    var prepared := GetContextStage(db.stages, "default");
    if prepared.Err? {
      return Err(StageMissing(prepared.error));
    }
    var flags := MergeContexts(inherited.value, prepared.value);
    var paths := SortedKeys(flags);
    AscendingUnique(paths, MergedPaths(inherited.value, prepared.value));
    var loaded := LoadFiles(flags, paths, files, hash);
    LoadedMetadata(inherited.value, prepared.value, files, hash, loaded);
    if loaded.Err? {
      return Err(loaded.error);
    }
    var id := db.AddMessage(c.parentId, "user", prompt, Some(Encoded(loaded.value.metadata)), sentAt);
    return Ok(id);
  }

  /**
    After the question: the model's reply, then the post-send hook; only
    when both succeed is the stage cleared, the answer recorded and the tag
    moved onto it.
   */
  method FinishTurn(db: Database, tree: Patch.WorkTree, userId: int, tagForUpdate: Option<string>,
                    reply: Option<string>, answeredAt: int,
                    canonical: string -> Option<string>, addOk: string -> bool, commitOk: bool)
    returns (r: Result<int, SendError>)
    requires db.Valid()
    modifies db, tree
    ensures db.Valid()
    ensures db.activeTag == old(db.activeTag) && db.projectRoot == old(db.projectRoot)
    ensures r.Err? ==> db.messages == old(db.messages) && db.tags == old(db.tags) && db.stages == old(db.stages)
    ensures reply.None? ==> r == Err(ModelFailed) && tree.State() == old(tree.State())
    ensures reply.Some? ==>
      var (after, hooked) := Patch.PostSend(old(tree.State()), reply.value, old(db.projectRoot), canonical, addOk, commitOk);
      tree.State() == after && (r.Ok? <==> hooked.Ok?) && (hooked.Err? ==> r == Err(HookFailed(hooked.error)))
    ensures r.Ok? ==> (reply.Some? && r.value == |old(db.messages)| + 1 &&
      db.messages == old(db.messages) + [Message(r.value, Some(userId), "assistant", reply.value, None, answeredAt)] &&
      db.stages == (if "default" in old(db.stages) then old(db.stages)["default" := EncodeStage(Cleared("default"))] else old(db.stages)) &&
      db.tags == (if tagForUpdate.Some? then old(db.tags)[tagForUpdate.value := r.value] else old(db.tags)))
  {
    if reply.None? {
      return Err(ModelFailed);
    }
    var hooked := tree.PostSendHook(reply.value, db.projectRoot, canonical, addOk, commitOk);
    if hooked.Err? {
      return Err(HookFailed(hooked.error));
    }
    db.ClearContextStage("default");
    var answerId := db.AddMessage(Some(userId), "assistant", reply.value, None, answeredAt);
    if tagForUpdate.Some? {
      db.SetChatTag(tagForUpdate.value, answerId);
    }
    return Ok(answerId);
  }

  datatype SendOutcome =
    | NotSent(error: SendError)
    | Unanswered(userId: int, error: SendError)
    | Answered(userId: int, answerId: int)

  /**
    One `send`. The model's reply is a parameter (`None` when the call
    fails), as are the hash function, the two clock readings and the
    outcomes of the patch hook's `git` calls. The files are read from, and
    the hook writes to, the same working tree.
   */
  method Send(db: Database, tree: Patch.WorkTree, prompt: string, newChat: bool, parent: Option<int>,
              chat: Option<string>, ignoreInherited: bool, hash: string -> string, reply: Option<string>,
              sentAt: int, answeredAt: int,
              canonical: string -> Option<string>, addOk: string -> bool, commitOk: bool)
    returns (r: SendOutcome)
    requires db.Valid()
    modifies db, tree
    ensures db.Valid()
    ensures db.activeTag == old(db.activeTag) && db.projectRoot == old(db.projectRoot)
    ensures var c := ChooseParent(newChat, parent, chat, old(db.tags), old(db.activeTag));
      var pre := Recorded(old(db.messages), old(db.stages), old(tree.files), c, ignoreInherited, hash);
      (r.NotSent? <==> pre.Err?) &&
      (r.NotSent? ==> r.error == pre.error && db.messages == old(db.messages) && db.tags == old(db.tags) &&
                      db.stages == old(db.stages) && tree.State() == old(tree.State())) &&
      (!r.NotSent? ==> pre.Ok? && r.userId == |old(db.messages)| + 1 && |db.messages| > |old(db.messages)| &&
                       db.messages[|old(db.messages)|] ==
                         Message(r.userId, c.parentId, "user", prompt, Some(Encoded(pre.value)), sentAt))
    ensures r.Unanswered? ==>
      db.messages == old(db.messages) + [db.messages[|old(db.messages)|]] &&
      db.tags == old(db.tags) && db.stages == old(db.stages)
    ensures r.Unanswered? && reply.None? ==> r.error == ModelFailed && tree.State() == old(tree.State())
    ensures !r.NotSent? && reply.Some? ==>
      var (after, hooked) := Patch.PostSend(old(tree.State()), reply.value, old(db.projectRoot), canonical, addOk, commitOk);
      tree.State() == after && (r.Answered? <==> hooked.Ok?) && (hooked.Err? ==> r.error == HookFailed(hooked.error))
    ensures r.Answered? ==> (reply.Some? && r.answerId == r.userId + 1 &&
      db.messages == old(db.messages) + [db.messages[|old(db.messages)|],
                                         Message(r.answerId, Some(r.userId), "assistant", reply.value, None, answeredAt)] &&
      db.stages == old(db.stages)["default" := EncodeStage(Cleared("default"))])
    ensures var c := ChooseParent(newChat, parent, chat, old(db.tags), old(db.activeTag));
      r.Answered? ==>
        db.tags == if c.tagForUpdate.Some? then old(db.tags)[c.tagForUpdate.value := r.answerId] else old(db.tags)
  {
    var c := ChooseParent(newChat, parent, chat, db.tags, db.activeTag);
    var recorded := RecordQuestion(db, tree.files, prompt, c, ignoreInherited, hash, sentAt);
    if recorded.Err? {
      return NotSent(recorded.error);
    }
    var userId := recorded.value;
    ghost var asked := db.messages;
    var finished := FinishTurn(db, tree, userId, c.tagForUpdate, reply, answeredAt, canonical, addOk, commitOk);
    if finished.Err? {
      return Unanswered(userId, finished.error);
    }
    return Answered(userId, finished.value);
  }

  // ===========================================================================
  // `list`: the preview of each leaf
  // ===========================================================================

  /** The content of the last user message of a history, if it has one. */
  function LastUserContent(history: seq<Message>): (r: Option<string>)
    ensures r.None? <==> forall i :: 0 <= i < |history| ==> history[i].role != "user"
    ensures r.Some? ==> exists i :: (0 <= i < |history| && history[i].role == "user" && history[i].content == r.value &&
      forall j :: i < j < |history| ==> history[j].role != "user")
  {
    if history == [] then None
    else
      var n := |history| - 1;
      if history[n].role == "user" then Some(history[n].content)
      else
        var r := LastUserContent(history[..n]);
        assert forall i :: 0 <= i < n ==> history[..n][i] == history[i];
        r
  }

  const PreviewWidth := 70

  /**
    The listing's preview of a leaf: the last user message of its history,
    or else the leaf's own content, cut to 70 characters, with each newline
    shown as a space.
   */
  function Preview(history: seq<Message>, leafContent: string): (r: string)
    ensures |r| <= PreviewWidth && '\n' !in r
    ensures var source := if LastUserContent(history).Some? then LastUserContent(history).value else leafContent;
      |r| == (if |source| < PreviewWidth then |source| else PreviewWidth) &&
      forall i :: 0 <= i < |r| ==> r[i] == (if source[i] == '\n' then ' ' else source[i])
  {
    var source := if LastUserContent(history).Some? then LastUserContent(history).value else leafContent;
    var cut := if |source| <= PreviewWidth then source else source[..PreviewWidth];
    seq(|cut|, i requires 0 <= i < |cut| => if cut[i] == '\n' then ' ' else cut[i])
  }
}
