/**
  The pieces of Rust's `str` API that the core relies on, over `seq<char>`:
  `lines`, `join`, `trim`, `starts_with`, `to_lowercase` (ASCII),
  `matches(..).count()` and `replacen(.., 1)`.
 */
module Text {

  import opened Wrappers

  // ---------------------------------------------------------------------------
  // Slices
  // ---------------------------------------------------------------------------

  lemma PrefixOfAppend<T>(a: seq<T>, b: seq<T>, d: nat)
    requires d <= |a|
    ensures (a + b)[..d] == a[..d]
  {
  }

  lemma TakeAll<T>(s: seq<T>)
    ensures s[..|s|] == s
  {
  }


  lemma SuffixOfAppend<T>(a: seq<T>, b: seq<T>, d: nat)
    requires d <= |a|
    ensures (a + b)[d..] == a[d..] + b
  {
  }

  /** Slicing the tail is slicing one further along. */
  lemma TailSlice<T>(s: seq<T>, a: nat, b: nat)
    requires a <= b < |s|
    ensures s[1..][a..b] == s[a + 1..b + 1]
    ensures s[1..][b..] == s[b + 1..]
    ensures [s[0]] + s[1..][..a] == s[..a + 1]
  {
  }

  lemma SliceGrows<T>(s: seq<T>, a: nat, b: nat)
    requires a <= b < |s|
    ensures s[a..b + 1] == s[a..b] + [s[b]]
  {
  }

  lemma DropSplit<T>(s: seq<T>, d: nat)
    requires d < |s|
    ensures s[d..] == [s[d]] + s[d + 1..]
  {
  }

  lemma NilAppend<T>(s: seq<T>)
    ensures [] + s == s
  {
  }

  lemma ConsTail<T>(s: seq<T>)
    requires s != []
    ensures [s[0]] + s[1..] == s
  {
  }

  /** Putting the head back in front of a splice of the tail. */
  lemma ConsSplice<T>(s: seq<T>, a: nat, b: nat, mid: seq<T>)
    requires a <= b < |s|
    ensures [s[0]] + (s[1..][..a] + mid + s[1..][b..]) == s[..a + 1] + mid + s[b + 1..]
  {
    TailSlice(s, a, b);
  }

  /** Slicing all but the last element is slicing the whole, away from the end. */
  lemma InitSlice<T>(s: seq<T>, a: nat, b: nat)
    requires a <= b < |s|
    ensures s[..|s| - 1][a..b] == s[a..b]
    ensures s[..|s| - 1][..a] == s[..a]
    ensures s[b..] == s[..|s| - 1][b..] + [s[|s| - 1]]
  {
  }

  // ---------------------------------------------------------------------------
  // Whitespace and trimming
  // ---------------------------------------------------------------------------

  /** `char::is_whitespace`, restricted to the ASCII whitespace characters. */
  predicate IsSpace(c: char) {
    c == ' ' || c == '\t' || c == '\n' || c == '\r' || c == '\U{000B}' || c == '\U{000C}'
  }

  predicate AllSpace(s: string) {
    forall i :: 0 <= i < |s| ==> IsSpace(s[i])
  }

  /**
    `str::trim`: peel whitespace off the front, then off the back, until
    neither end is whitespace.
   */
  function Trim(s: string): (r: string)
    ensures |r| <= |s|
    ensures r == [] || (!IsSpace(r[0]) && !IsSpace(r[|r| - 1]))
    decreases |s|
  {
    if s != [] && IsSpace(s[0]) then Trim(s[1..])
    else if s != [] && IsSpace(s[|s| - 1]) then Trim(s[..|s| - 1])
    else s
  }

  /** Trimming keeps a slice `s[a..b]` and cuts off only whitespace, on either side. */
  lemma {:induction false} TrimSlice(s: string) returns (a: nat, b: nat)
    ensures a <= b <= |s| && Trim(s) == s[a..b]
    ensures AllSpace(s[..a]) && AllSpace(s[b..])
    decreases |s|
  {
    if s != [] && IsSpace(s[0]) {
      var t := s[1..];
      var a', b' := TrimSlice(t);
      a, b := a' + 1, b' + 1;
      TrimSliceHead(s, a', b');
    } else if s != [] && IsSpace(s[|s| - 1]) {
      var t := s[..|s| - 1];
      a, b := TrimSlice(t);
      TrimSliceLast(s, a, b);
    } else {
      a, b := 0, |s|;
      assert s[a..b] == s;
    }
  }

  lemma TrimSliceHead(s: string, a: nat, b: nat)
    requires s != [] && IsSpace(s[0]) && a <= b <= |s| - 1
    requires Trim(s[1..]) == s[1..][a..b] && AllSpace(s[1..][..a]) && AllSpace(s[1..][b..])
    ensures Trim(s) == s[a + 1..b + 1] && AllSpace(s[..a + 1]) && AllSpace(s[b + 1..])
  {
    TailSlice(s, a, b);
    AllSpaceCons(s[0], s[1..][..a]);
  }

  lemma AllSpaceCons(c: char, t: string)
    requires IsSpace(c) && AllSpace(t)
    ensures AllSpace([c] + t)
  {
  }

  lemma TrimSliceLast(s: string, a: nat, b: nat)
    requires s != [] && !(IsSpace(s[0])) && IsSpace(s[|s| - 1]) && a <= b <= |s| - 1
    requires Trim(s[..|s| - 1]) == s[..|s| - 1][a..b] && AllSpace(s[..|s| - 1][..a]) && AllSpace(s[..|s| - 1][b..])
    ensures Trim(s) == s[a..b] && AllSpace(s[..a]) && AllSpace(s[b..])
  {
    InitSlice(s, a, b);
    AllSpaceSnoc(s[..|s| - 1][b..], s[|s| - 1]);
  }

  lemma AllSpaceSnoc(t: string, c: char)
    requires AllSpace(t) && IsSpace(c)
    ensures AllSpace(t + [c])
  {
  }

  /** The result is empty exactly when `s` is all whitespace. */
  lemma {:induction false} TrimEmpty(s: string)
    ensures Trim(s) == [] <==> AllSpace(s)
    decreases |s|
  {
    if s != [] && IsSpace(s[0]) {
      TrimEmpty(s[1..]);
      assert s == [s[0]] + s[1..];
    } else if s != [] && IsSpace(s[|s| - 1]) {
      TrimEmpty(s[..|s| - 1]);
      assert s == s[..|s| - 1] + [s[|s| - 1]];
    } else {
      assert s != [] ==> !IsSpace(s[0]);
    }
  }

  lemma TrimIdempotent(s: string)
    ensures Trim(Trim(s)) == Trim(s)
  {
  }

  // ---------------------------------------------------------------------------
  // Prefixes, characters, case
  // ---------------------------------------------------------------------------

  predicate StartsWith(s: string, prefix: string) {
    |prefix| <= |s| && s[..|prefix|] == prefix
  }

  predicate EndsWith(s: string, suffix: string) {
    |suffix| <= |s| && s[|s| - |suffix|..] == suffix
  }

  function LowerChar(c: char): char {
    if 'A' <= c <= 'Z' then (c as int + 32) as char else c
  }

  /** `str::to_lowercase` over ASCII letters; other characters are kept. */
  function ToLower(s: string): (r: string)
    ensures |r| == |s|
    ensures forall i :: 0 <= i < |s| ==> r[i] == LowerChar(s[i])
  {
    if s == [] then [] else [LowerChar(s[0])] + ToLower(s[1..])
  }

  // ---------------------------------------------------------------------------
  // Joining
  // ---------------------------------------------------------------------------

  /** `[String]::join(sep)`. */
  function Join(parts: seq<string>, sep: string): (r: string)
    ensures |parts| == 1 ==> r == parts[0]
  {
    if |parts| == 0 then ""
    else if |parts| == 1 then parts[0]
    else Join(parts[..|parts| - 1], sep) + sep + parts[|parts| - 1]
  }

  /** Every line followed by a newline: the text that `Lines` reads back. */
  function Terminated(ls: seq<string>): string {
    if ls == [] then "" else ls[0] + "\n" + Terminated(ls[1..])
  }

  // ---------------------------------------------------------------------------
  // Splitting into lines
  // ---------------------------------------------------------------------------

  /** Index of the first `c` in `s`, or `|s|` when there is none. */
  function IndexOf(s: string, c: char): (k: nat)
    ensures k <= |s|
    ensures c !in s[..k]
    ensures k < |s| ==> s[k] == c
  {
    if s == [] then 0
    else if s[0] == c then 0
    else
      var k := IndexOf(s[1..], c);
      assert s[..k + 1] == [s[0]] + s[1..][..k];
      1 + k
  }

  function StripCR(line: string): string {
    if line != [] && line[|line| - 1] == '\r' then line[..|line| - 1] else line
  }

  /**
    `str::lines`: split at every `\n`; a `\r` right before the `\n` is
    dropped; a final `\n` does not start an empty last line.
   */
  function Lines(s: string): (r: seq<string>)
    ensures forall l :: l in r ==> '\n' !in l
    ensures s == [] <==> r == []
    decreases |s|
  {
    if s == [] then []
    else
      var k := IndexOf(s, '\n');
      if k == |s| then [s]
      else
        assert '\n' !in StripCR(s[..k]) by {
          assert forall c :: c in StripCR(s[..k]) ==> c in s[..k];
        }
        [StripCR(s[..k])] + Lines(s[k + 1..])
  }

  /**
    Reading back text written line by line gives the lines again, as long as
    no line holds a newline or ends with a carriage return.
   */
  lemma {:induction false} LinesOfTerminated(ls: seq<string>)
    requires forall l :: l in ls ==> '\n' !in l
    requires forall l :: l in ls ==> !EndsWith(l, "\r")
    ensures Lines(Terminated(ls)) == ls
  {
    if ls != [] {
      var rest := Terminated(ls[1..]);
      assert Terminated(ls) == ls[0] + ("\n" + rest);
      assert ls[0] in ls;
      LinesCons(ls[0], rest);
      LinesOfTerminated(ls[1..]);
      ConsTail(ls);
    }
  }

  /** A line without a newline or a final carriage return, then a newline, reads back as that line. */
  lemma LinesCons(head: string, rest: string)
    requires '\n' !in head && !EndsWith(head, "\r")
    ensures Lines(head + ("\n" + rest)) == [head] + Lines(rest)
  {
    var s := head + ("\n" + rest);
    assert s[..|head|] == head && s[|head|] == '\n' && s[|head| + 1..] == rest;
    assert IndexOf(s, '\n') == |head| by {
      assert s[|head|] in s[..|head| + 1];
    }
    assert head != [] ==> head[|head| - 1..] == [head[|head| - 1]];
  }

  // ---------------------------------------------------------------------------
  // Substring occurrences: `matches(..).count()` and `replacen(.., 1)`
  // ---------------------------------------------------------------------------

  predicate OccursAt(hay: string, needle: string, k: nat) {
    k + |needle| <= |hay| && hay[k..k + |needle|] == needle
  }

  ghost predicate Occurs(hay: string, needle: string) {
    exists k: nat :: OccursAt(hay, needle, k)
  }

  /** Number of non-overlapping occurrences, scanning from the left. */
  function CountMatches(hay: string, needle: string): (n: nat)
    requires needle != []
    ensures n == 0 <==> !Occurs(hay, needle)
    decreases |hay|
  {
    if |hay| < |needle| then
      assert forall k: nat :: !OccursAt(hay, needle, k);
      0
    else if hay[..|needle|] == needle then
      assert OccursAt(hay, needle, 0);
      1 + CountMatches(hay[|needle|..], needle)
    else
      var n := CountMatches(hay[1..], needle);
      assert Occurs(hay[1..], needle) ==> Occurs(hay, needle) by {
        if Occurs(hay[1..], needle) {
          var k: nat :| OccursAt(hay[1..], needle, k);
          OccursShift(hay, needle, k);
        }
      }
      assert Occurs(hay, needle) ==> Occurs(hay[1..], needle) by {
        if Occurs(hay, needle) {
          var k: nat :| OccursAt(hay, needle, k);
          assert k != 0;
          OccursShift(hay, needle, k - 1);
        }
      }
      n
  }

  lemma OccursShift(hay: string, needle: string, k: nat)
    requires hay != []
    ensures OccursAt(hay, needle, k + 1) <==> OccursAt(hay[1..], needle, k)
  {
    if k + 1 + |needle| <= |hay| {
      assert hay[k + 1..k + 1 + |needle|] == hay[1..][k..k + |needle|];
    }
  }

  /** Index of the leftmost occurrence of a non-empty needle, if any. */
  function FirstOccurrence(hay: string, needle: string): (r: Option<nat>)
    requires needle != []
    ensures r.Some? ==> OccursAt(hay, needle, r.value)
    ensures r.Some? ==> forall k: nat :: k < r.value ==> !OccursAt(hay, needle, k)
    ensures r.None? ==> !Occurs(hay, needle)
    decreases |hay|
  {
    if |hay| < |needle| then None
    else if hay[..|needle|] == needle then Some(0)
    else
      match FirstOccurrence(hay[1..], needle)
      case None =>
        assert !Occurs(hay, needle) by {
          forall k: nat
            ensures !OccursAt(hay, needle, k)
          {
            if k > 0 {
              OccursShift(hay, needle, k - 1);
            }
          }
        }
        None
      case Some(j) =>
        OccursShift(hay, needle, j);
        assert forall k: nat :: k < j + 1 ==> !OccursAt(hay, needle, k) by {
          forall k: nat | k < j + 1
            ensures !OccursAt(hay, needle, k)
          {
            if k > 0 {
              OccursShift(hay, needle, k - 1);
            }
          }
        }
        Some(j + 1)
  }

  /** `replacen(needle, replacement, 1)`, scanning from the left. */
  function ReplaceFirst(hay: string, needle: string, replacement: string): (r: string)
    requires needle != []
    ensures |hay| < |needle| ==> r == hay
    decreases |hay|
  {
    if |hay| < |needle| then hay
    else if hay[..|needle|] == needle then replacement + hay[|needle|..]
    else [hay[0]] + ReplaceFirst(hay[1..], needle, replacement)
  }

  /**
    The leftmost occurrence is replaced and nothing else changes; without an
    occurrence the text is returned as is.
   */
  lemma {:induction false} ReplaceFirstLeftmost(hay: string, needle: string, replacement: string)
    requires needle != []
    ensures FirstOccurrence(hay, needle).None? ==> ReplaceFirst(hay, needle, replacement) == hay
    ensures FirstOccurrence(hay, needle).Some? ==>
      var k := FirstOccurrence(hay, needle).value;
      ReplaceFirst(hay, needle, replacement) == hay[..k] + replacement + hay[k + |needle|..]
    decreases |hay|
  {
    if |hay| < |needle| {
      assert FirstOccurrence(hay, needle).None?;
    } else if hay[..|needle|] == needle {
      ReplaceAtHead(hay, needle, replacement);
    } else {
      ReplaceFirstLeftmost(hay[1..], needle, replacement);
      match FirstOccurrence(hay[1..], needle)
      case None =>
        ReplaceShiftNone(hay, needle, replacement);
      case Some(j) =>
        ReplaceShiftSome(hay, needle, replacement, j);
    }
  }

  lemma ReplaceAtHead(hay: string, needle: string, replacement: string)
    requires needle != [] && |needle| <= |hay| && hay[..|needle|] == needle
    ensures FirstOccurrence(hay, needle) == Some(0)
    ensures ReplaceFirst(hay, needle, replacement) == hay[..0] + replacement + hay[|needle|..]
  {
    assert hay[..0] == [];
    NilAppend(replacement + hay[|needle|..]);
  }

  lemma ReplaceShiftNone(hay: string, needle: string, replacement: string)
    requires needle != [] && |needle| <= |hay| && hay[..|needle|] != needle
    requires FirstOccurrence(hay[1..], needle).None? && ReplaceFirst(hay[1..], needle, replacement) == hay[1..]
    ensures FirstOccurrence(hay, needle).None? && ReplaceFirst(hay, needle, replacement) == hay
  {
    ConsTail(hay);
  }

  lemma ReplaceShiftSome(hay: string, needle: string, replacement: string, j: nat)
    requires needle != [] && |needle| <= |hay| && hay[..|needle|] != needle
    requires FirstOccurrence(hay[1..], needle) == Some(j)
    requires ReplaceFirst(hay[1..], needle, replacement) == hay[1..][..j] + replacement + hay[1..][j + |needle|..]
    ensures FirstOccurrence(hay, needle) == Some(j + 1)
    ensures ReplaceFirst(hay, needle, replacement) == hay[..j + 1] + replacement + hay[j + 1 + |needle|..]
  {
    assert j + |needle| < |hay|;
    SpliceShift(hay, needle, replacement, j);
  }

  lemma SpliceShift(hay: string, needle: string, replacement: string, j: nat)
    requires needle != [] && |needle| <= |hay| && hay[..|needle|] != needle && j + |needle| < |hay|
    requires ReplaceFirst(hay[1..], needle, replacement) == hay[1..][..j] + replacement + hay[1..][j + |needle|..]
    ensures ReplaceFirst(hay, needle, replacement) == hay[..j + 1] + replacement + hay[j + 1 + |needle|..]
  {
    ReplaceFirstCons(hay, needle, replacement);
    ConsSplice(hay, j, j + |needle|, replacement);
  }

  lemma ReplaceFirstCons(hay: string, needle: string, replacement: string)
    requires needle != [] && |needle| <= |hay| && hay[..|needle|] != needle
    ensures ReplaceFirst(hay, needle, replacement) == [hay[0]] + ReplaceFirst(hay[1..], needle, replacement)
  {
  }
}
