/** The behaviour of the few Go `strings` functions the quote parser relies on:
    `Split` with a one-character separator, `Trim` with a cutset, `HasPrefix`
    and `Replace` limited to one replacement. */
module Strings {
  import opened Wrappers

  /** `strings.Split(s, sep)` for a one-character separator: the maximal pieces
      between separators, so the empty string splits into one empty piece. */
  function Split(s: string, sep: char): (parts: seq<string>)
    ensures |parts| == Count(s, sep) + 1
    ensures forall i :: 0 <= i < |parts| ==> sep !in parts[i]
    decreases |s|
  {
    if s == [] then [""]
    else
      var rest := Split(s[1..], sep);
      if s[0] == sep then [""] + rest
      else [[s[0]] + rest[0]] + rest[1..]
  }

  /** The number of occurrences of `c` in `s`. */
  function Count(s: string, c: char): nat
    decreases |s|
  {
    if s == [] then 0 else (if s[0] == c then 1 else 0) + Count(s[1..], c)
  }

  /** The pieces glued back together with the separator between them: the
      inverse of `Split`. */
  function Join(parts: seq<string>, sep: char): string
    requires |parts| >= 1
    decreases |parts|
  {
    if |parts| == 1 then parts[0] else parts[0] + [sep] + Join(parts[1..], sep)
  }

  lemma CountZero(s: string, c: char)
    ensures Count(s, c) == 0 <==> c !in s
    decreases |s|
  {
    if s != [] { CountZero(s[1..], c); }
  }

  /** Joining the pieces of a split gives back the original text. */
  lemma {:induction false} JoinSplit(s: string, sep: char)
    ensures Join(Split(s, sep), sep) == s
    decreases |s|
  {
    if s != [] {
      JoinSplit(s[1..], sep);
      var rest := Split(s[1..], sep);
      if s[0] != sep {
        if |rest| == 1 {
          assert Split(s, sep) == [[s[0]] + rest[0]];
        } else {
          assert Split(s, sep)[1..] == rest[1..];
          assert Join(rest, sep) == rest[0] + [sep] + Join(rest[1..], sep);
        }
      }
    }
  }

  /** The text before the first separator is the first piece, and the rest
      of the text splits into the remaining pieces. */
  lemma {:induction false} SplitAtFirst(pre: string, sep: char, post: string)
    requires sep !in pre
    ensures Split(pre + [sep] + post, sep) == [pre] + Split(post, sep)
    decreases |pre|
  {
    if pre == [] {
      assert pre + [sep] + post == [sep] + post;
      assert ([sep] + post)[1..] == post;
    } else {
      assert (pre + [sep] + post)[1..] == pre[1..] + [sep] + post;
      SplitAtFirst(pre[1..], sep, post);
      assert [pre[0]] + pre[1..] == pre;
    }
  }

  /** Splitting a join of separator-free pieces gives the pieces back. */
  lemma {:induction false} SplitJoin(parts: seq<string>, sep: char)
    requires |parts| >= 1
    requires forall i :: 0 <= i < |parts| ==> sep !in parts[i]
    ensures Split(Join(parts, sep), sep) == parts
    decreases |parts|
  {
    if |parts| == 1 {
      SplitNoSep(parts[0], sep);
    } else {
      SplitJoin(parts[1..], sep);
      SplitAtFirst(parts[0], sep, Join(parts[1..], sep));
    }
  }

  /** Text without the separator is a single piece. */
  lemma {:induction false} SplitNoSep(s: string, sep: char)
    requires sep !in s
    ensures Split(s, sep) == [s]
    decreases |s|
  {
    if s != [] {
      SplitNoSep(s[1..], sep);
      assert s[0] != sep;
      assert [s[0]] + s[1..] == s;
    }
  }

  /** `strings.TrimLeft(s, cutset)`: drop the leading characters that are in
      `cut`, and no others. */
  function TrimLeft(s: string, cut: set<char>): (r: string)
    ensures |r| <= |s| && r == s[|s| - |r|..]
    ensures r != [] ==> r[0] !in cut
    ensures forall k :: 0 <= k < |s| - |r| ==> s[k] in cut
    decreases |s|
  {
    if s != [] && s[0] in cut then TrimLeft(s[1..], cut) else s
  }

  /** `strings.TrimRight(s, cutset)`: drop the trailing characters that are in
      `cut`, and no others. */
  function TrimRight(s: string, cut: set<char>): (r: string)
    ensures |r| <= |s| && r == s[..|r|]
    ensures r != [] ==> r[|r| - 1] !in cut
    ensures forall k :: |r| <= k < |s| ==> s[k] in cut
    decreases |s|
  {
    if s != [] && s[|s| - 1] in cut then TrimRight(s[..|s| - 1], cut) else s
  }

  /** `strings.Trim(s, cutset)`: the infix of `s` left once the characters of
      `cut` are stripped from both ends; an inner character of `cut` stays. */
  function Trim(s: string, cut: set<char>): (r: string)
    ensures exists i, j ::
              (0 <= i <= j <= |s| && r == s[i..j] &&
               (forall k :: 0 <= k < i ==> s[k] in cut) &&
               (forall k :: j <= k < |s| ==> s[k] in cut))
    ensures r != [] ==> r[0] !in cut && r[|r| - 1] !in cut
  {
    var l := TrimLeft(s, cut);
    var r := TrimRight(l, cut);
    TrimBothEnds(s, l, r, cut);
    r
  }

  /** The slice argument behind `Trim`: a left trim followed by a right trim
      leaves an infix whose removed ends are all cut characters. */
  lemma TrimBothEnds(s: string, l: string, r: string, cut: set<char>)
    requires |l| <= |s| && l == s[|s| - |l|..]
    requires forall k :: 0 <= k < |s| - |l| ==> s[k] in cut
    requires |r| <= |l| && r == l[..|r|]
    requires forall k :: |r| <= k < |l| ==> l[k] in cut
    ensures var i, j := |s| - |l|, |s| - |l| + |r|;
      0 <= i <= j <= |s| && r == s[i..j] &&
      (forall k :: 0 <= k < i ==> s[k] in cut) &&
      (forall k :: j <= k < |s| ==> s[k] in cut)
  {
    var i, j := |s| - |l|, |s| - |l| + |r|;
    forall k | j <= k < |s| ensures s[k] in cut {
      assert s[k] == l[k - i];
    }
    assert r == s[i..j];
  }

  /** Padding made only of cut characters is exactly what `Trim` removes. */
  lemma TrimPadded(lead: string, body: string, trail: string, cut: set<char>)
    requires forall k :: 0 <= k < |lead| ==> lead[k] in cut
    requires forall k :: 0 <= k < |trail| ==> trail[k] in cut
    requires body != [] && body[0] !in cut && body[|body| - 1] !in cut
    ensures Trim(lead + body + trail, cut) == body
  {
    var s := lead + body + trail;
    TrimLeftPadded(lead, body + trail, cut);
    assert s == lead + (body + trail);
    TrimRightPadded(body, trail, cut);
  }

  lemma {:induction false} TrimLeftPadded(lead: string, rest: string, cut: set<char>)
    requires forall k :: 0 <= k < |lead| ==> lead[k] in cut
    requires rest != [] && rest[0] !in cut
    ensures TrimLeft(lead + rest, cut) == rest
    decreases |lead|
  {
    if lead != [] {
      assert (lead + rest)[1..] == lead[1..] + rest;
      TrimLeftPadded(lead[1..], rest, cut);
    } else {
      assert lead + rest == rest;
    }
  }

  lemma {:induction false} TrimRightPadded(rest: string, trail: string, cut: set<char>)
    requires forall k :: 0 <= k < |trail| ==> trail[k] in cut
    requires rest != [] && rest[|rest| - 1] !in cut
    ensures TrimRight(rest + trail, cut) == rest
    decreases |trail|
  {
    if trail != [] {
      var t := trail[..|trail| - 1];
      assert (rest + trail)[..|rest + trail| - 1] == rest + t;
      TrimRightPadded(rest, t, cut);
    } else {
      assert rest + trail == rest;
    }
  }

  /** `strings.HasPrefix(s, prefix)`: `s` starts with `prefix`. */
  function HasPrefix(s: string, prefix: string): (b: bool)
    ensures b <==> |prefix| <= |s| && forall i :: 0 <= i < |prefix| ==> s[i] == prefix[i]
    ensures b ==> s == prefix + s[|prefix|..]
  {
    |prefix| <= |s| && s[..|prefix|] == prefix
  }

  /** `target` occurs in `s` starting at position `i`. */
  predicate OccursAt(s: string, target: string, i: nat) {
    i + |target| <= |s| && forall m :: 0 <= m < |target| ==> s[i + m] == target[m]
  }

  lemma OccursAtShift(s: string, target: string, i: nat)
    requires s != []
    ensures OccursAt(s[1..], target, i) <==> OccursAt(s, target, i + 1)
  {
  }

  /** Where `target` first occurs in `s`, if it occurs at all. */
  function FirstIndex(s: string, target: string): (k: Option<nat>)
    requires target != []
    ensures k.Some? ==> OccursAt(s, target, k.value)
    ensures forall i: nat :: OccursAt(s, target, i) ==> k.Some? && k.value <= i
    decreases |s|
  {
    if HasPrefix(s, target) then
      assert OccursAt(s, target, 0);
      Some(0)
    else if s == [] then None
    else
      var f := FirstIndex(s[1..], target);
      var k := if f.None? then None else Some(f.value + 1);
      FirstIndexShift(s, target, f, k);
      k
  }

  /** The first occurrence in `s`, from the first occurrence in its tail,
      when `target` does not start at position 0. */
  lemma FirstIndexShift(s: string, target: string, f: Option<nat>, k: Option<nat>)
    requires target != [] && s != [] && !HasPrefix(s, target)
    requires f.Some? ==> OccursAt(s[1..], target, f.value)
    requires forall i: nat :: OccursAt(s[1..], target, i) ==> f.Some? && f.value <= i
    requires k == if f.None? then None else Some(f.value + 1)
    ensures k.Some? ==> OccursAt(s, target, k.value)
    ensures forall i: nat :: OccursAt(s, target, i) ==> k.Some? && k.value <= i
  {
    if f.Some? {
      OccursAtShift(s, target, f.value);
    }
    forall i: nat | OccursAt(s, target, i) ensures k.Some? && k.value <= i {
      assert i != 0;
      OccursAtShift(s, target, i - 1);
    }
  }

  /** `strings.Replace(s, target, repl, 1)` for a non-empty `target`: the first
      occurrence of `target` is replaced by `repl`, and without one `s` is
      returned unchanged. */
  function ReplaceFirst(s: string, target: string, repl: string): (r: string)
    requires target != []
    ensures FirstIndex(s, target).None? ==> r == s
    ensures FirstIndex(s, target).Some? ==>
      var k := FirstIndex(s, target).value;
      k + |target| <= |s| && r == s[..k] + repl + s[k + |target|..]
    decreases |s|
  {
    if HasPrefix(s, target) then repl + s[|target|..]
    else if s == [] then s
    else
      var r' := ReplaceFirst(s[1..], target, repl);
      FirstIndexTail(s, target);
      ReplaceFirstStep(s, |target|, repl, r', FirstIndex(s[1..], target), FirstIndex(s, target));
      [s[0]] + r'
  }

  /** Past a position where `target` does not start, the first occurrence is
      one after the first occurrence in the tail. */
  lemma FirstIndexTail(s: string, target: string)
    requires target != [] && s != [] && !HasPrefix(s, target)
    ensures FirstIndex(s, target) ==
      if FirstIndex(s[1..], target).None? then None else Some(FirstIndex(s[1..], target).value + 1)
  {
  }

  /** One step of `ReplaceFirst`, for a text whose first occurrence of
      `target`, if any, lies in its tail: `f` in the tail, `g` in the text. */
  lemma ReplaceFirstStep(s: string, n: nat, repl: string, r': string, f: Option<nat>, g: Option<nat>)
    requires s != []
    requires g == if f.None? then None else Some(f.value + 1)
    requires f.None? ==> r' == s[1..]
    requires f.Some? ==> f.value + n <= |s[1..]| && r' == s[1..][..f.value] + repl + s[1..][f.value + n..]
    ensures g.None? ==> [s[0]] + r' == s
    ensures g.Some? ==> g.value + n <= |s| && [s[0]] + r' == s[..g.value] + repl + s[g.value + n..]
  {
    if f.None? {
      assert [s[0]] + s[1..] == s;
    } else {
      ConsSplice(s, f.value, n, repl);
    }
  }

  lemma ConsSplice(s: string, j: nat, n: nat, repl: string)
    requires s != [] && j + n <= |s| - 1
    ensures [s[0]] + (s[1..][..j] + repl + s[1..][j + n..]) == s[..j + 1] + repl + s[j + 1 + n..]
  {
    var tail := s[1..];
    assert s[..j + 1] == [s[0]] + tail[..j];
    assert s[j + 1 + n..] == tail[j + n..];
  }

  /** Replacing a substring by itself changes nothing. */
  lemma {:induction false} ReplaceFirstSelf(s: string, target: string)
    requires target != []
    ensures ReplaceFirst(s, target, target) == s
    decreases |s|
  {
    if HasPrefix(s, target) {
      assert target + s[|target|..] == s[..|target|] + s[|target|..] == s;
    } else if s != [] {
      ReplaceFirstSelf(s[1..], target);
      assert [s[0]] + s[1..] == s;
    }
  }
}
