/** The string operations the target uses: `str.split` on a fixed separator
    (token matching of class and department names) and `str.replace`
    (sanitising request-error messages). Strings are sequences of characters. */
module Text {

  /** `t` occurs in `s` starting at position `i`. */
  predicate OccursAt(s: string, t: string, i: nat)
  {
    i + |t| <= |s| && s[i..i + |t|] == t
  }

  /** Python's `t in s` on strings. */
  predicate Contains(s: string, t: string)
  {
    exists i: nat :: i <= |s| && OccursAt(s, t, i)
  }

  /** Python's `s.split(sep)` for a non-empty separator: the pieces of `s`
      between its left-to-right, non-overlapping occurrences of `sep`. */
  function Split(s: string, sep: string): (parts: seq<string>)
    requires sep != []
    ensures |parts| >= 1
    decreases |s|
  {
    if |s| < |sep| then [s]
    else if s[..|sep|] == sep then [[]] + Split(s[|sep|..], sep)
    else
      var rest := Split(s[1..], sep);
      [[s[0]] + rest[0]] + rest[1..]
  }

  /** Python's `sep.join(parts)`. */
  function Join(parts: seq<string>, sep: string): string
    decreases |parts|
  {
    if parts == [] then []
    else if |parts| == 1 then parts[0]
    else parts[0] + sep + Join(parts[1..], sep)
  }

  /** Python's `s.replace(target, replacement)` for a non-empty target:
      every left-to-right, non-overlapping occurrence is replaced. */
  function Replace(s: string, target: string, replacement: string): string
    requires target != []
    decreases |s|
  {
    if |s| < |target| then s
    else if s[..|target|] == target then replacement + Replace(s[|target|..], target, replacement)
    else [s[0]] + Replace(s[1..], target, replacement)
  }

  /** Prepending a character to the first piece prepends it to the joined string. */
  lemma JoinConsHead(c: char, parts: seq<string>, sep: string)
    requires |parts| >= 1
    ensures Join([[c] + parts[0]] + parts[1..], sep) == [c] + Join(parts, sep)
  {
    var q := [[c] + parts[0]] + parts[1..];
    if |parts| == 1 {
      assert q == [[c] + parts[0]];
    } else {
      assert q[1..] == parts[1..];
    }
  }

  /** Replacing is splitting at the target and joining with the replacement,
      the identity Python's own documentation gives for `str.replace`. */
  lemma {:induction false} ReplaceIsJoinOfSplit(s: string, target: string, replacement: string)
    requires target != []
    ensures Replace(s, target, replacement) == Join(Split(s, target), replacement)
    decreases |s|
  {
    if |s| < |target| {
    } else if s[..|target|] == target {
      ReplaceIsJoinOfSplit(s[|target|..], target, replacement);
      var rest := Split(s[|target|..], target);
      assert ([[]] + rest)[1..] == rest;
    } else {
      ReplaceIsJoinOfSplit(s[1..], target, replacement);
      JoinConsHead(s[0], Split(s[1..], target), replacement);
    }
  }

  /** Replacing a string by itself changes nothing. */
  lemma {:induction false} ReplaceBySelf(s: string, target: string)
    requires target != []
    ensures Replace(s, target, target) == s
    decreases |s|
  {
    if |s| < |target| {
    } else if s[..|target|] == target {
      ReplaceBySelf(s[|target|..], target);
      assert s == s[..|target|] + s[|target|..];
    } else {
      ReplaceBySelf(s[1..], target);
      assert s == [s[0]] + s[1..];
    }
  }

  /** Splitting and joining with the same separator gives back the string:
      no character is lost or invented by the token split. */
  lemma JoinSplitRoundTrip(s: string, sep: string)
    requires sep != []
    ensures Join(Split(s, sep), sep) == s
  {
    ReplaceIsJoinOfSplit(s, sep, sep);
    ReplaceBySelf(s, sep);
  }

  /** An occurrence in the tail of `s` is an occurrence in `s`, one place later. */
  lemma TailOccurrence(s: string, t: string)
    requires |s| > 0
    requires !Contains(s, t)
    ensures !Contains(s[1..], t)
  {
    forall i: nat | OccursAt(s[1..], t, i)
      ensures OccursAt(s, t, i + 1)
    {
      assert s[1..][i..i + |t|] == s[i + 1..i + 1 + |t|];
    }
  }

  /** A string without the target is left unchanged by `replace`. */
  lemma {:induction false} ReplaceAbsent(s: string, target: string, replacement: string)
    requires target != []
    requires !Contains(s, target)
    ensures Replace(s, target, replacement) == s
    decreases |s|
  {
    if |s| >= |target| {
      assert !OccursAt(s, target, 0);
      TailOccurrence(s, target);
      ReplaceAbsent(s[1..], target, replacement);
      assert s == [s[0]] + s[1..];
    }
  }

  /** A string without the separator splits into itself alone. */
  lemma {:induction false} SplitAbsent(s: string, sep: string)
    requires sep != []
    requires !Contains(s, sep)
    ensures Split(s, sep) == [s]
    decreases |s|
  {
    if |s| >= |sep| {
      assert !OccursAt(s, sep, 0);
      TailOccurrence(s, sep);
      SplitAbsent(s[1..], sep);
      assert s == [s[0]] + s[1..];
    }
  }

  /** `Split` cuts at the leftmost occurrence of the separator: the first
      piece is everything before it, and the rest is the split of what
      follows it. With `SplitAbsent` this fixes every piece. */
  lemma {:induction false} SplitAtFirstOccurrence(s: string, sep: string, i: nat)
    requires sep != []
    requires OccursAt(s, sep, i)
    requires forall j: nat :: j < i ==> !OccursAt(s, sep, j)
    ensures Split(s, sep) == [s[..i]] + Split(s[i + |sep|..], sep)
    decreases i
  {
    if i == 0 {
      assert s[..|sep|] == sep;
    } else {
      LaterOccurrences(s, sep, i);
      SplitAtFirstOccurrence(s[1..], sep, i - 1);
      assert !OccursAt(s, sep, 0);
      SplitPastFirst(s, sep, i, Split(s[i + |sep|..], sep));
    }
  }

  /** The inductive step of `SplitAtFirstOccurrence`: a first character
      that does not start the separator joins the first piece. */
  lemma SplitPastFirst(s: string, sep: string, i: nat, after: seq<string>)
    requires sep != [] && 0 < i && i + |sep| <= |s| && !OccursAt(s, sep, 0)
    requires Split(s[1..], sep) == [s[1..][..i - 1]] + after
    ensures Split(s, sep) == [s[..i]] + after
  {
    assert s == [s[0]] + s[1..];
    SplitStep(s[0], s[1..], sep);
    assert [s[0]] + s[1..][..i - 1] == s[..i];
  }

  /** Dropping the first character moves every occurrence one place left. */
  lemma LaterOccurrences(s: string, sep: string, i: nat)
    requires 0 < i && OccursAt(s, sep, i)
    requires forall j: nat :: j < i ==> !OccursAt(s, sep, j)
    ensures OccursAt(s[1..], sep, i - 1)
    ensures forall j: nat :: j < i - 1 ==> !OccursAt(s[1..], sep, j)
  {
    assert s[1..][i - 1..i - 1 + |sep|] == s[i..i + |sep|];
    forall j: nat | j < i - 1
      ensures !OccursAt(s[1..], sep, j)
    {
      assert !OccursAt(s, sep, j + 1);
      if j + |sep| <= |s[1..]| {
        assert s[1..][j..j + |sep|] == s[j + 1..j + 1 + |sep|];
      }
    }
  }

  /** One step of the split: a leading character that does not start the
      separator joins the first piece of the rest. */
  lemma SplitStep(c: char, s: string, sep: string)
    requires sep != []
    requires |s| + 1 >= |sep| && ([c] + s)[..|sep|] != sep
    ensures Split([c] + s, sep) == [[c] + Split(s, sep)[0]] + Split(s, sep)[1..]
  {
    assert ([c] + s)[1..] == s;
  }
}
