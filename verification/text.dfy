/** The Python string operations the scrapers rely on, over `string` (a
    sequence of Unicode scalar values): `strip()`, `in`, `split(sep)`,
    `removesuffix(suffix)`, and `sep.join(parts)` as the partner of split.
 */
module Text {
  import opened Wrappers

  /** Python's `str.isspace()` for one character: the ASCII controls
      \t \n \v \f \r, the separators \x1c-\x1f, the space, NEL, and the
      Unicode space separators. */
  predicate IsSpace(c: char) {
    var n := c as int;
    || (9 <= n <= 13) || (28 <= n <= 32) || n == 0x85 || n == 0xA0
    || n == 0x1680 || (0x2000 <= n <= 0x200A) || n == 0x2028 || n == 0x2029
    || n == 0x202F || n == 0x205F || n == 0x3000
  }

  /** `s` without its leading whitespace: the suffix left after the longest
      whitespace prefix (see `TrimStartSuffix`). */
  function TrimStart(s: string): (r: string)
    ensures |r| <= |s|
    ensures forall i :: 0 <= i < |s| - |r| ==> IsSpace(s[i])
    ensures |r| > 0 ==> !IsSpace(r[0])
    decreases |s|
  {
    if |s| > 0 && IsSpace(s[0]) then TrimStart(s[1..]) else s
  }

  /** What `TrimStart` removes is a prefix: the rest is a suffix of `s`. */
  lemma {:induction false} TrimStartSuffix(s: string)
    ensures TrimStart(s) == s[|s| - |TrimStart(s)|..]
    decreases |s|
  {
    if |s| > 0 && IsSpace(s[0]) {
      TrimStartSuffix(s[1..]);
      assert s[1..][|s| - 1 - |TrimStart(s)|..] == s[|s| - |TrimStart(s)|..];
    }
  }

  /** `s` without its trailing whitespace: the prefix left before the longest
      whitespace suffix (see `TrimEndPrefix`). */
  function TrimEnd(s: string): (r: string)
    ensures |r| <= |s|
    ensures forall i :: |r| <= i < |s| ==> IsSpace(s[i])
    ensures |r| > 0 ==> !IsSpace(r[|r| - 1])
    decreases |s|
  {
    if |s| > 0 && IsSpace(s[|s| - 1]) then TrimEnd(s[..|s| - 1]) else s
  }

  /** What `TrimEnd` removes is a suffix: the rest is a prefix of `s`. */
  lemma {:induction false} TrimEndPrefix(s: string)
    ensures TrimEnd(s) == s[..|TrimEnd(s)|]
    decreases |s|
  {
    if |s| > 0 && IsSpace(s[|s| - 1]) {
      TrimEndPrefix(s[..|s| - 1]);
      assert s[..|s| - 1][..|TrimEnd(s)|] == s[..|TrimEnd(s)|];
    }
  }

  /** `r` is `s` with whitespace cut from both ends and nothing else changed:
      a contiguous slice of `s`, everything outside it whitespace, and
      neither end of it whitespace. */
  ghost predicate IsStripped(s: string, r: string) {
    && (|r| > 0 ==> !IsSpace(r[0]) && !IsSpace(r[|r| - 1]))
    && exists a: nat :: StrippedAt(s, r, a)
  }

  /** `r` is the slice of `s` from `a`, with only whitespace around it */
  ghost predicate StrippedAt(s: string, r: string, a: nat) {
    && a + |r| <= |s|
    && s[a..][..|r|] == r
    && (forall i :: 0 <= i < a ==> IsSpace(s[i]))
    && (forall i :: a + |r| <= i < |s| ==> IsSpace(s[i]))
  }

  /** Python's `str.strip()` with no argument; `StripSpec` states what it
      leaves. */
  function Strip(s: string): (r: string)
    ensures |r| <= |s|
  {
    TrimEnd(TrimStart(s))
  }

  /** `Strip` cuts whitespace from both ends and nothing else. */
  lemma {:induction false} StripSpec(s: string)
    ensures IsStripped(s, Strip(s))
  {
    var t := TrimStart(s);
    var r := TrimEnd(t);
    TrimStartSuffix(s);
    TrimEndPrefix(t);
    var a := |s| - |t|;
    assert s[a..][..|r|] == r;
    assert StrippedAt(s, r, a);
    if |r| > 0 {
      assert r[0] == t[0];
    }
    forall i | a + |r| <= i < |s|
      ensures IsSpace(s[i])
    {
      assert s[i] == t[i - a];
    }
  }

  /** `IsStripped` fixes the result: there is one way to cut whitespace
      from both ends of a string. */
  lemma {:induction false} StripUnique(s: string, r1: string, r2: string)
    requires IsStripped(s, r1) && IsStripped(s, r2)
    ensures r1 == r2
  {
    var a1: nat :| StrippedAt(s, r1, a1);
    var a2: nat :| StrippedAt(s, r2, a2);
    if |r1| > 0 && |r2| > 0 {
      StrippedEnds(s, r1, a1);
      StrippedEnds(s, r2, a2);
      assert a1 == a2 && |r1| == |r2|;
    } else if |r1| > 0 {
      StrippedEnds(s, r1, a1);
    } else if |r2| > 0 {
      StrippedEnds(s, r2, a2);
    }
  }

  /** The ends of a stripped slice are its first and last non-whitespace
      characters in `s`. */
  lemma {:induction false} StrippedEnds(s: string, r: string, a: nat)
    requires StrippedAt(s, r, a) && |r| > 0 && !IsSpace(r[0]) && !IsSpace(r[|r| - 1])
    ensures !IsSpace(s[a]) && !IsSpace(s[a + |r| - 1])
    ensures r == s[a..a + |r|]
  {
    assert r[0] == s[a..][..|r|][0];
    assert r[|r| - 1] == s[a..][..|r|][|r| - 1];
  }

  /** A string with no whitespace at either end is its own strip. */
  lemma {:induction false} StripOfTrimmed(s: string)
    requires |s| > 0 ==> !IsSpace(s[0]) && !IsSpace(s[|s| - 1])
    ensures Strip(s) == s
  {
  }

  /** Stripping twice is stripping once. */
  lemma {:induction false} StripIdempotent(s: string)
    ensures Strip(Strip(s)) == Strip(s)
  {
    StripSpec(s);
    StripOfTrimmed(Strip(s));
  }

  /** `sub` occurs in `s` starting at index `i` */
  predicate OccursAt(s: string, sub: string, i: nat) {
    i + |sub| <= |s| && forall j :: 0 <= j < |sub| ==> s[i + j] == sub[j]
  }

  lemma {:induction false} OccursAtTail(s: string, sub: string)
    requires |s| > 0
    ensures forall i: nat :: OccursAt(s[1..], sub, i) <==> OccursAt(s, sub, i + 1)
  {
    forall i: nat
      ensures OccursAt(s[1..], sub, i) <==> OccursAt(s, sub, i + 1)
    {
      if i + |sub| <= |s| - 1 {
        assert s[1..][i..i + |sub|] == s[i + 1..i + 1 + |sub|];
      }
    }
  }

  lemma {:induction false} OccursAtPrefix(s: string, n: nat, sub: string, i: nat)
    requires n <= |s| && OccursAt(s[..n], sub, i)
    ensures OccursAt(s, sub, i) && i + |sub| <= n
  {
    assert s[..n][i..i + |sub|] == s[i..i + |sub|];
  }

  /** Index of the first occurrence of `sub` in `s`, None when there is none
      (Python's `str.find`, with None for -1). */
  function Find(s: string, sub: string): (r: Option<nat>)
    ensures r.Some? ==> OccursAt(s, sub, r.value)
    ensures r.Some? ==> forall i: nat :: i < r.value ==> !OccursAt(s, sub, i)
    ensures r.None? ==> forall i: nat :: !OccursAt(s, sub, i)
    decreases |s|
  {
    if |sub| <= |s| && s[..|sub|] == sub then
      Some(0)
    else if |s| == 0 then
      None
    else
      assert !OccursAt(s, sub, 0) by {
        if |sub| <= |s| {
          assert s[0..|sub|] == s[..|sub|];
        }
      }
      OccursAtTail(s, sub);
      assert forall i: nat :: OccursAt(s, sub, i) ==> i == 0 || OccursAt(s[1..], sub, i - 1);
      match Find(s[1..], sub)
      case None => None
      case Some(i) => Some(i + 1)
  }

  /** Python's `sub in s` */
  predicate Contains(s: string, sub: string) {
    Find(s, sub).Some?
  }

  /** `in` means: there is a position where `sub` occurs. */
  lemma {:induction false} ContainsIff(s: string, sub: string)
    ensures Contains(s, sub) <==> exists i: nat :: OccursAt(s, sub, i)
  {
  }

  /** Every prefix of `s` occurs in `s`. */
  lemma {:induction false} ContainsPrefix(s: string, n: nat)
    requires n <= |s|
    ensures Contains(s, s[..n])
  {
    assert OccursAt(s, s[..n], 0);
  }

  /** Whatever occurs in a prefix of `s` occurs in `s`. */
  lemma {:induction false} ContainsInPrefix(s: string, n: nat, sub: string)
    requires n <= |s| && Contains(s[..n], sub)
    ensures Contains(s, sub)
  {
    OccursAtPrefix(s, n, sub, Find(s[..n], sub).value);
  }

  /** Python's `sep.join(parts)` */
  function Join(parts: seq<string>, sep: string): string
    decreases |parts|
  {
    if |parts| == 0 then ""
    else if |parts| == 1 then parts[0]
    else parts[0] + sep + Join(parts[1..], sep)
  }

  /** Python's `s.split(sep)` for a non-empty separator: the pieces between
      the non-overlapping occurrences of `sep`, found left to right. Python
      raises ValueError for an empty separator. */
  function Split(s: string, sep: string): (r: seq<string>)
    requires |sep| > 0
    ensures |r| >= 1
    decreases |s|
  {
    match Find(s, sep)
    case None => [s]
    case Some(i) => [s[..i]] + Split(s[i + |sep|..], sep)
  }

  /** No piece of a split contains the separator. */
  lemma {:induction false} SplitPiecesLackSeparator(s: string, sep: string)
    requires |sep| > 0
    ensures forall k :: 0 <= k < |Split(s, sep)| ==> !Contains(Split(s, sep)[k], sep)
    decreases |s|
  {
    match Find(s, sep)
    case None =>
    case Some(i) =>
      var head := s[..i];
      var rest := s[i + |sep|..];
      if Contains(head, sep) {
        OccursAtPrefix(s, i, sep, Find(head, sep).value);
      }
      SplitPiecesLackSeparator(rest, sep);
      assert Split(s, sep) == [head] + Split(rest, sep);
  }

  /** One step of Split: the piece before the first separator, then the
      split of what follows it. */
  lemma {:induction false} SplitStep(s: string, sep: string, i: nat)
    requires |sep| > 0 && Find(s, sep) == Some(i)
    ensures i + |sep| <= |s|
    ensures Split(s, sep) == [s[..i]] + Split(s[i + |sep|..], sep)
  {
  }

  /** Split cuts at the first occurrence of the separator; it suffices that
      the separator's first character does not appear earlier. */
  lemma {:induction false} SplitAtFirst(s: string, sep: string, i: nat)
    requires |sep| > 0 && OccursAt(s, sep, i)
    requires forall j :: 0 <= j < i ==> s[j] != sep[0]
    ensures Split(s, sep) == [s[..i]] + Split(s[i + |sep|..], sep)
  {
    forall j: nat | j < i
      ensures !OccursAt(s, sep, j)
    {
      assert s[j + 0] != sep[0];
    }
    assert Find(s, sep) == Some(i);
    SplitStep(s, sep, i);
  }

  /** A string in which the separator's first character does not appear is
      split into itself alone. */
  lemma {:induction false} SplitWithoutSeparator(s: string, sep: string)
    requires |sep| > 0
    requires forall j :: 0 <= j < |s| ==> s[j] != sep[0]
    ensures Split(s, sep) == [s]
  {
    forall j: nat
      ensures !OccursAt(s, sep, j)
    {
      if j + |sep| <= |s| {
        assert s[j + 0] != sep[0];
      }
    }
  }

  /** The separator's first character does not occur in `s` */
  predicate LacksFirstOf(s: string, sep: string)
    requires |sep| > 0
  {
    forall j :: 0 <= j < |s| ==> s[j] != sep[0]
  }

  /** Joining pieces that do not contain the separator's first character and
      splitting again gives the pieces back. */
  lemma {:induction false} SplitJoin(parts: seq<string>, sep: string)
    requires |sep| > 0 && |parts| >= 1
    requires forall k :: 0 <= k < |parts| ==> LacksFirstOf(parts[k], sep)
    ensures Split(Join(parts, sep), sep) == parts
    decreases |parts|
  {
    if |parts| == 1 {
      SplitWithoutSeparator(parts[0], sep);
    } else {
      var head := parts[0];
      var rest := Join(parts[1..], sep);
      var s := head + sep + rest;
      assert s[|head|..|head| + |sep|] == sep;
      assert s[..|head|] == head;
      assert s[|head| + |sep|..] == rest;
      SplitAtFirst(s, sep, |head|);
      SplitJoin(parts[1..], sep);
    }
  }

  lemma {:induction false} JoinCons(head: string, tail: seq<string>, sep: string)
    requires |tail| > 0
    ensures Join([head] + tail, sep) == head + sep + Join(tail, sep)
  {
    assert ([head] + tail)[1..] == tail;
  }

  lemma {:induction false} ConcatAround(s: string, i: nat, sep: string)
    requires OccursAt(s, sep, i)
    ensures s[..i] + sep + s[i + |sep|..] == s
  {
    assert s == s[..i] + s[i..i + |sep|] + s[i + |sep|..];
  }

  /** Splitting and joining back with the same separator gives the input. */
  lemma {:induction false} JoinSplit(s: string, sep: string)
    requires |sep| > 0
    ensures Join(Split(s, sep), sep) == s
    decreases |s|
  {
    var found := Find(s, sep);
    if found.Some? {
      var i := found.value;
      var rest := s[i + |sep|..];
      SplitStep(s, sep, i);
      JoinSplit(rest, sep);
      JoinCons(s[..i], Split(rest, sep), sep);
      ConcatAround(s, i, sep);
    }
  }

  /** Python's `s.endswith(suffix)` */
  predicate EndsWith(s: string, suffix: string) {
    |suffix| <= |s| && s[|s| - |suffix|..] == suffix
  }

  /** Python's `str.removesuffix(suffix)` */
  function RemoveSuffix(s: string, suffix: string): (r: string)
    ensures |r| <= |s| && r == s[..|r|]
    ensures EndsWith(s, suffix) ==> r + suffix == s
    ensures !EndsWith(s, suffix) ==> r == s
  {
    if |suffix| > 0 && EndsWith(s, suffix) then s[..|s| - |suffix|] else s
  }
}
