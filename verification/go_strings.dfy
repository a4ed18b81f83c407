/** The operations of Go's `strings` package that the package-URL code uses,
    and an option type shared by the modules. */
module GoStrings {

  datatype Option<+T> = None | Some(value: T)

  /** The last element of a concatenation, and what is before it. */
  lemma InitOfConcat<T>(a: seq<T>, b: seq<T>)
    requires b != []
    ensures (a + b)[|a + b| - 1] == b[|b| - 1] && (a + b)[..|a + b| - 1] == a + b[..|b| - 1]
  {
  }

  lemma CutAt<T>(s: seq<T>, i: nat)
    requires i < |s|
    ensures s == s[..i] + [s[i]] + s[i + 1..]
  {
  }

  /** Position `i` is the first one where the condition holds. */
  ghost predicate IsFirstWhere<T(!new)>(s: seq<T>, i: int, p: T -> bool) {
    0 <= i < |s| && p(s[i]) && forall j :: 0 <= j < i ==> !p(s[j])
  }

  lemma FirstBehind<T(!new)>(x: T, rest: seq<T>, i: int, p: T -> bool)
    requires IsFirstWhere(rest, i, p) && !p(x)
    ensures IsFirstWhere([x] + rest, i + 1, p)
  {
    var s := [x] + rest;
    forall j | 0 <= j < i + 1 ensures !p(s[j]) {
      assert s[j] == if j == 0 then x else rest[j - 1];
    }
  }

  predicate HasPrefix(s: string, p: string) { p <= s }

  predicate HasSuffix(s: string, p: string) {
    |p| <= |s| && s[|s| - |p|..] == p
  }

  function TrimPrefix(s: string, p: string): string {
    if HasPrefix(s, p) then s[|p|..] else s
  }

  function TrimSuffix(s: string, p: string): string {
    if HasSuffix(s, p) then s[..|s| - |p|] else s
  }

  /** The index of the last `c` in `s`, or -1. */
  function LastIndex(s: string, c: char): (r: int)
    ensures -1 <= r < |s|
    ensures r >= 0 ==> s[r] == c
    ensures forall i :: r < i < |s| ==> s[i] != c
  {
    if s == [] then -1
    else if s[|s| - 1] == c then |s| - 1
    else LastIndex(s[..|s| - 1], c)
  }

  /** The index of the first `c` in `s`, or -1. */
  function Index(s: string, c: char): (r: int)
    ensures -1 <= r < |s|
    ensures r >= 0 ==> s[r] == c && c !in s[..r]
    ensures r < 0 ==> c !in s
  {
    if s == [] then -1
    else if s[0] == c then 0
    else
      var r := Index(s[1..], c);
      assert r >= 0 ==> s[..r + 1] == [s[0]] + s[1..][..r];
      if r < 0 then -1 else r + 1
  }

  /** `sub` occurs in `s` at position `i`. */
  predicate OccursAt(s: string, sub: string, i: nat) {
    i + |sub| <= |s| && s[i..i + |sub|] == sub
  }

  predicate Contains(s: string, sub: string) {
    exists i: nat | i <= |s| :: OccursAt(s, sub, i)
  }

  /** The first occurrence of `sub`, or the length of `s` when there is none. */
  function FirstOccurrence(s: string, sub: string, from: nat): (r: nat)
    requires from <= |s|
    ensures from <= r <= |s|
    decreases |s| - from
  {
    if from == |s| || OccursAt(s, sub, from) then from else FirstOccurrence(s, sub, from + 1)
  }

  /** `strings.Replace(s, sub, "", 1)`. */
  function RemoveFirst(s: string, sub: string): string {
    var i := FirstOccurrence(s, sub, 0);
    if OccursAt(s, sub, i) then s[..i] + s[i + |sub|..] else s
  }

  lemma {:induction false} FirstOccurrenceAt(s: string, sub: string, from: nat, k: nat)
    requires from <= k <= |s| && OccursAt(s, sub, k) && forall j: nat :: from <= j < k ==> !OccursAt(s, sub, j)
    ensures FirstOccurrence(s, sub, from) == k
    decreases k - from
  {
    if from < k {
      FirstOccurrenceAt(s, sub, from + 1, k);
    }
  }

  /** Only the first occurrence is removed; without one the text stays. */
  lemma {:induction false} RemoveFirstAt(s: string, sub: string, k: nat)
    requires k <= |s| && forall j: nat :: j < k ==> !OccursAt(s, sub, j)
    ensures OccursAt(s, sub, k) ==> RemoveFirst(s, sub) == s[..k] + s[k + |sub|..]
    ensures k == |s| && !OccursAt(s, sub, k) ==> RemoveFirst(s, sub) == s
  {
    if OccursAt(s, sub, k) {
      FirstOccurrenceAt(s, sub, 0, k);
    } else if k == |s| {
      NoOccurrence(s, sub, 0);
    }
  }

  lemma {:induction false} NoOccurrence(s: string, sub: string, from: nat)
    requires from <= |s| && forall j: nat :: j <= |s| ==> !OccursAt(s, sub, j)
    ensures FirstOccurrence(s, sub, from) == |s|
    decreases |s| - from
  {
    if from < |s| {
      NoOccurrence(s, sub, from + 1);
    }
  }

  lemma LastIndexIs(s: string, c: char, k: nat)
    requires k < |s| && s[k] == c && forall i :: k < i < |s| ==> s[i] != c
    ensures LastIndex(s, c) == k
  {
  }

  /** The last `c` of `a + [c] + b` is the one shown when `b` has none. */
  lemma {:induction false} LastIndexOf(a: string, c: char, b: string)
    requires c !in b
    ensures LastIndex(a + [c] + b, c) == |a|
  {
    LastIndexIs(a + [c] + b, c, |a|);
  }

  lemma LastIndexNone(s: string, c: char)
    requires c !in s
    ensures LastIndex(s, c) == -1
  {
  }

  lemma OccursChar(s: string, sub: string, i: nat, k: nat)
    requires OccursAt(s, sub, i) && k < |sub|
    ensures s[i + k] in sub
  {
  }

  lemma OccursInside(a: string, b: string, sub: string, i: nat)
    ensures i + |sub| <= |a| ==> (OccursAt(a + b, sub, i) <==> OccursAt(a, sub, i))
    ensures OccursAt(a + b, sub, |a| + i) <==> OccursAt(b, sub, i)
  {
  }

  /** A text without the character `d` cannot straddle a `d`. */
  lemma NoStraddle(a: string, b: string, sub: string)
    requires b != [] && b[0] !in sub
    ensures Contains(a + b, sub) <==> Contains(a, sub) || Contains(b, sub)
  {
    var s := a + b;
    if i: nat :| i <= |s| && OccursAt(s, sub, i) {
      if i + |sub| <= |a| {
        OccursInside(a, b, sub, i);
        assert OccursAt(a, sub, i);
      } else if i >= |a| {
        OccursInside(a, b, sub, i - |a|);
        assert OccursAt(b, sub, i - |a|);
      } else {
        OccursChar(s, sub, i, |a| - i);
        assert false;
      }
    }
    if i: nat :| i <= |a| && OccursAt(a, sub, i) {
      OccursInside(a, b, sub, i);
      assert OccursAt(s, sub, i);
    }
    if i: nat :| i <= |b| && OccursAt(b, sub, i) {
      OccursInside(a, b, sub, i);
      assert OccursAt(s, sub, |a| + i);
    }
  }

  /** The parts of `s` between separators; always at least one. */
  function Split(s: string, sep: char): (r: seq<string>)
    ensures r != []
    decreases |s|
  {
    var i := LastIndex(s, sep);
    if i == -1 then [s] else Split(s[..i], sep) + [s[i + 1..]]
  }

  lemma {:induction false} SplitParts(s: string, sep: char)
    ensures forall e :: e in Split(s, sep) ==> sep !in e
  {
    var i := LastIndex(s, sep);
    if i != -1 {
      SplitParts(s[..i], sep);
    }
  }

  function Rejoin(parts: seq<string>, sep: char): string
    requires parts != []
  {
    if |parts| == 1 then parts[0] else Rejoin(parts[..|parts| - 1], sep) + [sep] + parts[|parts| - 1]
  }

  /** The parts with the separator between them give the text back. */
  lemma {:induction false} SplitRejoin(s: string, sep: char)
    ensures Rejoin(Split(s, sep), sep) == s
    decreases |s|
  {
    var i := LastIndex(s, sep);
    if i != -1 {
      SplitRejoin(s[..i], sep);
      var parts := Split(s[..i], sep);
      assert (parts + [s[i + 1..]])[..|parts|] == parts;
      CutAt(s, i);
    }
  }

  lemma SplitSnoc(s: string, sep: char, last: string)
    requires sep !in last
    ensures Split(s + [sep] + last, sep) == Split(s, sep) + [last]
  {
    LastIndexOf(s, sep, last);
    assert (s + [sep] + last)[..|s|] == s && (s + [sep] + last)[|s| + 1..] == last;
  }

  lemma SplitNone(s: string, sep: char)
    requires sep !in s
    ensures Split(s, sep) == [s]
  {
    LastIndexNone(s, sep);
  }

  lemma {:induction false} SplitLeadingNone(s: string, sep: char)
    requires sep !in s
    ensures Split([sep] + s, sep) == [""] + Split(s, sep)
  {
    SplitNone("", sep);
    SplitNone(s, sep);
    SplitSnoc("", sep, s);
    assert "" + [sep] + s == [sep] + s;
  }

  lemma ConsSnoc(x: string, parts: seq<string>, y: string)
    ensures [x] + (parts + [y]) == [x] + parts + [y]
  {
  }

  lemma ConsJoined(c: char, a: string, d: char, b: string)
    ensures [c] + (a + [d] + b) == ([c] + a) + [d] + b
  {
  }

  /** One more part at the end. */
  lemma {:induction false} SplitLeadingStep(a: string, sep: char, b: string)
    requires sep !in b && Split([sep] + a, sep) == [""] + Split(a, sep)
    ensures Split([sep] + (a + [sep] + b), sep) == [""] + Split(a + [sep] + b, sep)
  {
    ConsJoined(sep, a, sep, b);
    SplitSnoc([sep] + a, sep, b);
    SplitSnoc(a, sep, b);
    ConsSnoc("", Split(a, sep), b);
  }

  lemma {:induction false} SplitLeading(s: string, sep: char)
    ensures Split([sep] + s, sep) == [""] + Split(s, sep)
    decreases |s|
  {
    var i := LastIndex(s, sep);
    if i == -1 {
      SplitLeadingNone(s, sep);
    } else {
      SplitLeading(s[..i], sep);
      CutAt(s, i);
      SplitLeadingStep(s[..i], sep, s[i + 1..]);
    }
  }
}
