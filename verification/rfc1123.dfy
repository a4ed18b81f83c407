/** The label sanitiser (`ToRFC1123Label`, pkg/utils/utils.go). */
module Rfc1123 {

  const MAX_LENGTH := 63

  predicate IsAlphanumeric(c: char) { 'a' <= c <= 'z' || '0' <= c <= '9' }

  predicate IsLabelChar(c: char) { IsAlphanumeric(c) || c == '-' }

  /** `unicode.ToLower`; `other` stands for its table beyond ASCII, which the laws do not depend on. */
  function Lower(c: char, other: char -> char): char {
    if 'A' <= c <= 'Z' then c + 32 as char
    else if c < 128 as char then c
    else other(c)
  }

  function Sanitize(c: char, other: char -> char): char {
    if IsLabelChar(Lower(c, other)) then Lower(c, other) else '-'
  }

  /** Lower case, with every invalid character replaced by a dash. */
  function SanitizeAll(s: string, other: char -> char): (r: string)
    ensures |r| == |s| && forall i :: 0 <= i < |s| ==> r[i] == Sanitize(s[i], other)
  {
    seq(|s|, i requires 0 <= i < |s| => Sanitize(s[i], other))
  }

  /** Replaces every run of dashes by one dash. */
  function Collapse(s: string): string {
    if s == "" then ""
    else
      var r := Collapse(s[..|s| - 1]);
      if s[|s| - 1] == '-' && r != "" && r[|r| - 1] == '-' then r else r + [s[|s| - 1]]
  }

  function TrimLeft(s: string): string {
    if s != "" && s[0] == '-' then
      TrimLeft(s[1..])
    else s
  }

  function TrimRight(s: string): string {
    if s != "" && s[|s| - 1] == '-' then
      TrimRight(s[..|s| - 1])
    else s
  }

  function Truncate(s: string): string {
    if |s| > MAX_LENGTH then s[..MAX_LENGTH] else s
  }

  function Label(s: string, other: char -> char): string {
    TrimRight(TrimLeft(Truncate(Collapse(SanitizeAll(s, other)))))
  }

  /** Trimming removes exactly the leading, respectively trailing, dashes. */
  lemma {:induction false} TrimLeftCuts(s: string)
    ensures var r := TrimLeft(s);
            && (r == "" || r[0] != '-')
            && |r| <= |s| && r == s[|s| - |r|..] && forall i :: 0 <= i < |s| - |r| ==> s[i] == '-'
  {
    if s != "" && s[0] == '-' {
      TrimLeftCuts(s[1..]);
    }
  }

  lemma {:induction false} TrimRightCuts(s: string)
    ensures var r := TrimRight(s);
            && (r == "" || r[|r| - 1] != '-')
            && r <= s && forall i :: |r| <= i < |s| ==> s[i] == '-'
  {
    if s != "" && s[|s| - 1] == '-' {
      TrimRightCuts(s[..|s| - 1]);
    }
  }

  /** The staged rewrite, with its trim loop. */
  method ToRFC1123Label(str: string, other: char -> char) returns (name: string)
    ensures name == Label(str, other)
    ensures name == "" || IsLabel(name)
  {
    name := Collapse(SanitizeAll(str, other));
    if |name| > MAX_LENGTH {
      name := name[..MAX_LENGTH];
    }
    ghost var truncated := name;
    while name != "" && (name[0] == '-' || name[|name| - 1] == '-')
      invariant TrimRight(TrimLeft(name)) == TrimRight(TrimLeft(truncated))
      decreases |name|
    {
      TrimTwice(name);
      TrimLeftCuts(name);
      TrimRightCuts(TrimLeft(name));
      name := TrimRight(TrimLeft(name));
    }
    assert TrimRight(TrimLeft(name)) == name;
    LabelIsValid(str, other);
  }

  lemma TrimTwice(s: string)
    ensures var r := TrimRight(TrimLeft(s)); TrimRight(TrimLeft(r)) == r
  {
    var l := TrimLeft(s);
    var r := TrimRight(l);
    TrimLeftCuts(s);
    TrimRightCuts(l);
    assert r != "" ==> r[0] == l[0];
  }

  // ---------------------------------------------------------------------------
  // Laws
  // ---------------------------------------------------------------------------

  /** Character by character: letters in lower case, digits and dashes stay, every
      other ASCII character becomes a dash. */
  lemma SanitizeLaw(c: char, other: char -> char)
    ensures 'a' <= c <= 'z' || '0' <= c <= '9' || c == '-' ==> Sanitize(c, other) == c
    ensures 'A' <= c <= 'Z' ==> Sanitize(c, other) as int - 'a' as int == c as int - 'A' as int
    ensures c < 128 as char && !('a' <= c <= 'z' || 'A' <= c <= 'Z' || '0' <= c <= '9') ==> Sanitize(c, other) == '-'
    ensures c >= 128 as char ==>
              Sanitize(c, other) == if 'a' <= other(c) <= 'z' || '0' <= other(c) <= '9' then other(c) else '-'
  {
  }

  /** Two dashes in a row are worth one. With `CollapseIdentity` this determines `Collapse`. */
  lemma {:induction false} CollapseTwo(a: string, b: string)
    ensures Collapse(a + "--" + b) == Collapse(a + "-" + b)
  {
    var two, one := a + "--" + b, a + "-" + b;
    if b == "" {
      assert two == a + "-" + "-" && two[..|two| - 1] == one && one == a + "-";
      assert one[..|one| - 1] == a;
    } else {
      var init := b[..|b| - 1];
      assert two[..|two| - 1] == a + "--" + init && one[..|one| - 1] == a + "-" + init;
      CollapseTwo(a, init);
    }
  }

  /** What survives: the label is the collapsed text, cut after 63 characters,
      without the dashes at its ends. */
  lemma LabelKeeps(s: string, other: char -> char) returns (i: nat, j: nat)
    ensures var c := Collapse(SanitizeAll(s, other));
            && i <= j <= |c| && j <= 63 && Label(s, other) == c[i..j]
            && (forall k :: 0 <= k < i ==> c[k] == '-')
            && (forall k :: j <= k < |c| && k < 63 ==> c[k] == '-')
  {
    var t := Truncate(Collapse(SanitizeAll(s, other)));
    var l := TrimLeft(t);
    TrimLeftCuts(t);
    TrimRightCuts(l);
    i := |t| - |l|;
    j := i + |TrimRight(l)|;
  }

  ghost predicate DoubleDashAt(s: string, i: int) {
    0 <= i && i + 1 < |s| && s[i] == '-' && s[i + 1] == '-'
  }

  ghost predicate NoDoubleDash(s: string) {
    forall i :: !DoubleDashAt(s, i)
  }

  ghost predicate OnlyDashes(s: string) {
    forall i :: 0 <= i < |s| ==> s[i] == '-'
  }

  /** A label: 1 to 63 characters over `[a-z0-9-]`, no leading, trailing or doubled dash. */
  ghost predicate IsLabel(s: string) {
    && 0 < |s| <= 63
    && (forall c :: c in s ==> IsLabelChar(c))
    && s[0] != '-' && s[|s| - 1] != '-'
    && NoDoubleDash(s)
  }

  /** Collapsing keeps the alphabet, removes doubled dashes and keeps the last character. */
  lemma {:induction false} CollapseSound(s: string)
    requires forall c :: c in s ==> IsLabelChar(c)
    ensures (forall c :: c in Collapse(s) ==> IsLabelChar(c)) && NoDoubleDash(Collapse(s))
    ensures OnlyDashes(s) <==> OnlyDashes(Collapse(s))
  {
    if s != "" {
      var init, last := s[..|s| - 1], s[|s| - 1];
      assert last in s && forall c :: c in init ==> c in s;
      CollapseSound(init);
      var r := Collapse(init);
      if last == '-' && r != "" && r[|r| - 1] == '-' {
      } else {
        forall i ensures !DoubleDashAt(r + [last], i) {
          assert DoubleDashAt(r + [last], i) && i + 1 < |r| ==> DoubleDashAt(r, i);
        }
        assert (r + [last])[|r|] == last;
        assert OnlyDashes(r + [last]) ==> OnlyDashes(r) by {
          assert forall i :: 0 <= i < |r| ==> (r + [last])[i] == r[i];
        }
      }
      assert OnlyDashes(s) <==> OnlyDashes(init) && last == '-';
    }
  }

  /** A slice of a text without doubled dashes has none. */
  lemma SliceNoDoubleDash(s: string, i: nat, j: nat)
    requires i <= j <= |s| && NoDoubleDash(s)
    ensures NoDoubleDash(s[i..j])
  {
    forall k ensures !DoubleDashAt(s[i..j], k) {
      assert DoubleDashAt(s[i..j], k) ==> DoubleDashAt(s, i + k);
    }
  }

  lemma {:induction false} CollapseIdentity(s: string)
    requires NoDoubleDash(s)
    ensures Collapse(s) == s
  {
    if s != "" {
      var n := |s| - 1;
      SliceNoDoubleDash(s, 0, n);
      CollapseIdentity(s[..n]);
      assert s == s[..n] + [s[n]];
      assert !DoubleDashAt(s, n - 1);
    }
  }

  lemma SanitizedChars(s: string, other: char -> char)
    ensures forall c :: c in SanitizeAll(s, other) ==> IsLabelChar(c)
  {
  }

  ghost predicate Collapsed(s: string) {
    (forall c :: c in s ==> IsLabelChar(c)) && NoDoubleDash(s)
  }

  lemma SliceCollapsed(s: string, r: string, i: nat)
    requires Collapsed(s) && i + |r| <= |s| && r == s[i..i + |r|]
    ensures Collapsed(r)
  {
    SliceNoDoubleDash(s, i, i + |r|);
    assert forall c :: c in r ==> c in s;
  }

  /** Truncating and trimming a collapsed text leaves nothing or a label. */
  lemma TrimmedIsLabel(c: string)
    requires Collapsed(c)
    ensures var r := TrimRight(TrimLeft(Truncate(c))); r == "" || IsLabel(r)
  {
    var t := Truncate(c);
    SliceCollapsed(c, t, 0);
    var l := TrimLeft(t);
    TrimLeftCuts(t);
    SliceCollapsed(t, l, |t| - |l|);
    var r := TrimRight(l);
    TrimRightCuts(l);
    SliceCollapsed(l, r, 0);
    assert r != "" ==> r[0] == l[0];
  }

  /** The output is empty or a label, whatever the input. */
  lemma LabelIsValid(s: string, other: char -> char)
    ensures Label(s, other) == "" || IsLabel(Label(s, other))
  {
    SanitizedChars(s, other);
    CollapseSound(SanitizeAll(s, other));
    TrimmedIsLabel(Collapse(SanitizeAll(s, other)));
  }

  /** On the empty text and on labels it is the identity. */
  lemma LabelIdentity(s: string, other: char -> char)
    requires s == "" || IsLabel(s)
    ensures Label(s, other) == s
  {
    SanitizeIdentity(s, other);
    assert s == "" ==> NoDoubleDash(s);
    CollapseIdentity(s);
  }

  lemma SanitizeIdentity(s: string, other: char -> char)
    requires forall c :: c in s ==> IsLabelChar(c)
    ensures SanitizeAll(s, other) == s
  {
    forall i | 0 <= i < |s| ensures Sanitize(s[i], other) == s[i] {
      assert s[i] in s;
    }
  }

  lemma LabelIdempotent(s: string, other: char -> char)
    ensures Label(Label(s, other), other) == Label(s, other)
  {
    LabelIsValid(s, other);
    LabelIdentity(Label(s, other), other);
  }

  /** The output is empty exactly when no character of the input is
      alphanumeric after lower-casing: truncation never loses the whole name. */
  lemma LabelEmptyIff(s: string, other: char -> char)
    ensures Label(s, other) == "" <==> forall i :: 0 <= i < |s| ==> !IsAlphanumeric(Lower(s[i], other))
  {
    var clean := SanitizeAll(s, other);
    assert forall i :: 0 <= i < |s| ==> (clean[i] == '-' <==> !IsAlphanumeric(Lower(s[i], other)));
    SanitizedChars(s, other);
    CollapseSound(clean);
    TrimsToEmptyIff(Collapse(clean));
  }

  lemma TrimsToEmptyIff(c: string)
    requires NoDoubleDash(c)
    ensures TrimRight(TrimLeft(Truncate(c))) == "" <==> OnlyDashes(c)
  {
    var t := Truncate(c);
    var l := TrimLeft(t);
    var r := TrimRight(l);
    TrimLeftCuts(t);
    TrimRightCuts(l);
    if r == "" {
      assert l == "";
      assert !DoubleDashAt(c, 0);
      assert t == c;
    } else {
      assert c[|t| - |l|] == t[|t| - |l|] == l[0];
    }
  }
}
