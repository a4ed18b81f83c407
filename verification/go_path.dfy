/** Go's `filepath.Join` and `filepath.Clean` on slash-separated paths, and what
    it means for a file to be at or under a mount path. */
module GoPath {
  import opened GoStrings

  predicate Rooted(p: string) { p != "" && p[0] == '/' }

  /** Lexical processing of path elements: empty and `.` elements vanish, `..`
      removes the element before it, vanishes at the root, and stays at the
      start of a relative path. */
  function Normalize(elems: seq<string>, rooted: bool): seq<string> {
    if elems == [] then []
    else
      var before, e := Normalize(elems[..|elems| - 1], rooted), elems[|elems| - 1];
      if e == "" || e == "." then before
      else if e != ".." then before + [e]
      else if before != [] && before[|before| - 1] != ".." then before[..|before| - 1]
      else if rooted then before
      else before + [e]
  }

  function Elements(p: string): seq<string> {
    Normalize(Split(p, '/'), Rooted(p))
  }

  function JoinSlash(elems: seq<string>): string
    requires elems != []
  {
    if |elems| == 1 then elems[0] else JoinSlash(elems[..|elems| - 1]) + ['/'] + elems[|elems| - 1]
  }

  function Render(elems: seq<string>, rooted: bool): string {
    if elems == [] then (if rooted then "/" else ".")
    else if rooted then ['/'] + JoinSlash(elems)
    else JoinSlash(elems)
  }

  function Clean(p: string): string {
    Render(Elements(p), Rooted(p))
  }

  function Join(dir: string, file: string): string {
    if dir == "" && file == "" then ""
    else if dir == "" then Clean(file)
    else if file == "" then Clean(dir)
    else Clean(dir + ['/'] + file)
  }

  /** `file` is `dir` or lies below it. */
  predicate AtOrUnder(file: string, dir: string) {
    Rooted(file) == Rooted(dir) && Elements(dir) <= Elements(file)
  }

  /** A ConfigMap or Secret key: a single ordinary path element. */
  predicate IsKey(file: string) {
    file != "" && '/' !in file && file != "." && file != ".."
  }

  // ---------------------------------------------------------------------------

  ghost predicate NormalAt(elems: seq<string>, rooted: bool, i: nat)
    requires i < |elems|
  {
    && elems[i] != "" && elems[i] != "." && '/' !in elems[i]
    && (elems[i] == ".." ==> !rooted && (i == 0 || elems[i - 1] == ".."))
  }

  ghost predicate Normal(elems: seq<string>, rooted: bool) {
    forall i: nat :: i < |elems| ==> NormalAt(elems, rooted, i)
  }

  lemma NormalSnoc(elems: seq<string>, rooted: bool, e: string)
    ensures Normal(elems + [e], rooted) <==> Normal(elems, rooted) && NormalAt(elems + [e], rooted, |elems|)
  {
    var all := elems + [e];
    forall i: nat | i < |elems| ensures NormalAt(all, rooted, i) <==> NormalAt(elems, rooted, i) {
    }
  }

  lemma {:induction false} NormalizeNormal(elems: seq<string>, rooted: bool)
    requires forall e :: e in elems ==> '/' !in e
    ensures Normal(Normalize(elems, rooted), rooted)
  {
    if elems != [] {
      var init, e := elems[..|elems| - 1], elems[|elems| - 1];
      assert e in elems && forall x :: x in init ==> x in elems;
      NormalizeNormal(init, rooted);
      var before := Normalize(init, rooted);
      NormalSnoc(before, rooted, e);
      if before != [] {
        var n := |before| - 1;
        assert before == before[..n] + [before[n]];
        NormalSnoc(before[..n], rooted, before[n]);
      }
    }
  }

  lemma {:induction false} NormalizeIdentity(elems: seq<string>, rooted: bool)
    requires Normal(elems, rooted)
    ensures Normalize(elems, rooted) == elems
  {
    if elems != [] {
      var n := |elems| - 1;
      assert elems == elems[..n] + [elems[n]];
      NormalSnoc(elems[..n], rooted, elems[n]);
      NormalizeIdentity(elems[..n], rooted);
    }
  }

  lemma {:induction false} NormalizeLeadingSlash(elems: seq<string>, rooted: bool)
    ensures Normalize([""] + elems, rooted) == Normalize(elems, rooted)
  {
    if elems == [] {
      assert [""] + elems == [""] && [""][..0] == [];
    } else {
      InitOfConcat([""], elems);
      NormalizeLeadingSlash(elems[..|elems| - 1], rooted);
    }
  }

  lemma {:induction false} SplitJoin(elems: seq<string>)
    requires elems != [] && forall e :: e in elems ==> '/' !in e
    ensures Split(JoinSlash(elems), '/') == elems
  {
    if |elems| > 1 {
      var init, last := elems[..|elems| - 1], elems[|elems| - 1];
      assert last in elems && forall e :: e in init ==> e in elems;
      SplitJoin(init);
      SplitSnoc(JoinSlash(init), '/', last);
      assert elems == init + [last];
    } else {
      assert elems[0] in elems;
    }
  }

  lemma RelativeJoin(elems: seq<string>)
    requires elems != [] && elems[0] != "" && '/' !in elems[0]
    ensures JoinSlash(elems) != "" && JoinSlash(elems)[0] == elems[0][0]
  {
  }

  /** Cleaning a path keeps what it denotes. */
  lemma CleanKeeps(p: string)
    ensures Elements(Clean(p)) == Elements(p) && Rooted(Clean(p)) == Rooted(p)
  {
    var elems, rooted := Elements(p), Rooted(p);
    SplitParts(p, '/');
    NormalizeNormal(Split(p, '/'), rooted);
    NormalizeIdentity(elems, rooted);
    if elems == [] {
      RenderRoot(rooted);
    } else {
      assert NormalAt(elems, rooted, 0);
      forall e | e in elems ensures '/' !in e {
        var i: nat :| i < |elems| && elems[i] == e;
        assert NormalAt(elems, rooted, i);
      }
      SplitJoin(elems);
      RelativeJoin(elems);
      if rooted {
        SplitLeading(JoinSlash(elems), '/');
        NormalizeLeadingSlash(elems, rooted);
      }
    }
  }

  lemma RenderRoot(rooted: bool)
    ensures var r := Render([], rooted); Elements(r) == [] && Rooted(r) == rooted
  {
    if rooted {
      SplitLeading("", '/');
      assert ['/'] + "" == "/";
      assert Split("/", '/') == [""] + [""];
      NormalizeLeadingSlash([""], true);
      assert [""][..0] == [];
    } else {
      assert Split(".", '/') == ["."] && ["."][..0] == [];
    }
  }

  lemma SingleElement(e: string)
    requires '/' !in e && e != "." && e != ".."
    ensures Elements(e) == if e == "" then [] else [e]
  {
    LastIndexNone(e, '/');
    assert Split(e, '/') == [e];
    assert [e][..0] == [];
    assert Normalize([], Rooted(e)) == [];
    assert Normalize([e], Rooted(e)) == if e == "" then [] else [] + [e];
  }

  /** A key joined to a directory names one element below it. */
  lemma JoinUnder(dir: string, file: string)
    requires IsKey(file)
    ensures AtOrUnder(Join(dir, file), dir)
    ensures Elements(Join(dir, file)) == Elements(dir) + [file]
  {
    if dir == "" {
      SingleElement(file);
      SingleElement("");
      CleanKeeps(file);
    } else {
      SplitSnoc(dir, '/', file);
      assert (Split(dir, '/') + [file])[..|Split(dir, '/')|] == Split(dir, '/');
      CleanKeeps(dir + ['/'] + file);
    }
  }

  /** Clean paths are canonical: they are equal exactly when they denote the same. */
  lemma CleanCanonical(p: string, q: string)
    ensures Clean(p) == Clean(q) <==> Elements(p) == Elements(q) && Rooted(p) == Rooted(q)
  {
    CleanKeeps(p);
    CleanKeeps(q);
  }

  /** How a clean path is written: `/`, `.`, or the elements with one slash between
      them, behind a slash when it is rooted. */
  lemma CleanShape(p: string)
    ensures Elements(p) == [] ==> Clean(p) == if Rooted(p) then "/" else "."
    ensures Elements(p) != [] ==> Split(Clean(p), '/') == (if Rooted(p) then [""] else []) + Elements(p)
  {
    var elems, rooted := Elements(p), Rooted(p);
    SplitParts(p, '/');
    NormalizeNormal(Split(p, '/'), rooted);
    if elems != [] {
      forall e | e in elems ensures '/' !in e {
        var i: nat :| i < |elems| && elems[i] == e;
        assert NormalAt(elems, rooted, i);
      }
      SplitJoin(elems);
      SplitLeading(JoinSlash(elems), '/');
      assert [] + elems == elems;
    }
  }

  /** A joined path is clean, unless there was nothing to join. */
  lemma JoinIsClean(dir: string, file: string)
    ensures Join("", "") == ""
    ensures dir != "" || file != "" ==> Clean(Join(dir, file)) == Join(dir, file)
  {
    CleanKeeps(dir);
    CleanKeeps(file);
    CleanKeeps(dir + ['/'] + file);
  }

  /** Joining nothing changes nothing but the spelling. */
  lemma JoinNothing(dir: string)
    requires dir != ""
    ensures Elements(Join(dir, "")) == Elements(dir) && Rooted(Join(dir, "")) == Rooted(dir)
  {
    CleanKeeps(dir);
  }

  /** `..` takes back the element before it ... */
  lemma UpAgain(dir: string, e: string)
    requires dir != "" && IsKey(e)
    ensures Elements(dir + ['/'] + e + ['/'] + "..") == Elements(dir)
  {
    var p := dir + ['/'] + e;
    SplitSnoc(dir, '/', e);
    SplitSnoc(p, '/', "..");
    assert Rooted(p + ['/'] + "..") == Rooted(dir);
    UpAndDown(Split(dir, '/'), e, Rooted(dir));
  }

  lemma {:induction false} UpAndDown(parts: seq<string>, e: string, rooted: bool)
    requires IsKey(e)
    ensures Normalize(parts + [e] + [".."], rooted) == Normalize(parts, rooted)
  {
    NormalizeSnoc(parts, e, rooted);
    NormalizeSnoc(parts + [e], "..", rooted);
  }

  lemma {:induction false} NormalizeSnoc(parts: seq<string>, e: string, rooted: bool)
    ensures var before := Normalize(parts, rooted);
            && (IsKey(e) ==> Normalize(parts + [e], rooted) == before + [e])
            && (e == ".." && before != [] && before[|before| - 1] != ".." ==>
                Normalize(parts + [e], rooted) == before[..|before| - 1])
  {
    assert (parts + [e])[..|parts|] == parts;
  }

  /** ... but cannot leave the root; empty elements and `.` count for nothing. */
  lemma NothingAbove(dir: string, e: string)
    requires dir != "" && e in {"", ".", ".."}
    ensures e != ".." || (Rooted(dir) && Elements(dir) == []) ==> Elements(dir + ['/'] + e) == Elements(dir)
  {
    SplitSnoc(dir, '/', e);
    var parts := Split(dir, '/');
    assert (parts + [e])[..|parts|] == parts;
  }

  lemma AtItself(p: string)
    ensures AtOrUnder(p, p)
  {
  }
}
