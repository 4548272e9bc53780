/**
 * The parts of Go's standard library the server derives its paths with:
 * strings.Split(s, "/"), strings.Join(parts, "/"), path.Clean, path.Join and
 * path.Base, as functions on strings.
 *
 * path.Clean is specified the way Go documents it: split the path on slashes,
 * drop empty and "." elements, let each ".." remove the proper name before it,
 * drop a ".." that would climb above the root of a rooted path and keep it on a
 * relative one, then put the elements back together ("." when nothing is left).
 */
module GoPath {

  /** strings.Split(s, "/"): the pieces between the slashes, one more than there are slashes. */
  function Split(s: string): (r: seq<string>)
    ensures |r| >= 1
    ensures '/' in s <==> |r| >= 2
    ensures forall i :: 0 <= i < |r| ==> '/' !in r[i]
  {
    if s == [] then [""]
    else
      assert s == [s[0]] + s[1..];
      var rest := Split(s[1..]);
      if s[0] == '/' then [""] + rest
      else [[s[0]] + rest[0]] + rest[1..]
  }

  /** strings.Join(parts, "/"). */
  function JoinSlash(parts: seq<string>): string
  {
    if parts == [] then ""
    else if |parts| == 1 then parts[0]
    else parts[0] + "/" + JoinSlash(parts[1..])
  }

  /** A proper path element, such as a directory listing returns: not empty, not "." or "..", no slash. */
  predicate IsName(s: string)
  {
    s != "" && s != "." && s != ".." && '/' !in s
  }

  predicate AllNames(ss: seq<string>)
  {
    forall i :: 0 <= i < |ss| ==> IsName(ss[i])
  }

  /** Elements already resolved by Clean: proper names, after a run of ".." that a relative path cannot resolve. */
  ghost predicate Canonical(rooted: bool, st: seq<string>)
  {
    && (forall i :: 0 <= i < |st| ==> st[i] == ".." || IsName(st[i]))
    && (forall i, j :: 0 <= i < j < |st| && st[j] == ".." ==> st[i] == "..")
    && (rooted ==> forall i :: 0 <= i < |st| ==> st[i] != "..")
  }

  /** True when the path starts at the root. */
  predicate Rooted(p: string)
  {
    |p| > 0 && p[0] == '/'
  }

  /** The element-by-element pass of path.Clean, pushing onto the resolved elements `stack`. */
  function Resolve(rooted: bool, stack: seq<string>, segs: seq<string>): (r: seq<string>)
    requires forall i :: 0 <= i < |segs| ==> '/' !in segs[i]
    requires Canonical(rooted, stack)
    ensures Canonical(rooted, r)
    decreases |segs|
  {
    if segs == [] then stack
    else
      var s := segs[0];
      if s == "" || s == "." then Resolve(rooted, stack, segs[1..])
      else if s == ".." then
        if |stack| > 0 && stack[|stack| - 1] != ".." then
          Resolve(rooted, stack[..|stack| - 1], segs[1..])
        else if rooted then
          Resolve(rooted, stack, segs[1..])
        else
          assert forall i :: 0 <= i < |stack| ==> stack[i] == "..";
          Resolve(rooted, stack + [".."], segs[1..])
      else
        Resolve(rooted, stack + [s], segs[1..])
  }

  /** Puts resolved elements back together: a rooted path keeps its leading slash, an empty relative one is ".". */
  function Render(rooted: bool, st: seq<string>): string
  {
    if rooted then "/" + JoinSlash(st)
    else if st == [] then "."
    else JoinSlash(st)
  }

  /** path.Clean. */
  function Clean(p: string): string
  {
    Render(Rooted(p), Resolve(Rooted(p), [], Split(p)))
  }

  /** The elements of `elems` that are not empty, in order. */
  function NonEmpty(elems: seq<string>): (r: seq<string>)
    ensures forall i :: 0 <= i < |r| ==> r[i] != "" && r[i] in elems
  {
    if elems == [] then []
    else (if elems[0] == "" then [] else [elems[0]]) + NonEmpty(elems[1..])
  }

  /** path.Join: the non-empty elements joined by slashes and cleaned; "" when every element is empty. */
  function Join(elems: seq<string>): string
  {
    var parts := NonEmpty(elems);
    if parts == [] then "" else Clean(JoinSlash(parts))
  }

  function TrimTrailingSlashes(p: string): string
  {
    if p != [] && p[|p| - 1] == '/' then TrimTrailingSlashes(p[..|p| - 1]) else p
  }

  /** path.Base: the last element once trailing slashes are removed; "." for "" and "/" for all slashes. */
  function Base(p: string): string
  {
    if p == "" then "."
    else
      var q := TrimTrailingSlashes(p);
      if q == "" then "/"
      else
        var parts := Split(q);
        parts[|parts| - 1]
  }

  // ---------------------------------------------------------------------------
  // strings.Split and strings.Join

  /** Splitting at one slash splits the two sides independently. */
  lemma {:induction false} SplitConcat(a: string, b: string)
    ensures Split(a + "/" + b) == Split(a) + Split(b)
  {
    if a == [] {
      SplitSlashFirst(b);
    } else {
      SplitConcat(a[1..], b);
      SplitConcatStep(a, b);
    }
  }

  /** The base case of SplitConcat: a leading slash starts with an empty piece. */
  lemma SplitSlashFirst(b: string)
    ensures Split([] + "/" + b) == Split([]) + Split(b)
  {
    var s: string := [] + "/" + b;
    SplitHead(s);
    assert s[1..] == b;
  }

  /** The inductive step of SplitConcat: the first character of `a` goes where Split puts it on both sides. */
  lemma SplitConcatStep(a: string, b: string)
    requires a != []
    requires Split(a[1..] + "/" + b) == Split(a[1..]) + Split(b)
    ensures Split(a + "/" + b) == Split(a) + Split(b)
  {
    var s := a + "/" + b;
    ConcatHead(a, b);
    SplitHead(s);
    SplitHead(a);
    ConsPieces(a[0], Split(a[1..]), Split(b));
  }

  /** The sequence algebra behind SplitConcatStep: consing a character onto the first piece commutes with appending pieces. */
  lemma ConsPieces(c: char, ra: seq<string>, rb: seq<string>)
    requires |ra| >= 1
    ensures (if c == '/' then [""] + (ra + rb) else [[c] + (ra + rb)[0]] + (ra + rb)[1..])
         == (if c == '/' then [""] + ra else [[c] + ra[0]] + ra[1..]) + rb
  {
    if c != '/' {
      assert (ra + rb)[0] == ra[0];
      assert (ra + rb)[1..] == ra[1..] + rb;
    }
  }

  lemma ConcatHead(a: string, b: string)
    requires a != []
    ensures (a + "/" + b)[0] == a[0] && (a + "/" + b)[1..] == a[1..] + "/" + b
  {
  }

  /** One step of strings.Split: a slash starts a new piece, any other character extends the first one. */
  lemma SplitHead(s: string)
    requires s != []
    ensures Split(s) ==
      if s[0] == '/' then [""] + Split(s[1..]) else [[s[0]] + Split(s[1..])[0]] + Split(s[1..])[1..]
  {
  }

  /** A string without slashes splits into itself. */
  lemma {:induction false} SplitName(a: string)
    requires '/' !in a
    ensures Split(a) == [a]
  {
    if a != [] {
      assert a == [a[0]] + a[1..];
      SplitName(a[1..]);
    }
  }

  /** Splitting undoes joining, for elements without slashes. */
  lemma {:induction false} SplitJoin(parts: seq<string>)
    requires |parts| >= 1
    requires forall i :: 0 <= i < |parts| ==> '/' !in parts[i]
    ensures Split(JoinSlash(parts)) == parts
  {
    if |parts| == 1 {
      SplitName(parts[0]);
    } else {
      var head, tail := parts[0], parts[1..];
      var joined := JoinSlash(tail);
      assert JoinSlash(parts) == head + "/" + joined;
      SplitConcat(head, joined);
      SplitName(head);
      SplitJoin(tail);
      assert parts == [head] + tail;
    }
  }

  /** A join whose first element is not empty starts with that element's first character. */
  lemma {:induction false} JoinSlashStart(parts: seq<string>)
    requires |parts| >= 1 && parts[0] != ""
    ensures |JoinSlash(parts)| > 0 && JoinSlash(parts)[0] == parts[0][0]
  {
  }

  /** Appending an element to a non-empty join adds a slash and the element. */
  lemma {:induction false} JoinSlashSnoc(parts: seq<string>, x: string)
    requires parts != []
    ensures JoinSlash(parts + [x]) == JoinSlash(parts) + "/" + x
  {
    if |parts| > 1 {
      assert (parts + [x])[1..] == parts[1..] + [x];
      JoinSlashSnoc(parts[1..], x);
    } else {
      assert (parts + [x])[1..] == [x];
    }
  }

  lemma {:induction false} NonEmptyConcat(xs: seq<string>, ys: seq<string>)
    ensures NonEmpty(xs + ys) == NonEmpty(xs) + NonEmpty(ys)
  {
    if xs == [] {
      assert xs + ys == ys;
    } else {
      assert (xs + ys)[0] == xs[0];
      assert (xs + ys)[1..] == xs[1..] + ys;
      NonEmptyConcat(xs[1..], ys);
    }
  }

  lemma {:induction false} NonEmptyAllNonEmpty(xs: seq<string>)
    requires forall i :: 0 <= i < |xs| ==> xs[i] != ""
    ensures NonEmpty(xs) == xs
  {
    if xs != [] {
      NonEmptyAllNonEmpty(xs[1..]);
    }
  }

  // ---------------------------------------------------------------------------
  // path.Clean

  /** Resolving a concatenation resolves the second part on top of the first. */
  lemma {:induction false} ResolveConcat(rooted: bool, acc: seq<string>, xs: seq<string>, ys: seq<string>)
    requires forall i :: 0 <= i < |xs| ==> '/' !in xs[i]
    requires forall i :: 0 <= i < |ys| ==> '/' !in ys[i]
    requires Canonical(rooted, acc)
    ensures Resolve(rooted, acc, xs + ys) == Resolve(rooted, Resolve(rooted, acc, xs), ys)
    decreases |xs|
  {
    if xs == [] {
      assert xs + ys == ys;
    } else {
      assert (xs + ys)[0] == xs[0];
      assert (xs + ys)[1..] == xs[1..] + ys;
      var s := xs[0];
      if s == "" || s == "." {
        ResolveConcat(rooted, acc, xs[1..], ys);
      } else if s == ".." {
        if |acc| > 0 && acc[|acc| - 1] != ".." {
          ResolveConcat(rooted, acc[..|acc| - 1], xs[1..], ys);
        } else if rooted {
          ResolveConcat(rooted, acc, xs[1..], ys);
        } else {
          assert forall i :: 0 <= i < |acc| ==> acc[i] == "..";
          ResolveConcat(rooted, acc + [".."], xs[1..], ys);
        }
      } else {
        ResolveConcat(rooted, acc + [s], xs[1..], ys);
      }
    }
  }

  /** Proper names (and empty elements) are pushed as they come. */
  lemma {:induction false} ResolveNames(rooted: bool, acc: seq<string>, xs: seq<string>)
    requires forall i :: 0 <= i < |xs| ==> xs[i] == "" || IsName(xs[i])
    requires Canonical(rooted, acc)
    ensures forall i :: 0 <= i < |xs| ==> '/' !in xs[i]
    ensures Resolve(rooted, acc, xs) == acc + NonEmpty(xs)
    decreases |xs|
  {
    assert forall i :: 0 <= i < |xs| ==> '/' !in xs[i] by {
      forall i | 0 <= i < |xs| ensures '/' !in xs[i] {
        assert xs[i] == "" || IsName(xs[i]);
      }
    }
    if xs != [] {
      var x, rest := xs[0], xs[1..];
      var tail := NonEmpty(rest);
      assert forall i :: 0 <= i < |rest| ==> rest[i] == xs[i + 1];
      if x == "" {
        ResolveNames(rooted, acc, rest);
        assert NonEmpty(xs) == tail;
      } else {
        CanonicalPush(rooted, acc, x);
        ResolveNames(rooted, acc + [x], rest);
        assert NonEmpty(xs) == [x] + tail;
        PushAssoc(acc, x, tail);
      }
    }
  }

  lemma PushAssoc(acc: seq<string>, x: string, tail: seq<string>)
    ensures (acc + [x]) + tail == acc + ([x] + tail)
  {
  }

  /** Pushing a proper name keeps resolved elements resolved. */
  lemma CanonicalPush(rooted: bool, acc: seq<string>, name: string)
    requires Canonical(rooted, acc) && IsName(name)
    ensures Canonical(rooted, acc + [name])
  {
    var st := acc + [name];
    assert forall i :: 0 <= i < |acc| ==> st[i] == acc[i];
  }

  /** Elements that are already resolved resolve to themselves. */
  lemma {:induction false} ResolveCanonical(rooted: bool, acc: seq<string>, rest: seq<string>)
    requires Canonical(rooted, acc + rest)
    ensures Canonical(rooted, acc)
    ensures forall i :: 0 <= i < |rest| ==> '/' !in rest[i]
    ensures Resolve(rooted, acc, rest) == acc + rest
    decreases |rest|
  {
    var all := acc + rest;
    assert forall i :: 0 <= i < |acc| ==> acc[i] == all[i];
    assert forall i :: 0 <= i < |rest| ==> rest[i] == all[|acc| + i];
    if rest != [] {
      var s := rest[0];
      assert s == all[|acc|];
      assert (acc + [s]) + rest[1..] == all;
      if s == ".." {
        assert forall i :: 0 <= i < |acc| ==> acc[i] == "..";
        assert !rooted;
      }
      ResolveCanonical(rooted, acc + [s], rest[1..]);
    }
  }

  /** How Split sees a rendered path. */
  lemma SplitRender(rooted: bool, st: seq<string>)
    requires Canonical(rooted, st)
    ensures Split(Render(rooted, st)) ==
      if rooted then [""] + (if st == [] then [""] else st)
      else if st == [] then ["."] else st
  {
    if rooted {
      assert Render(rooted, st) == "" + "/" + JoinSlash(st);
      SplitConcat("", JoinSlash(st));
      if st != [] {
        SplitJoin(st);
      }
    } else if st == [] {
      SplitName(".");
    } else {
      SplitJoin(st);
    }
  }

  /** A rendered path is never empty and is rooted exactly when its elements are. */
  lemma RenderRooted(rooted: bool, st: seq<string>)
    requires Canonical(rooted, st)
    ensures Render(rooted, st) != ""
    ensures Rooted(Render(rooted, st)) == rooted
  {
    if !rooted && st != [] {
      JoinSlashStart(st);
      assert st[0][0] in st[0];
    }
  }

  /** Resolving the elements of a rendered path gives the elements back. */
  lemma ResolveRender(rooted: bool, st: seq<string>)
    requires Canonical(rooted, st)
    ensures Resolve(rooted, [], Split(Render(rooted, st))) == st
  {
    SplitRender(rooted, st);
    ResolveCanonical(rooted, [], st);
    assert [] + st == st;
    if rooted {
      var segs := [""] + (if st == [] then [""] else st);
      assert Resolve(rooted, [], segs) == Resolve(rooted, [], segs[1..]);
    }
  }

  /** A rendered path is already clean. */
  lemma CleanRender(rooted: bool, st: seq<string>)
    requires Canonical(rooted, st)
    ensures Clean(Render(rooted, st)) == Render(rooted, st)
  {
    RenderRooted(rooted, st);
    ResolveRender(rooted, st);
  }

  /** path.Clean is idempotent, never returns "", and keeps a path rooted or relative. */
  lemma CleanIdempotent(p: string)
    ensures Clean(Clean(p)) == Clean(p)
    ensures Clean(p) != ""
    ensures Rooted(Clean(p)) == Rooted(p)
  {
    var st := Resolve(Rooted(p), [], Split(p));
    CleanRender(Rooted(p), st);
    RenderRooted(Rooted(p), st);
  }

  /** path.Join of resolved relative elements is their plain slash-join. */
  lemma JoinCanonical(st: seq<string>)
    requires st != [] && Canonical(false, st)
    ensures Join(st) == JoinSlash(st)
  {
    NonEmptyAllNonEmpty(st);
    JoinSlashStart(st);
    assert !Rooted(JoinSlash(st)) by {
      assert st[0][0] in st[0];
    }
    SplitJoin(st);
    ResolveCanonical(false, [], st);
    assert [] + st == st;
  }

  /** Joining ".." onto a clean rooted path below "/" gives its parent. */
  lemma JoinParent(st: seq<string>)
    requires Canonical(true, st) && st != []
    ensures Join([Render(true, st), ".."]) == Render(true, st[..|st| - 1])
  {
    var r := Render(true, st);
    var up := "..";
    RenderRooted(true, st);
    NonEmptyAllNonEmpty([r, up]);
    var j := r + "/" + up;
    assert JoinSlash([r, up]) == j by {
      assert [r, up][1..] == [up];
    }
    assert Rooted(j) by {
      assert j[0] == r[0];
    }
    SplitConcat(r, up);
    SplitName(up);
    ResolveRender(true, st);
    ResolveConcat(true, [], Split(r), [up]);
    assert Resolve(true, st, [up]) == Resolve(true, st[..|st| - 1], []);
  }

  /** Dropping the last element of a rooted path shortens it. */
  lemma RenderParentShorter(st: seq<string>)
    requires Canonical(true, st) && st != []
    ensures |Render(true, st[..|st| - 1])| < |Render(true, st)|
  {
    var parent := st[..|st| - 1];
    if parent != [] {
      assert st == parent + [st[|st| - 1]];
      JoinSlashSnoc(parent, st[|st| - 1]);
    } else {
      assert IsName(st[0]);
    }
  }

  /** path.Join returns "" or a clean path. */
  lemma JoinIsClean(elems: seq<string>)
    ensures Join(elems) == "" || Clean(Join(elems)) == Join(elems)
  {
    if NonEmpty(elems) != [] {
      CleanIdempotent(JoinSlash(NonEmpty(elems)));
    }
  }
}
