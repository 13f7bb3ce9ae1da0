/** strings/simplify_path.py: canonical form of an absolute Unix path.
    The path is split at '/', empty and "." components are dropped, ".."
    pops the previous component (and is ignored at the root), and what is
    left is joined behind a leading '/'. */
module SimplifyPath {
  import opened PyStr

  /** A component that survives simplification unchanged: not empty, not
      ".", not "..", and free of separators. */
  predicate Clean(c: seq<char>)
  {
    c != [] && c != "." && c != ".." && NoSep(c, '/')
  }

  /** One component applied to the stack of kept names. */
  function Step(stack: seq<seq<char>>, c: seq<char>): seq<seq<char>>
  {
    if c == [] || c == "." then stack
    else if c == ".." then (if |stack| > 0 then stack[..|stack| - 1] else stack)
    else stack + [c]
  }

  /** The stack after all of the components, in order. */
  function Walk(cs: seq<seq<char>>): seq<seq<char>>
  {
    if cs == [] then [] else Step(Walk(cs[..|cs| - 1]), cs[|cs| - 1])
  }

  /** The value simplify_path returns. */
  function Simplified(path: seq<char>): seq<char>
  {
    "/" + Join(Walk(Split(path, '/')), '/')
  }

  /** The loop of simplify_path: one pass over the split path with a stack
      of names. */
  method Simplify(path: seq<char>) returns (r: seq<char>)
    ensures r == Simplified(path)
    ensures |r| > 0 && r[0] == '/'
  {
    var components := Split(path, '/');
    var results: seq<seq<char>> := [];
    for k := 0 to |components|
      invariant results == Walk(components[..k])
    {
      var c := components[k];
      assert components[..k + 1][..k] == components[..k];
      if c != [] && c != "." {
        if c == ".." {
          if |results| > 0 {
            results := results[..|results| - 1];
          }
        } else {
          results := results + [c];
        }
      }
    }
    assert components[..|components|] == components;
    r := "/" + Join(results, '/');
  }

  /** Every name left on the stack is clean, provided the components are
      separator-free. */
  lemma {:induction false} WalkClean(cs: seq<seq<char>>)
    requires forall k :: 0 <= k < |cs| ==> NoSep(cs[k], '/')
    ensures forall k :: 0 <= k < |Walk(cs)| ==> Clean(Walk(cs)[k])
  {
    if cs != [] {
      WalkClean(cs[..|cs| - 1]);
    }
  }

  /** Clean names after a leading empty piece are all pushed unchanged. */
  lemma {:induction false} WalkOfClean(cs: seq<seq<char>>)
    requires forall k :: 0 <= k < |cs| ==> Clean(cs[k])
    ensures Walk([[]] + cs) == cs
  {
    var xs := [[]] + cs;
    if cs == [] {
      assert xs[..0] == [];
    } else {
      var init := cs[..|cs| - 1];
      WalkOfClean(init);
      assert xs[..|xs| - 1] == [[]] + init;
      assert init + [cs[|cs| - 1]] == cs;
    }
  }

  /** The simplified path has only clean names. */
  lemma SimplifiedClean(path: seq<char>)
    ensures forall k :: 0 <= k < |Walk(Split(path, '/'))| ==> Clean(Walk(Split(path, '/'))[k])
  {
    SplitPieces(path, '/');
    WalkClean(Split(path, '/'));
  }

  /** Simplifying twice gives the same path as simplifying once. */
  lemma SimplifyIdempotent(path: seq<char>)
    ensures Simplified(Simplified(path)) == Simplified(path)
  {
    var cs := Walk(Split(path, '/'));
    SimplifiedClean(path);
    if cs == [] {
      assert Simplified(path) == "/";
      assert Split("/", '/') == [[], []];
      var two: seq<seq<char>> := [[], []];
      assert two[..1] == [[]];
      assert Walk(two) == [];
    } else {
      var pieces := [[]] + cs;
      assert Join(pieces, '/') == "/" + Join(cs, '/') by {
        assert pieces[1..] == cs;
      }
      assert forall k :: 0 <= k < |pieces| ==> NoSep(pieces[k], '/') by {
        forall k | 0 <= k < |pieces|
          ensures NoSep(pieces[k], '/')
        {
          if k > 0 {
            assert pieces[k] == cs[k - 1];
          }
        }
      }
      SplitJoin(pieces, '/');
      WalkOfClean(cs);
    }
  }

  /** Walking two lists one after the other. */
  lemma {:induction false} WalkThen(xs: seq<seq<char>>, c: seq<char>, d: seq<char>)
    ensures Walk(xs + [c, d]) == Step(Step(Walk(xs), c), d)
  {
    var ys := xs + [c, d];
    assert ys[..|ys| - 1] == xs + [c];
    assert (xs + [c])[..|xs|] == xs;
  }

  /** Entering a directory and leaving it again with ".." changes nothing. */
  lemma ParentCancels(path: seq<char>, name: seq<char>)
    requires Clean(name)
    ensures Simplified(path + "/" + name + "/..") == Simplified(path)
  {
    var tail := name + "/..";
    assert path + "/" + name + "/.." == path + "/" + tail;
    SplitAppend(path, '/', tail);
    SplitCons(name, '/', "..");
    assert NoSep("..", '/') by {
      assert ".."[0] == '.' && ".."[1] == '.';
    }
    SplitWord("..", '/');
    assert name + "/" + ".." == tail;
    assert Split(tail, '/') == [name, ".."];
    WalkThen(Split(path, '/'), name, "..");
    assert Split(path, '/') + [name, ".."] == Split(path, '/') + Split(tail, '/');
  }

  /** ".." at the root stays at the root. */
  lemma ParentOfRoot()
    ensures Simplified("/..") == "/"
  {
    assert Split("/..", '/') == [[], ".."] by {
      SplitCons([], '/', "..");
      SplitWord("..", '/');
      assert [] + "/" + ".." == "/..";
    }
    var one: seq<seq<char>> := [[]];
    assert [[], ".."][..1] == one;
    assert one[..0] == [];
  }
}
