/** Which paths a server accepts, and where they lead. */
module Paths {
  import opened Bytes

  const SLASH: byte := 0x2F
  const BACKSLASH: byte := 0x5C
  const DOT: byte := 0x2E

  type Name = seq<byte>

  const UP: Name := [DOT, DOT]
  const HERE: Name := [DOT]

  predicate Separator(c: byte) {
    c == SLASH || c == BACKSLASH
  }

  predicate Divides(c: byte, both: bool) {
    c == SLASH || (both && c == BACKSLASH)
  }

  /** One character more: a separator starts a component, any other extends the last one. */
  function Put(components: seq<Name>, c: byte, both: bool): (r: seq<Name>)
    requires components != []
    ensures r != []
  {
    var k := |components| - 1;
    if Divides(c, both) then components + [[]]
    else components[..k] + [components[k] + [c]]
  }

  /** The components of a path, empty ones included. On the way to a file only slashes
      separate them; the check also takes a backslash for a separator. */
  function Components(path: seq<byte>, both: bool): (r: seq<Name>)
    ensures r != []
    decreases |path|
  {
    if path == [] then [[]] else Put(Components(path[..|path| - 1], both), path[|path| - 1], both)
  }

  /** The paths that may be used: relative ones that never go up. */
  predicate Accepted(path: seq<byte>) {
    path != [] && !Separator(path[0]) && UP !in Components(path, true)
  }

  // ---------------------------------------------------------------------
  // The check
  // ---------------------------------------------------------------------

  /** What a C string has at `i`: its terminator is a zero. */
  function At(path: seq<byte>, i: nat): byte
    requires i <= |path|
  {
    if i < |path| then path[i] else 0
  }

  /** Whether the component that starts at `i` is "..". */
  predicate UpAt(path: seq<byte>, i: nat) {
    && i + 2 <= |path| && path[i] == path[i + 1] == DOT
    && (i == 0 || Separator(path[i - 1]))
    && (i + 2 == |path| || Separator(path[i + 2]))
  }

  /** isr_validate_path, on a path without zero bytes. */
  method ValidatePath(path: seq<byte>) returns (ok: bool)
    requires 0 !in path
    ensures ok <==> Accepted(path)
  {
    UpComponents(path);
    if At(path, 0) == 0 {
      return false;
    }
    if path[0] == SLASH || path[0] == BACKSLASH {
      return false;
    }
    var p := 0;
    while At(path, p) != 0
      invariant 0 <= p <= |path|
      invariant forall i :: 0 <= i < p ==> !UpAt(path, i)
      decreases |path| - p
    {
      if At(path, p) == DOT && At(path, p + 1) == DOT {
        if (p == 0 || Separator(path[p - 1]))
           && (At(path, p + 2) == 0 || Separator(At(path, p + 2)))
        {
          assert UpAt(path, p);
          return false;
        }
      }
      p := p + 1;
    }
    ok := true;
  }

  /** `earlier` stand before the separator in front of `cut`, and the last component behind it. */
  ghost predicate Cuts(path: seq<byte>, both: bool, earlier: seq<Name>, cut: nat) {
    && cut <= |path| && Components(path, both) == earlier + [path[cut..]]
    && (forall k :: cut <= k < |path| ==> !Divides(path[k], both))
    && (cut == 0 ==> earlier == [])
    && (cut > 0 ==> Divides(path[cut - 1], both) && earlier == Components(path[..cut - 1], both))
  }

  lemma CutsMore(init: seq<byte>, c: byte, both: bool, earlier: seq<Name>, cut: nat, path: seq<byte>)
    requires Cuts(init, both, earlier, cut) && !Divides(c, both) && path == init + [c]
    ensures Cuts(path, both, earlier, cut)
  {
    assert path[..|path| - 1] == init && path[cut..] == init[cut..] + [c];
    LastGrows(earlier, init[cut..], c, both);
    if cut > 0 {
      assert path[..cut - 1] == init[..cut - 1];
    }
  }

  lemma LastGrows(earlier: seq<Name>, last: Name, c: byte, both: bool)
    requires !Divides(c, both)
    ensures Put(earlier + [last], c, both) == earlier + [last + [c]]
  {
    assert (earlier + [last])[..|earlier|] == earlier;
  }

  /** The last component is what follows the last separator. */
  lemma {:induction false} LastComponent(path: seq<byte>, both: bool) returns (earlier: seq<Name>, cut: nat)
    ensures Cuts(path, both, earlier, cut)
    decreases |path|
  {
    if path == [] {
      assert [] + [path[0..]] == [[]];
      return [], 0;
    }
    var init, c := path[..|path| - 1], path[|path| - 1];
    if Divides(c, both) {
      assert path[|path|..] == [];
      earlier, cut := Components(init, both), |path|;
    } else {
      earlier, cut := LastComponent(init, both);
      CutsMore(init, c, both, earlier, cut, path);
    }
  }

  /** A component is ".." exactly where the scanning loop looks for one. */
  lemma {:induction false} UpComponents(path: seq<byte>)
    ensures UP in Components(path, true) <==> exists i: nat :: UpAt(path, i)
    decreases |path|
  {
    if UP in Components(path, true) {
      UpBetween(path, true);
    }
    if i: nat :| UpAt(path, i) {
      UpFound(path, i);
    }
  }

  /** A ".." between separators of either choice is one for the check. */
  lemma {:induction false} UpBetween(path: seq<byte>, both: bool)
    requires UP in Components(path, both)
    ensures exists i: nat :: UpAt(path, i)
    decreases |path|
  {
    var earlier, cut := LastComponent(path, both);
    if path[cut..] == UP {
      assert path[cut] == path[cut..][0] && path[cut + 1] == path[cut..][1];
      assert UpAt(path, cut);
    } else {
      var before := path[..cut - 1];
      UpBetween(before, both);
      var i: nat :| UpAt(before, i);
      assert UpAt(path, i);
    }
  }

  lemma LastIsUp(path: seq<byte>, start: nat, i: nat)
    requires start <= i && UpAt(path, i)
    requires forall k :: start <= k < |path| ==> !Divides(path[k], true)
    ensures path[start..] == UP
  {
    assert i == start && i + 2 == |path|;
  }

  lemma {:induction false} UpFound(path: seq<byte>, i: nat)
    requires UpAt(path, i)
    ensures UP in Components(path, true)
    decreases |path|
  {
    var earlier, cut := LastComponent(path, true);
    if i >= cut {
      LastIsUp(path, cut, i);
    } else {
      UpFound(path[..cut - 1], i);
    }
  }

  // ---------------------------------------------------------------------
  // Where a path leads
  // ---------------------------------------------------------------------

  /** Where the components lead from the top: empty ones and "." stay, ".." goes up. */
  function Walk(components: seq<Name>): seq<Name>
    decreases |components|
  {
    if components == [] then []
    else
      var there := Walk(components[..|components| - 1]);
      var next := components[|components| - 1];
      if next == [] || next == HERE then there
      else if next == UP then if there == [] then [] else there[..|there| - 1]
      else there + [next]
  }

  /** The names along a path. */
  function Names(components: seq<Name>): seq<Name>
    decreases |components|
  {
    if components == [] then []
    else
      var before := Names(components[..|components| - 1]);
      var next := components[|components| - 1];
      if next == [] || next == HERE then before else before + [next]
  }

  lemma PutBehind(a: seq<Name>, b: seq<Name>, c: byte, both: bool)
    requires b != []
    ensures Put(a + b, c, both) == a + Put(b, c, both)
  {
  }

  lemma {:induction false} ComponentsOfBoth(a: seq<byte>, b: seq<byte>, both: bool)
    ensures Components(a + [SLASH] + b, both) == Components(a, both) + Components(b, both)
    decreases |b|
  {
    var s := a + [SLASH] + b;
    if b == [] {
      assert s[..|s| - 1] == a;
    } else {
      assert s[..|s| - 1] == a + [SLASH] + b[..|b| - 1];
      ComponentsOfBoth(a, b[..|b| - 1], both);
      PutBehind(Components(a, both), Components(b[..|b| - 1], both), b[|b| - 1], both);
    }
  }

  lemma {:induction false} WalkDown(a: seq<Name>, b: seq<Name>)
    requires UP !in b
    ensures Walk(a + b) == Walk(a) + Names(b)
    decreases |b|
  {
    if b == [] {
      assert a + b == a;
    } else {
      assert (a + b)[..|a + b| - 1] == a + b[..|b| - 1];
      WalkDown(a, b[..|b| - 1]);
    }
  }

  /** Below any root the path leads down, along its own names. */
  ghost predicate StaysBelow(path: seq<byte>) {
    forall root ::
      Walk(Components(root + [SLASH] + path, false)) == Walk(Components(root, false)) + Names(Components(path, false))
  }

  lemma AcceptedIsBelow(path: seq<byte>)
    requires Accepted(path)
    ensures StaysBelow(path)
  {
    forall root
      ensures Walk(Components(root + [SLASH] + path, false)) == Walk(Components(root, false)) + Names(Components(path, false))
    {
      AcceptedStaysBelow(root, path);
    }
  }

  /** An accepted path leads down from the root, along its own names. */
  lemma AcceptedStaysBelow(root: seq<byte>, path: seq<byte>)
    requires Accepted(path)
    ensures Walk(Components(root + [SLASH] + path, false))
            == Walk(Components(root, false)) + Names(Components(path, false))
  {
    UpComponents(path);
    if UP in Components(path, false) {
      UpBetween(path, false);
    }
    ComponentsOfBoth(root, path, false);
    WalkDown(Components(root, false), Components(path, false));
  }
}
