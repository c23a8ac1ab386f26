/** The checker of the red-black invariant: one pass, with the black count of the first path shared. */
module RbTree {
  import opened Powers

  datatype Color = Red | Black

  datatype Tree = Null | Node(color: Color, left: Tree, right: Tree)

  /** No red node below a red parent; above is the color of the parent. */
  predicate NoRedRed(t: Tree, above: Color)
  {
    t.Null? || (!(above == Red && t.color == Red) && NoRedRed(t.left, t.color) && NoRedRed(t.right, t.color))
  }

  predicate IsRed(t: Tree) { t.Node? && t.color == Red }

  /** The subtree reached by turning left, or right, as told. */
  function NodeAt(t: Tree, turns: seq<bool>): Tree
    decreases t
  {
    if t.Null? || turns == [] then t else NodeAt(if turns[0] then t.left else t.right, turns[1..])
  }

  /** Wherever a red node is reached, neither of its children is red. */
  ghost predicate NoRedChildOfRed(t: Tree)
  {
    forall turns :: IsRed(NodeAt(t, turns)) ==> !IsRed(NodeAt(t, turns).left) && !IsRed(NodeAt(t, turns).right)
  }

  lemma FirstTurnNode(t: Tree, left: bool, rest: seq<bool>)
    requires t.Node?
    ensures NodeAt(t, [left] + rest) == NodeAt(if left then t.left else t.right, rest)
  {
    assert ([left] + rest)[1..] == rest;
  }

  lemma RedChildren(t: Tree)
    requires t.Node?
    ensures NoRedChildOfRed(t)
            <==> (IsRed(t) ==> !IsRed(t.left) && !IsRed(t.right)) && NoRedChildOfRed(t.left) && NoRedChildOfRed(t.right)
  {
    hide IsRed;
    assert NodeAt(t, []) == t;
    if NoRedChildOfRed(t) {
      forall turns ensures NodeAt(t, [true] + turns) == NodeAt(t.left, turns) && NodeAt(t, [false] + turns) == NodeAt(t.right, turns) {
        FirstTurnNode(t, true, turns);
        FirstTurnNode(t, false, turns);
      }
    }
    forall turns: seq<bool> | turns != []
      ensures NodeAt(t, turns) == NodeAt(if turns[0] then t.left else t.right, turns[1..])
    {
    }
  }

  /** The recursive test is the statement about every node reached. */
  lemma {:induction false} NoRedRedOnPaths(t: Tree, above: Color)
    ensures NoRedRed(t, above) <==> !(above == Red && IsRed(t)) && NoRedChildOfRed(t)
  {
    hide NoRedChildOfRed;
    if t.Node? {
      RedChildren(t);
      NoRedRedOnPaths(t.left, t.color);
      NoRedRedOnPaths(t.right, t.color);
    } else {
      NullHasNoRed();
    }
  }

  lemma NullHasNoRed()
    ensures NoRedChildOfRed(Null)
  {
  }

  function BlackOf(t: Tree): nat { if t.Node? && t.color == Black then 1 else 0 }

  /** The black counts of all paths from t down to a missing child, left to right, starting from count. */
  function PathCounts(t: Tree, count: nat): (s: seq<nat>)
    ensures s != [] && forall i :: 0 <= i < |s| ==> count <= s[i]
  {
    if t.Null? then [count]
    else PathCounts(t.left, count + BlackOf(t)) + PathCounts(t.right, count + BlackOf(t))
  }

  datatype Shared = Mismatch | Count(black: nat)

  /** The shared count meets path counts one after the other; zero means that none has been seen. */
  function Agree(black: nat, counts: seq<nat>): Shared
    decreases counts
  {
    if counts == [] then Count(black)
    else if black > 0 && counts[0] != black then Mismatch
    else Agree(counts[0], counts[1..])
  }

  lemma {:induction false} AgreeConcat(black: nat, a: seq<nat>, b: seq<nat>)
    ensures Agree(black, a + b) == if Agree(black, a).Mismatch? then Mismatch else Agree(Agree(black, a).black, b)
    decreases a
  {
    if a == [] {
      assert a + b == b;
    } else {
      assert (a + b)[1..] == a[1..] + b;
      if !(black > 0 && a[0] != black) {
        AgreeConcat(a[0], a[1..], b);
      }
    }
  }

  /** One missing child: the first count is kept, later ones are compared with it. */
  method MeetLeaf(black0: nat, curBlack: nat) returns (ok: bool, black: nat)
    ensures ok <==> Agree(black0, [curBlack]).Count?
    ensures ok ==> Agree(black0, [curBlack]) == Count(black)
  {
    black := black0;
    if black > 0 {
      return curBlack == black, black;
    }
    return true, curBlack;
  }

  /** The checker, its reference parameter threaded through. It never looks at a missing node. */
  method CheckBalance(node: Tree, black0: nat, curBlack0: nat, color: Color) returns (ok: bool, black: nat)
    requires node.Node?
    ensures ok <==> !(color == Red && IsRed(node)) && NoRedChildOfRed(node)
                    && Agree(black0, PathCounts(node, curBlack0)).Count?
    ensures ok ==> Agree(black0, PathCounts(node, curBlack0)) == Count(black)
    decreases node
  {
    hide Agree, NoRedChildOfRed, NodeAt;
    NoRedRedOnPaths(node, color);
    NoRedRedOnPaths(node.left, node.color);
    NoRedRedOnPaths(node.right, node.color);
    black := black0;
    var curBlack := curBlack0;
    if color != Black && node.color != Black {
      return false, black;
    }
    if node.color == Black {
      curBlack := curBlack + 1;
    }
    ghost var l, r := PathCounts(node.left, curBlack), PathCounts(node.right, curBlack);
    assert PathCounts(node, curBlack0) == l + r;
    AgreeConcat(black0, l, r);
    if node.left.Node? {
      ok, black := CheckBalance(node.left, black, curBlack, node.color);
    } else {
      ok, black := MeetLeaf(black, curBlack);
    }
    if !ok {
      return false, black;
    }
    if node.right.Node? {
      ok, black := CheckBalance(node.right, black, curBlack, node.color);
    } else {
      ok, black := MeetLeaf(black, curBlack);
    }
  }

  // ----- What acceptance means -----

  /** Black nodes on the path that turns left, or right, as told. */
  function BlackOnPath(t: Tree, turns: seq<bool>): nat
    decreases t
  {
    if t.Null? then 0
    else
      (if t.color == Black then 1 else 0)
      + if turns == [] then 0 else BlackOnPath(if turns[0] then t.left else t.right, turns[1..])
  }

  /** The turns lead exactly to a missing child. */
  predicate LeadsOut(t: Tree, turns: seq<bool>)
    decreases t
  {
    if t.Null? then turns == []
    else turns != [] && LeadsOut(if turns[0] then t.left else t.right, turns[1..])
  }

  ghost predicate Balanced(t: Tree, bh: nat)
  {
    forall turns :: LeadsOut(t, turns) ==> BlackOnPath(t, turns) == bh
  }

  /** The red-black invariant, stated on paths. */
  ghost predicate RedBlack(t: Tree, bh: nat)
  {
    && t.Node? && t.color == Black
    && NoRedChildOfRed(t)
    && Balanced(t, bh)
  }

  ghost predicate AllAre(s: seq<nat>, k: nat)
  {
    forall i :: 0 <= i < |s| ==> s[i] == k
  }

  lemma {:induction false} AgreeIsAllEqual(black: nat, counts: seq<nat>)
    requires forall i :: 0 <= i < |counts| ==> 0 < counts[i]
    ensures var target := if black > 0 then black else if counts == [] then 0 else counts[0];
      Agree(black, counts) == if AllAre(counts, target) then Count(target) else Mismatch
    decreases counts
  {
    if counts != [] {
      var rest := counts[1..];
      if !(black > 0 && counts[0] != black) {
        AgreeIsAllEqual(counts[0], rest);
        assert forall i :: 0 <= i < |rest| ==> rest[i] == counts[i + 1];
        assert forall i :: 1 <= i < |counts| ==> counts[i] == rest[i - 1];
      }
    }
  }

  lemma AllAreConcat(a: seq<nat>, b: seq<nat>, k: nat)
    ensures AllAre(a + b, k) <==> AllAre(a, k) && AllAre(b, k)
  {
    assert forall i :: 0 <= i < |a| ==> (a + b)[i] == a[i];
    assert forall i :: 0 <= i < |b| ==> (a + b)[|a| + i] == b[i];
  }

  lemma NullCounts(count: nat, bh: nat)
    ensures AllAre(PathCounts(Null, count), count + bh) <==> Balanced(Null, bh)
  {
    assert LeadsOut(Null, []) && BlackOnPath(Null, []) == 0;
    assert PathCounts(Null, count)[0] == count;
  }

  lemma CountsOfChildren(t: Tree, count: nat)
    requires t.Node?
    ensures PathCounts(t, count) == PathCounts(t.left, count + BlackOf(t)) + PathCounts(t.right, count + BlackOf(t))
  {
  }

  /** Every path count in the list belongs to a path, and every path has its count in the list. */
  lemma {:induction false} CountsArePaths(t: Tree, count: nat, bh: nat)
    ensures AllAre(PathCounts(t, count), count + bh) <==> Balanced(t, bh)
  {
    hide Balanced, AllAre, PathCounts, BlackOf;
    if t.Null? {
      NullCounts(count, bh);
    } else {
      var b := BlackOf(t);
      var c, l, r := count + b, PathCounts(t.left, count + b), PathCounts(t.right, count + b);
      CountsOfChildren(t, count);
      BalancedChildren(t, bh);
      AllAreConcat(l, r, count + bh);
      if bh >= b {
        assert c + (bh - b) == count + bh;
        CountsArePaths(t.left, c, bh - b);
        CountsArePaths(t.right, c, bh - b);
      } else {
        NotAllAre(l, count + bh);
      }
    }
  }

  lemma NotAllAre(s: seq<nat>, k: nat)
    requires s != [] && k < s[0]
    ensures !AllAre(s, k)
  {
  }

  lemma {:induction false} SomePathOut(t: Tree) returns (turns: seq<bool>)
    ensures LeadsOut(t, turns)
  {
    if t.Null? {
      turns := [];
    } else {
      var rest := SomePathOut(t.left);
      turns := [true] + rest;
      assert turns[1..] == rest;
    }
  }

  lemma BalancedChildren(t: Tree, bh: nat)
    requires t.Node?
    ensures Balanced(t, bh)
            <==> BlackOf(t) <= bh && Balanced(t.left, bh - BlackOf(t)) && Balanced(t.right, bh - BlackOf(t))
  {
    var b := BlackOf(t);
    if Balanced(t, bh) {
      var out := SomePathOut(t.left);
      FirstTurn(t, true, out);
      forall turns | LeadsOut(t.left, turns) ensures BlackOnPath(t.left, turns) == bh - b {
        FirstTurn(t, true, turns);
      }
      forall turns | LeadsOut(t.right, turns) ensures BlackOnPath(t.right, turns) == bh - b {
        FirstTurn(t, false, turns);
      }
    } else if b <= bh && Balanced(t.left, bh - b) && Balanced(t.right, bh - b) {
      forall turns | LeadsOut(t, turns) ensures BlackOnPath(t, turns) == bh {
        assert turns == [turns[0]] + turns[1..];
        FirstTurn(t, turns[0], turns[1..]);
      }
    }
  }

  lemma FirstTurn(t: Tree, left: bool, rest: seq<bool>)
    requires t.Node?
    ensures var child := if left then t.left else t.right;
      && (LeadsOut(t, [left] + rest) <==> LeadsOut(child, rest))
      && BlackOnPath(t, [left] + rest) == BlackOf(t) + BlackOnPath(child, rest)
  {
    assert ([left] + rest)[1..] == rest;
  }

  /** Called with its defaults the checker accepts exactly the trees with a black root, no red node
      under a red one, and the same number of black nodes on every path out. */
  lemma AcceptedIffRedBlack(t: Tree)
    requires t.Node?
    ensures !IsRed(t) && NoRedChildOfRed(t) && Agree(0, PathCounts(t, 0)).Count? <==> exists bh :: RedBlack(t, bh)
    ensures !IsRed(t) && NoRedChildOfRed(t) && Agree(0, PathCounts(t, 0)).Count?
            ==> RedBlack(t, Agree(0, PathCounts(t, 0)).black)
  {
    hide Agree, Balanced, PathCounts, AllAre, NoRedChildOfRed;
    var counts := PathCounts(t, 0);
    if t.color == Black {
      RootCounts(t);
      AgreeIsAllEqual(0, counts);
      CountsArePaths(t, 0, counts[0]);
      if AllAre(counts, counts[0]) && NoRedChildOfRed(t) {
        assert RedBlack(t, counts[0]);
      }
      forall bh | RedBlack(t, bh) ensures AllAre(counts, counts[0]) {
        CountsArePaths(t, 0, bh);
        FirstIs(counts, bh);
      }
    }
  }

  lemma FirstIs(s: seq<nat>, k: nat)
    requires AllAre(s, k) && s != []
    ensures s[0] == k
  {
  }

  lemma RootCounts(t: Tree)
    requires t.Node? && t.color == Black
    ensures forall i :: 0 <= i < |PathCounts(t, 0)| ==> 0 < PathCounts(t, 0)[i]
  {
    assert PathCounts(t, 0) == PathCounts(t.left, 1) + PathCounts(t.right, 1);
  }

  method CheckTree(t: Tree) returns (ok: bool, black: nat)
    requires t.Node?
    ensures ok <==> exists bh :: RedBlack(t, bh)
    ensures ok ==> RedBlack(t, black)
  {
    hide NoRedChildOfRed, RedBlack;
    AcceptedIffRedBlack(t);
    ok, black := CheckBalance(t, 0, 0, Red);
  }

  // ----- Height -----

  function Size(t: Tree): nat { if t.Null? then 0 else 1 + Size(t.left) + Size(t.right) }

  function Height(t: Tree): nat
  {
    if t.Null? then 0 else 1 + if Height(t.left) < Height(t.right) then Height(t.right) else Height(t.left)
  }

  /** Red nodes at most double the length of a path; black nodes alone force the size. */
  lemma {:induction false} BlackHeightBounds(t: Tree, above: Color, bh: nat)
    requires NoRedRed(t, above) && Balanced(t, bh)
    ensures Pow(2, bh) <= Size(t) + 1
    ensures Height(t) <= 2 * bh + (if t.Node? && t.color == Red then 1 else 0)
  {
    if t.Node? {
      BalancedChildren(t, bh);
      var b := bh - BlackOf(t);
      BlackHeightBounds(t.left, t.color, b);
      BlackHeightBounds(t.right, t.color, b);
      assert Pow(2, bh) <= 2 * Pow(2, b);
    } else {
      assert LeadsOut(t, []);
    }
  }

  /** An accepted tree of n nodes has height at most 2 log2(n + 1). */
  lemma AcceptedIsShallow(t: Tree, bh: nat)
    requires RedBlack(t, bh)
    ensures Pow(2, Height(t)) <= (Size(t) + 1) * (Size(t) + 1)
  {
    hide Pow, Height, Size, RedBlack;
    assert NoRedRed(t, Red) && Balanced(t, bh) && t.color == Black by { RedBlackParts(t, bh); }
    BlackHeightBounds(t, Red, bh);
    PowMonotone(2, Height(t), bh + bh);
    PowAdd(2, bh, bh);
    MulMonotone(Pow(2, bh), Pow(2, bh), Size(t) + 1);
    MulMonotone(Size(t) + 1, Pow(2, bh), Size(t) + 1);
  }

  lemma RedBlackParts(t: Tree, bh: nat)
    requires RedBlack(t, bh)
    ensures t.Node? && t.color == Black && NoRedRed(t, Red) && Balanced(t, bh)
  {
    hide NoRedChildOfRed, NodeAt;
    NoRedRedOnPaths(t, Red);
  }
}
