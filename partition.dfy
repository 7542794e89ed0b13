/**
 * Binary space partitioning of the dungeon (dungeon-gen Partition): a
 * rectangle is cut, at random, into two children until neither side can hold
 * two partitions of the minimum size.
 */
module Partition {
  import opened Rng
  import opened MathUtil
  import opened Rect

  /**
   * A partition: a leaf, whose `left` and `right` are both null, or a split
   * one, whose children are both set.
   */
  datatype Partition = Leaf(rect: Rect) | Split(rect: Rect, left: Partition, right: Partition) {

    /** `isLeaf()`: neither child is set. */
    predicate IsLeaf() {
      Leaf?
    }

    /** `getLeaves()`: this leaf, or the left child's leaves followed by the right child's. */
    function GetLeaves(): (ls: seq<Partition>)
      ensures |ls| >= 1
      ensures forall k :: 0 <= k < |ls| ==> ls[k].Leaf?
      decreases this
    {
      if IsLeaf() then [this] else left.GetLeaves() + right.GetLeaves()
    }
  }

  /** `a` is the part of `p` above height `a.h` and `b` the rest; both are at least m high. */
  predicate HorizontalCut(p: Rect, a: Rect, b: Rect, m: int) {
    a == Rect(p.x, p.y, p.w, a.h) && b == Rect(p.x, p.y + a.h, p.w, p.h - a.h) &&
    m <= a.h && m <= p.h - a.h
  }

  /** `a` is the part of `p` left of column `a.w` and `b` the rest; both are at least m wide. */
  predicate VerticalCut(p: Rect, a: Rect, b: Rect, m: int) {
    a == Rect(p.x, p.y, a.w, p.h) && b == Rect(p.x + a.w, p.y, p.w - a.w, p.h) &&
    m <= a.w && m <= p.w - a.w
  }

  /**
   * What `split(m)` leaves behind: every split node is cut along one axis into
   * two children of at least m on that axis, and every leaf has both sides
   * below 2·m.
   */
  predicate Tiled(p: Partition, m: int)
    decreases p
  {
    match p
    case Leaf(r) => r.w < 2 * m && r.h < 2 * m
    case Split(r, a, b) =>
      (HorizontalCut(r, a.rect, b.rect, m) || VerticalCut(r, a.rect, b.rect, m)) &&
      Tiled(a, m) && Tiled(b, m)
  }

  function Pos(n: int): nat {
    if n < 0 then 0 else n
  }

  /**
   * `new Partition(r.x, r.y, r.w, r.h).split(minSize)`, with `Math.random()`
   * read from `rng`: the coin of the axis is drawn only when both axes can be
   * cut, then one draw for the cut, then the left child and the right child
   * are split in turn. The result is the tree and the stream after the last
   * draw.
   */
  function SplitRect(r: Rect, minSize: int, rng: Rng): (res: (Partition, Rng))
    requires minSize >= 1 && rng.Valid()
    ensures res.0.rect == r && res.1.draw == rng.draw && res.1.Valid()
    ensures res.0.Leaf? <==> r.h < 2 * minSize && r.w < 2 * minSize
    ensures r.h >= 2 * minSize && r.w < 2 * minSize ==>
              res.0.Split? && HorizontalCut(r, res.0.left.rect, res.0.right.rect, minSize)
    ensures r.w >= 2 * minSize && r.h < 2 * minSize ==>
              res.0.Split? && VerticalCut(r, res.0.left.rect, res.0.right.rect, minSize)
    ensures Tiled(res.0, minSize)
    decreases Pos(r.w) + Pos(r.h)
  {
    var canSplitH := r.h >= minSize * 2;
    var canSplitV := r.w >= minSize * 2;
    if !canSplitH && !canSplitV then (Leaf(r), rng)
    else
      var splitH := canSplitH && (!canSplitV || rng.Head() < 0.5);
      var g := if canSplitH && canSplitV then rng.Tail() else rng;
      if splitH then
        var split := GetRandomInt(minSize, r.h - minSize, g.Head());
        var (a, g1) := SplitRect(Rect(r.x, r.y, r.w, split), minSize, g.Tail());
        var (b, g2) := SplitRect(Rect(r.x, r.y + split, r.w, r.h - split), minSize, g1);
        (Split(r, a, b), g2)
      else
        var split := GetRandomInt(minSize, r.w - minSize, g.Head());
        var (a, g1) := SplitRect(Rect(r.x, r.y, split, r.h), minSize, g.Tail());
        var (b, g2) := SplitRect(Rect(r.x + split, r.y, r.w - split, r.h), minSize, g1);
        (Split(r, a, b), g2)
  }

  /** `a` lies inside `b`, side by side. */
  predicate Within(a: Rect, b: Rect) {
    b.x <= a.x && a.x + a.w <= b.x + b.w && b.y <= a.y && a.y + a.h <= b.y + b.h
  }

  lemma WithinContains(a: Rect, b: Rect, i: int, j: int)
    requires Within(a, b) && a.Contains(i, j)
    ensures b.Contains(i, j)
  {
  }

  /**
   * Every leaf of a tiled tree lies inside the root, has both sides below
   * 2·m, and keeps at least m on each side on which the root has at least m.
   */
  lemma {:induction false} LeavesInside(p: Partition, m: int)
    requires Tiled(p, m)
    ensures forall k :: 0 <= k < |p.GetLeaves()| ==>
              var r := p.GetLeaves()[k].rect;
              Within(r, p.rect) && r.w < 2 * m && r.h < 2 * m &&
              (p.rect.w >= m ==> r.w >= m) && (p.rect.h >= m ==> r.h >= m)
    decreases p
  {
    if p.Split? {
      LeavesInside(p.left, m);
      LeavesInside(p.right, m);
      var L: seq<Partition>, R: seq<Partition> := p.left.GetLeaves(), p.right.GetLeaves();
      assert p.GetLeaves() == L + R;
      forall k | 0 <= k < |L + R|
        ensures Within((L + R)[k].rect, p.rect)
      {
        if k < |L| {
          assert (L + R)[k] == L[k];
        } else {
          assert (L + R)[k] == R[k - |L|];
        }
      }
    }
  }

  /** The two children of a split node share no cell. */
  lemma ChildrenDisjoint(p: Partition, m: int, i: int, j: int)
    requires p.Split? && Tiled(p, m)
    ensures !(p.left.rect.Contains(i, j) && p.right.rect.Contains(i, j))
  {
  }

  /** No cell lies in two leaves of a tiled tree. */
  lemma {:induction false} LeavesDisjoint(p: Partition, m: int)
    requires Tiled(p, m)
    ensures forall a, b, i, j :: 0 <= a < b < |p.GetLeaves()| && p.GetLeaves()[a].rect.Contains(i, j) ==>
              !p.GetLeaves()[b].rect.Contains(i, j)
    decreases p
  {
    if p.Split? {
      LeavesDisjoint(p.left, m);
      LeavesDisjoint(p.right, m);
      LeavesInside(p.left, m);
      LeavesInside(p.right, m);
      var L: seq<Partition>, R: seq<Partition> := p.left.GetLeaves(), p.right.GetLeaves();
      var ls := p.GetLeaves();
      assert ls == L + R;
      forall a, b, i, j | 0 <= a < b < |ls| && ls[a].rect.Contains(i, j)
        ensures !ls[b].rect.Contains(i, j)
      {
        if b < |L| {
          assert ls[a] == L[a] && ls[b] == L[b];
        } else if |L| <= a {
          assert ls[a] == R[a - |L|] && ls[b] == R[b - |L|];
        } else {
          assert ls[a] == L[a] && ls[b] == R[b - |L|];
          if ls[b].rect.Contains(i, j) {
            WithinContains(L[a].rect, p.left.rect, i, j);
            WithinContains(R[b - |L|].rect, p.right.rect, i, j);
            ChildrenDisjoint(p, m, i, j);
          }
        }
      }
    }
  }

  /** Every cell of the root lies in some leaf. */
  lemma {:induction false} LeavesCover(p: Partition, m: int, i: int, j: int)
    requires Tiled(p, m) && p.rect.Contains(i, j)
    ensures exists k :: 0 <= k < |p.GetLeaves()| && p.GetLeaves()[k].rect.Contains(i, j)
    decreases p
  {
    if p.Leaf? {
      assert p.GetLeaves()[0] == p;
    } else {
      var L: seq<Partition>, R: seq<Partition> := p.left.GetLeaves(), p.right.GetLeaves();
      assert p.GetLeaves() == L + R;
      if p.left.rect.Contains(i, j) {
        LeavesCover(p.left, m, i, j);
        var k :| 0 <= k < |L| && L[k].rect.Contains(i, j);
        assert (L + R)[k] == L[k];
      } else {
        assert p.right.rect.Contains(i, j);
        LeavesCover(p.right, m, i, j);
        var k :| 0 <= k < |R| && R[k].rect.Contains(i, j);
        assert (L + R)[|L| + k] == R[k];
      }
    }
  }

  function Area(r: Rect): int {
    r.w * r.h
  }

  /** The total area of a list of partitions. */
  function AreaSum(ps: seq<Partition>): int {
    if ps == [] then 0 else Area(ps[0].rect) + AreaSum(ps[1..])
  }

  lemma {:induction false} AreaSumAppend(a: seq<Partition>, b: seq<Partition>)
    ensures AreaSum(a + b) == AreaSum(a) + AreaSum(b)
  {
    if a != [] {
      assert (a + b)[0] == a[0];
      assert (a + b)[1..] == a[1..] + b;
      AreaSumAppend(a[1..], b);
    } else {
      assert a + b == b;
    }
  }

  lemma Distribute(c: int, s: int, t: int)
    ensures c * s + c * t == c * (s + t) && s * c + t * c == (s + t) * c
  {
  }

  /** The areas of the leaves add up to the area of the root. */
  lemma {:induction false} LeavesArea(p: Partition, m: int)
    requires Tiled(p, m)
    ensures AreaSum(p.GetLeaves()) == Area(p.rect)
    decreases p
  {
    if p.Leaf? {
      assert AreaSum([p]) == Area(p.rect) + AreaSum([]);
    } else {
      LeavesArea(p.left, m);
      LeavesArea(p.right, m);
      AreaSumAppend(p.left.GetLeaves(), p.right.GetLeaves());
      var r, a := p.rect, p.left.rect;
      if HorizontalCut(r, a, p.right.rect, m) {
        Distribute(r.w, a.h, r.h - a.h);
      } else {
        Distribute(r.h, a.w, r.w - a.w);
      }
    }
  }
}
