/**
 * How the remap walk of `convertirHTML` (server.cjs) relates to the recursive
 * rewrite: the walk visits a snapshot of the body's elements in document
 * order, and after visiting the set `V` the body is `Within(V)`. A node is
 * detached exactly when a visited proper ancestor of it was replaced
 * (`Severed`); replacing a detached node changes nothing that is visible.
 */
module Walk {
  import opened JsString
  import opened Dom
  import opened Remap

  /** The walk replaces the element at path `p` below `n`, judged on `n` as it was. */
  predicate FiresAlong(cs: Casing, ins: bool, n: Node, p: Path) {
    ValidPath(n, p) && Fires(cs, InsideAbove(ins, n, p), At(n, p))
  }

  /** Some visited proper ancestor of the node at `p` in `orig` is replaced by the walk. */
  predicate Severed(cs: Casing, orig: Node, V: set<Path>, p: Path) {
    exists k :: 0 <= k < |p| && p[..k] in V && FiresAlong(cs, false, orig, p[..k])
  }

  /** Some proper ancestor of `p` is among the replaced paths `R`. */
  predicate Detached(R: set<Path>, p: Path) {
    exists k :: 0 <= k < |p| && p[..k] in R
  }

  lemma PrefixThrough(at: Path, a: Path, q: Path)
    requires at + a <= q
    ensures at <= q
  {
    assert q[..|at|] == (at + a)[..|at|];
  }

  lemma OtherBranch(at: Path, k: nat, p: Path)
    requires p != [] && p[0] != k
    ensures !(at + [k] <= at + p)
  {
    assert (at + [k])[|at|] == k && (at + p)[|at|] == p[0];
  }

  lemma SplitPath(at: Path, j: nat, p: Path)
    requires p != [] && p[0] == j
    ensures (at + [j]) + p[1..] == at + p
  {
    assert p == [j] + p[1..];
  }

  /** The rewrite below `at` depends only on the visited paths below `at`. */
  lemma {:induction false} WithinFrame(cs: Casing, V1: set<Path>, V2: set<Path>, ins: bool, at: Path, n: Node)
    requires forall q :: at <= q ==> (q in V1 <==> q in V2)
    ensures Within(cs, V1, ins, at, n) == Within(cs, V2, ins, at, n)
    decreases n
  {
    assert at <= at;
    if n.Elem? {
      forall k | 0 <= k < |n.children|
        ensures Within(cs, V1, Inside(ins, n), at + [k], n.children[k]) == Within(cs, V2, Inside(ins, n), at + [k], n.children[k])
      {
        forall q | at + [k] <= q ensures q in V1 <==> q in V2 {
          PrefixThrough(at, [k], q);
        }
        WithinFrame(cs, V1, V2, Inside(ins, n), at + [k], n.children[k]);
      }
    }
  }

  /** Nothing changes below `at` before the walk has visited anything there. */
  lemma {:induction false} WithinUntouched(cs: Casing, V: set<Path>, ins: bool, at: Path, n: Node)
    requires forall q :: q in V ==> !(at <= q)
    ensures Within(cs, V, ins, at, n) == n
    decreases n
  {
    assert at <= at;
    if n.Elem? {
      forall k | 0 <= k < |n.children| ensures Within(cs, V, Inside(ins, n), at + [k], n.children[k]) == n.children[k] {
        WithinUntouched(cs, V, Inside(ins, n), at + [k], n.children[k]);
      }
    }
  }

  /** Once every element below `at` is visited, the result is the recursive rewrite. */
  lemma {:induction false} WithinAll(cs: Casing, V: set<Path>, ins: bool, at: Path, n: Node)
    requires forall q :: ValidPath(n, q) && At(n, q).Elem? ==> at + q in V
    ensures Within(cs, V, ins, at, n) == RemapNode(cs, ins, n)
    decreases n
  {
    if n.Elem? {
      assert ValidPath(n, []) && at + [] == at;
      forall k | 0 <= k < |n.children|
        ensures Within(cs, V, Inside(ins, n), at + [k], n.children[k]) == RemapNode(cs, Inside(ins, n), n.children[k])
      {
        forall q | ValidPath(n.children[k], q) && At(n.children[k], q).Elem? ensures (at + [k]) + q in V {
          var p := [k] + q;
          assert p[1..] == q;
          assert ValidPath(n, p) && At(n, p) == At(n.children[k], q);
          SplitPath(at, k, p);
        }
        WithinAll(cs, V, Inside(ins, n), at + [k], n.children[k]);
      }
    }
  }

  lemma FiresAlongChild(cs: Casing, ins: bool, n: Node, j: nat, y: Path)
    requires n.Elem? && j < |n.children|
    ensures FiresAlong(cs, ins, n, [j] + y) == FiresAlong(cs, Inside(ins, n), n.children[j], y)
  {
    assert ([j] + y)[1..] == y;
  }

  /** Prefixes of `p` below its first step, seen from the child it enters. */
  lemma PrefixChild(at: Path, p: Path, k: nat)
    requires 0 < k <= |p|
    ensures p[..k] == [p[0]] + p[1..][..k - 1]
    ensures at + p[..k] == (at + [p[0]]) + p[1..][..k - 1]
  {
    assert p[..k] == [p[0]] + p[1..][..k - 1];
  }

  lemma {:induction false} BlockedWitnessFrom(cs: Casing, V: set<Path>, ins: bool, at: Path, n: Node, p: Path) returns (k: nat)
    requires ValidPath(n, p) && Blocked(cs, V, ins, at, n, p)
    ensures k < |p| && at + p[..k] in V && FiresAlong(cs, ins, n, p[..k])
    decreases p
  {
    var j, c, ins' := p[0], n.children[p[0]], Inside(ins, n);
    if at in V && Fires(cs, ins, n) {
      k := 0;
      assert p[..0] == [] && at + [] == at;
    } else {
      var k' := BlockedWitnessFrom(cs, V, ins', at + [j], c, p[1..]);
      k := k' + 1;
      PrefixChild(at, p, k);
      FiresAlongChild(cs, ins, n, j, p[1..][..k']);
    }
  }

  lemma {:induction false} BlockedWitnessTo(cs: Casing, V: set<Path>, ins: bool, at: Path, n: Node, p: Path, k: nat)
    requires ValidPath(n, p) && k < |p| && at + p[..k] in V && FiresAlong(cs, ins, n, p[..k])
    ensures Blocked(cs, V, ins, at, n, p)
    decreases p
  {
    var j, c, ins' := p[0], n.children[p[0]], Inside(ins, n);
    if k == 0 {
      assert p[..0] == [] && at + [] == at;
    } else {
      PrefixChild(at, p, k);
      FiresAlongChild(cs, ins, n, j, p[1..][..k - 1]);
      BlockedWitnessTo(cs, V, ins', at + [j], c, p[1..], k - 1);
    }
  }

  /** At the top of the body, `Blocked` is `Severed`. */
  lemma BlockedSevered(cs: Casing, V: set<Path>, orig: Node, p: Path)
    requires ValidPath(orig, p)
    ensures Blocked(cs, V, false, [], orig, p) <==> Severed(cs, orig, V, p)
  {
    if Blocked(cs, V, false, [], orig, p) {
      BlockedIsSevered(cs, V, orig, p);
    }
    if Severed(cs, orig, V, p) {
      SeveredIsBlocked(cs, V, orig, p);
    }
  }

  lemma BlockedIsSevered(cs: Casing, V: set<Path>, orig: Node, p: Path)
    requires ValidPath(orig, p) && Blocked(cs, V, false, [], orig, p)
    ensures Severed(cs, orig, V, p)
  {
    var k := BlockedWitnessFrom(cs, V, false, [], orig, p);
    assert [] + p[..k] == p[..k];
  }

  lemma SeveredIsBlocked(cs: Casing, V: set<Path>, orig: Node, p: Path)
    requires ValidPath(orig, p) && Severed(cs, orig, V, p)
    ensures Blocked(cs, V, false, [], orig, p)
  {
    var k :| 0 <= k < |p| && p[..k] in V && FiresAlong(cs, false, orig, p[..k]);
    assert [] + p[..k] == p[..k];
    BlockedWitnessTo(cs, V, false, [], orig, p, k);
  }

  /**
   * Visiting the element at `p`, none of whose descendants has been visited:
   * if it is detached nothing changes; otherwise it is found as it was in the
   * original, under the same ancestors, and the walk replaces it exactly when
   * the recursive rewrite does.
   */
  lemma {:induction false} WithinStep(cs: Casing, V: set<Path>, ins: bool, at: Path, n: Node, p: Path)
    requires ValidPath(n, p)
    requires forall q :: q in V ==> !(at + p <= q)
    ensures Blocked(cs, V, ins, at, n, p) ==> Within(cs, V + {at + p}, ins, at, n) == Within(cs, V, ins, at, n)
    ensures !Blocked(cs, V, ins, at, n, p) ==>
      var w := Within(cs, V, ins, at, n);
      && ValidPath(w, p) && At(w, p) == At(n, p)
      && InsideAbove(ins, w, p) == InsideAbove(ins, n, p)
      && Within(cs, V + {at + p}, ins, at, n) ==
         (if Fires(cs, InsideAbove(ins, n, p), At(n, p))
          then ReplaceAt(w, p, Replacement(cs, InsideAbove(ins, n, p), At(n, p)))
          else w)
    decreases p
  {
    var V' := V + {at + p};
    if p == [] {
      assert at + p == at;
      WithinUntouched(cs, V, ins, at, n);
      if !Fires(cs, ins, n) {
        WithinStepBase(cs, V, ins, at, n);
      }
    } else if !(at in V && Fires(cs, ins, n)) {
      WithinStepDown(cs, V, ins, at, n, p);
    }
  }

  /** The visited element itself: it is not replaced, so only what is below it could change, and nothing below it is visited. */
  lemma WithinStepBase(cs: Casing, V: set<Path>, ins: bool, at: Path, n: Node)
    requires at !in V && !Fires(cs, ins, n)
    ensures Within(cs, V + {at}, ins, at, n) == Within(cs, V, ins, at, n)
  {
    if n.Elem? {
      forall k | 0 <= k < |n.children|
        ensures Within(cs, V + {at}, Inside(ins, n), at + [k], n.children[k]) == Within(cs, V, Inside(ins, n), at + [k], n.children[k])
      {
        WithinFrame(cs, V + {at}, V, Inside(ins, n), at + [k], n.children[k]);
      }
    }
  }

  /** The step below an element the walk has not replaced: the siblings of the path's child are untouched. */
  lemma {:induction false} WithinStepDown(cs: Casing, V: set<Path>, ins: bool, at: Path, n: Node, p: Path)
    requires ValidPath(n, p) && p != [] && !(at in V && Fires(cs, ins, n))
    requires forall q :: q in V ==> !(at + p <= q)
    ensures Blocked(cs, V, ins, at, n, p) ==> Within(cs, V + {at + p}, ins, at, n) == Within(cs, V, ins, at, n)
    ensures !Blocked(cs, V, ins, at, n, p) ==>
      var w := Within(cs, V, ins, at, n);
      && ValidPath(w, p) && At(w, p) == At(n, p)
      && InsideAbove(ins, w, p) == InsideAbove(ins, n, p)
      && Within(cs, V + {at + p}, ins, at, n) ==
         (if Fires(cs, InsideAbove(ins, n, p), At(n, p))
          then ReplaceAt(w, p, Replacement(cs, InsideAbove(ins, n, p), At(n, p)))
          else w)
    decreases p, 0
  {
    var V' := V + {at + p};
    var j, c, ins' := p[0], n.children[p[0]], Inside(ins, n);
    var ch := n.children;
    SplitPath(at, j, p);
    assert at != at + p;
    var w, w' := Within(cs, V, ins, at, n), Within(cs, V', ins, at, n);
    assert w.children == seq(|ch|, k requires 0 <= k < |ch| => Within(cs, V, ins', at + [k], ch[k]));
    assert w'.children == seq(|ch|, k requires 0 <= k < |ch| => Within(cs, V', ins', at + [k], ch[k]));
    forall k | 0 <= k < |ch| && k != j ensures w'.children[k] == w.children[k] {
      OtherBranch(at, k, p);
      WithinFrame(cs, V', V, ins', at + [k], ch[k]);
    }
    WithinStep(cs, V, ins', at + [j], c, p[1..]);
    if !Blocked(cs, V, ins, at, n, p) {
      if Fires(cs, InsideAbove(ins, n, p), At(n, p)) {
        var r := Replacement(cs, InsideAbove(ins, n, p), At(n, p));
        assert w'.children == w.children[j := ReplaceAt(w.children[j], p[1..], r)];
      } else {
        assert w'.children == w.children;
      }
    } else {
      assert w'.children == w.children;
    }
  }

  /** What the walk records, the replaced paths, tells exactly which nodes are detached. */
  lemma RecordStep(cs: Casing, orig: Node, V: set<Path>, R: set<Path>, p: Path)
    requires forall x :: Detached(R, x) <==> Severed(cs, orig, V, x)
    ensures var R' := if !Detached(R, p) && FiresAlong(cs, false, orig, p) then R + {p} else R;
      forall x :: Detached(R', x) <==> Severed(cs, orig, V + {p}, x)
  {
    var fires := FiresAlong(cs, false, orig, p);
    var R' := if !Detached(R, p) && fires then R + {p} else R;
    forall x ensures Detached(R', x) <==> Severed(cs, orig, V + {p}, x) {
      if p < x {
        assert x[..|p|] == p;
        if Detached(R, p) {
          var k :| 0 <= k < |p| && p[..k] in R;
          assert x[..k] == p[..k];
        }
      }
      if Severed(cs, orig, V + {p}, x) && !Severed(cs, orig, V, x) {
        var k :| 0 <= k < |x| && x[..k] in V + {p} && FiresAlong(cs, false, orig, x[..k]);
        assert x[..k] == p;
        assert x[..|p|] == p;
      }
      if Detached(R', x) && !Detached(R, x) {
        var k :| 0 <= k < |x| && x[..k] in R';
        assert x[..k] == p;
        assert x[..|p|] == p;
      }
    }
  }

  /**
   * Once every element below the body is visited, and the body itself is not
   * (`querySelectorAll("*")` leaves it out), the body is the recursive rewrite.
   */
  lemma WalkDone(cs: Casing, V: set<Path>, orig: Node)
    requires orig.Elem? && [] !in V
    requires forall q :: ValidPath(orig, q) && At(orig, q).Elem? && q != [] ==> q in V
    ensures Within(cs, V, false, [], orig) == RemapBody(cs, orig)
  {
    var ch := orig.children;
    forall k | 0 <= k < |ch|
      ensures Within(cs, V, Inside(false, orig), [] + [k], ch[k]) == RemapNode(cs, Inside(false, orig), ch[k])
    {
      forall q | ValidPath(ch[k], q) && At(ch[k], q).Elem? ensures ([] + [k]) + q in V {
        var x := [k] + q;
        assert x[1..] == q && ([] + [k]) + q == x;
        assert ValidPath(orig, x) && At(orig, x) == At(ch[k], q);
      }
      WithinAll(cs, V, Inside(false, orig), [] + [k], ch[k]);
    }
    assert Within(cs, V, false, [], orig).children == RemapBody(cs, orig).children;
  }

  /** What the walk keeps: the body is the rewrite at the visited paths, and `R` tells the detached nodes. */
  ghost predicate WalkState(cs: Casing, orig: Node, V: set<Path>, R: set<Path>, body: Node) {
    && body == Within(cs, V, false, [], orig)
    && forall x :: Detached(R, x) <==> Severed(cs, orig, V, x)
  }

  /** The node the walk would replace at `p`, with the body as it was, and where `R` is `p`'s record. */
  function Visited(cs: Casing, orig: Node, R: set<Path>, p: Path, w: Node): Node
    requires ValidPath(w, p)
    requires ValidPath(orig, p) && At(w, p) == At(orig, p) && InsideAbove(false, w, p) == InsideAbove(false, orig, p)
  {
    if !Detached(R, p) && FiresAlong(cs, false, orig, p)
    then ReplaceAt(w, p, Replacement(cs, InsideAbove(false, orig, p), At(orig, p)))
    else w
  }

  /**
   * One visit of the walk at `p`, below which nothing has been visited: a
   * node that is not detached is found as it was in the original, under the
   * same ancestors; the walk replaces it exactly when the recursive rewrite
   * does, and records it as replaced.
   */
  lemma WalkStep(cs: Casing, orig: Node, V: set<Path>, R: set<Path>, body: Node, p: Path)
    requires ValidPath(orig, p) && forall q :: q in V ==> !(p <= q)
    requires WalkState(cs, orig, V, R, body)
    ensures !Detached(R, p) ==>
      && ValidPath(body, p) && At(body, p) == At(orig, p)
      && InsideAbove(false, body, p) == InsideAbove(false, orig, p)
      && var R' := if FiresAlong(cs, false, orig, p) then R + {p} else R;
         WalkState(cs, orig, V + {p}, R', Visited(cs, orig, R, p, body))
    ensures Detached(R, p) ==> WalkState(cs, orig, V + {p}, R, body)
  {
    assert [] + p == p;
    WithinStep(cs, V, false, [], orig, p);
    BlockedSevered(cs, V, orig, p);
    RecordStep(cs, orig, V, R, p);
  }

  /** The paths among the first `i` of `s`: what a walk over `s` has visited after `i` steps. */
  ghost function Seen(s: seq<Path>, i: nat): set<Path>
    requires i <= |s|
  {
    if i == 0 then {} else Seen(s, i - 1) + {s[i - 1]}
  }

  lemma {:induction false} SeenMember(s: seq<Path>, i: nat, q: Path)
    requires i <= |s|
    ensures q in Seen(s, i) <==> q in s[..i]
  {
    if i > 0 {
      SeenMember(s, i - 1, q);
      assert s[..i] == s[..i - 1] + [s[i - 1]];
    }
  }

  /** The `i`-th element of the snapshot is an element below the body, and no earlier one lies below it. */
  lemma SnapshotStep(orig: Node, i: nat)
    requires orig.Elem? && i < |ElemPaths(orig)[1..]|
    ensures var s := ElemPaths(orig)[1..];
      && s[i] != [] && ValidPath(orig, s[i]) && At(orig, s[i]).Elem?
      && forall q :: q in Seen(s, i) ==> !(s[i] <= q)
  {
    var s := ElemPaths(orig)[1..];
    Descendants(orig);
    forall q | q in Seen(s, i) ensures q in s[..i] {
      SeenMember(s, i, q);
    }
    NotBelowEarlier(s, i, Seen(s, i));
  }

  /** After the whole snapshot, the walk has produced the recursive rewrite of the body. */
  lemma SnapshotDone(cs: Casing, orig: Node)
    requires orig.Elem?
    ensures var s := ElemPaths(orig)[1..];
      Within(cs, Seen(s, |s|), false, [], orig) == RemapBody(cs, orig)
  {
    var s := ElemPaths(orig)[1..];
    var V := Seen(s, |s|);
    Descendants(orig);
    forall q | ValidPath(orig, q) && At(orig, q).Elem? && q != [] ensures q in V {
      SeenMember(s, |s|, q);
      assert s[..|s|] == s;
    }
    assert [] !in V by {
      SeenMember(s, |s|, []);
      assert s[..|s|] == s;
    }
    WalkDone(cs, V, orig);
  }
}
