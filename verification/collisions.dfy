/** The collision sweep of `checkCollisions`: collect every sprite of one kind
    whose inset frame meets the hero's frame, then remove each collected sprite
    from the scene. */
module Collisions {
  import opened Geometry

  /** An obstacle or astronaut node: its identity in the node tree and its frame. */
  datatype Sprite = Sprite(id: nat, frame: Rect)

  /** How far each sprite frame is shrunk, horizontally and vertically,
      before it is tested against the hero's frame. */
  const InsetX: real := 20.0
  const InsetY: real := 30.0

  /** The engine's rectangle intersection test, whose treatment of touching
      edges and empty rectangles the model does not fix. */
  type Intersects = (Rect, Rect) -> bool

  /** The sprite's inset frame meets the hero's frame. */
  predicate Hit(s: Sprite, heroFrame: Rect, intersects: Intersects)
  {
    intersects(InsetBy(s.frame, InsetX, InsetY), heroFrame)
  }

  /** The enumeration pass: the sprites that are hit, in enumeration order. */
  function CollectHits(ss: seq<Sprite>, heroFrame: Rect, intersects: Intersects): (hits: seq<Sprite>)
    ensures forall s :: s in hits <==> s in ss && Hit(s, heroFrame, intersects)
    ensures |hits| <= |ss|
  {
    if ss == [] then []
    else
      var rest := CollectHits(ss[1..], heroFrame, intersects);
      if Hit(ss[0], heroFrame, intersects) then [ss[0]] + rest else rest
  }

  /** `removeFromParent` of one node: the node leaves the list, and a node
      that is not there leaves the list as it is. */
  function RemoveNode(ss: seq<Sprite>, n: Sprite): (r: seq<Sprite>)
    ensures forall s :: s in r <==> s in ss && s != n
    ensures n !in ss ==> r == ss
  {
    if ss == [] then []
    else
      var rest := RemoveNode(ss[1..], n);
      if ss[0] == n then rest else [ss[0]] + rest
  }

  /** The removal pass: `removeFromParent` on each collected node in turn. */
  function RemoveEach(ss: seq<Sprite>, hits: seq<Sprite>): (r: seq<Sprite>)
    ensures forall s :: s in r <==> s in ss && s !in hits
    decreases |hits|
  {
    if hits == [] then ss else RemoveEach(RemoveNode(ss, hits[0]), hits[1..])
  }

  /** The reference outcome of a sweep: the sprites that are not hit, in order. */
  function Survivors(ss: seq<Sprite>, heroFrame: Rect, intersects: Intersects): seq<Sprite>
  {
    if ss == [] then []
    else
      var rest := Survivors(ss[1..], heroFrame, intersects);
      if Hit(ss[0], heroFrame, intersects) then rest else [ss[0]] + rest
  }

  /** The sprites of `ss` that do not occur in `hs`, in order. */
  function Without(ss: seq<Sprite>, hs: seq<Sprite>): seq<Sprite>
  {
    if ss == [] then []
    else if ss[0] in hs then Without(ss[1..], hs)
    else [ss[0]] + Without(ss[1..], hs)
  }

  /** No node occurs twice, as in a node tree. */
  predicate NoDuplicates(ss: seq<Sprite>)
  {
    forall i, j :: 0 <= i < j < |ss| ==> ss[i] != ss[j]
  }

  lemma {:induction false} WithoutNothing(ss: seq<Sprite>)
    ensures Without(ss, []) == ss
  {
    if ss != [] {
      WithoutNothing(ss[1..]);
    }
  }

  /** Removing one more node from a filtered list filters by one more node. */
  lemma {:induction false} RemoveNodeWithout(ss: seq<Sprite>, hs: seq<Sprite>, n: Sprite)
    ensures RemoveNode(Without(ss, hs), n) == Without(ss, hs + [n])
  {
    if ss != [] {
      RemoveNodeWithout(ss[1..], hs, n);
      if ss[0] !in hs && ss[0] != n {
        assert Without(ss, hs) == [ss[0]] + Without(ss[1..], hs);
        assert ([ss[0]] + Without(ss[1..], hs))[1..] == Without(ss[1..], hs);
      } else if ss[0] !in hs {
        assert Without(ss, hs) == [ss[0]] + Without(ss[1..], hs);
        assert ([ss[0]] + Without(ss[1..], hs))[1..] == Without(ss[1..], hs);
      }
    }
  }

  lemma {:induction false} RemoveEachFrom(ss: seq<Sprite>, pre: seq<Sprite>, hs: seq<Sprite>)
    ensures RemoveEach(Without(ss, pre), hs) == Without(ss, pre + hs)
    decreases |hs|
  {
    if hs == [] {
      assert pre + hs == pre;
    } else {
      RemoveNodeWithout(ss, pre, hs[0]);
      RemoveEachFrom(ss, pre + [hs[0]], hs[1..]);
      assert pre + [hs[0]] + hs[1..] == pre + hs;
    }
  }

  /** The removal pass removes exactly the listed nodes and keeps the order of the rest. */
  lemma RemoveEachIsWithout(ss: seq<Sprite>, hs: seq<Sprite>)
    ensures RemoveEach(ss, hs) == Without(ss, hs)
  {
    WithoutNothing(ss);
    RemoveEachFrom(ss, [], hs);
    assert [] + hs == hs;
  }

  /** Filtering out a list that holds exactly the hit sprites of `ss` leaves
      the survivors. */
  lemma {:induction false} WithoutHitsIsSurvivors(ss: seq<Sprite>, hs: seq<Sprite>, heroFrame: Rect, intersects: Intersects)
    requires forall s :: s in ss ==> (s in hs <==> Hit(s, heroFrame, intersects))
    ensures Without(ss, hs) == Survivors(ss, heroFrame, intersects)
  {
    if ss != [] {
      assert ss[0] in ss;
      forall s | s in ss[1..] ensures s in hs <==> Hit(s, heroFrame, intersects) {
        assert s in ss;
      }
      WithoutHitsIsSurvivors(ss[1..], hs, heroFrame, intersects);
    }
  }

  /** One sweep over the sprites of one kind: the result is the reference
      survivors list, so a sprite stays exactly when it is not hit, the order
      of the remaining sprites is kept, and the list never grows. */
  function Sweep(ss: seq<Sprite>, heroFrame: Rect, intersects: Intersects): (r: seq<Sprite>)
    ensures r == Survivors(ss, heroFrame, intersects)
    ensures forall s :: s in r <==> s in ss && !Hit(s, heroFrame, intersects)
    ensures |r| <= |ss|
  {
    var hits := CollectHits(ss, heroFrame, intersects);
    RemoveEachIsWithout(ss, hits);
    WithoutHitsIsSurvivors(ss, hits, heroFrame, intersects);
    SurvivorsPartition(ss, heroFrame, intersects);
    RemoveEach(ss, hits)
  }

  /** Every sprite either survives or is collected as a hit, exactly once:
      the two lists together are the original one as a multiset. */
  lemma {:induction false} SurvivorsPartition(ss: seq<Sprite>, heroFrame: Rect, intersects: Intersects)
    ensures multiset(Survivors(ss, heroFrame, intersects)) + multiset(CollectHits(ss, heroFrame, intersects))
         == multiset(ss)
    ensures |Survivors(ss, heroFrame, intersects)| + |CollectHits(ss, heroFrame, intersects)| == |ss|
    ensures forall s :: s in Survivors(ss, heroFrame, intersects) <==> s in ss && !Hit(s, heroFrame, intersects)
  {
    if ss != [] {
      SurvivorsPartition(ss[1..], heroFrame, intersects);
      assert ss == [ss[0]] + ss[1..];
      assert multiset(ss) == multiset{ss[0]} + multiset(ss[1..]);
    }
  }

  /** A node of the tree is collected at most once, so each removal targets a
      different node. */
  lemma {:induction false} CollectHitsNoDuplicates(ss: seq<Sprite>, heroFrame: Rect, intersects: Intersects)
    requires NoDuplicates(ss)
    ensures NoDuplicates(CollectHits(ss, heroFrame, intersects))
  {
    if ss != [] {
      assert NoDuplicates(ss[1..]) by {
        forall i, j | 0 <= i < j < |ss[1..]| ensures ss[1..][i] != ss[1..][j] {
          assert ss[1..][i] == ss[i + 1] && ss[1..][j] == ss[j + 1];
        }
      }
      CollectHitsNoDuplicates(ss[1..], heroFrame, intersects);
      assert ss[0] !in ss[1..] by {
        forall k | 0 <= k < |ss[1..]| ensures ss[1..][k] != ss[0] {
          assert ss[1..][k] == ss[k + 1];
        }
      }
    }
  }

  /** Removing a node that is already gone changes nothing. */
  lemma RemoveNodeIdempotent(ss: seq<Sprite>, n: Sprite)
    ensures RemoveNode(RemoveNode(ss, n), n) == RemoveNode(ss, n)
  {
  }

  /** A sprite removed by one sweep is not there for the next one: sweeping
      the survivors again with the same hero frame removes nothing. */
  lemma {:induction false} SweepIdempotent(ss: seq<Sprite>, heroFrame: Rect, intersects: Intersects)
    ensures Sweep(Sweep(ss, heroFrame, intersects), heroFrame, intersects)
         == Sweep(ss, heroFrame, intersects)
  {
    SurvivorsIdempotent(ss, heroFrame, intersects);
  }

  lemma {:induction false} SurvivorsIdempotent(ss: seq<Sprite>, heroFrame: Rect, intersects: Intersects)
    ensures Survivors(Survivors(ss, heroFrame, intersects), heroFrame, intersects)
         == Survivors(ss, heroFrame, intersects)
  {
    if ss != [] {
      SurvivorsIdempotent(ss[1..], heroFrame, intersects);
      var rest := Survivors(ss[1..], heroFrame, intersects);
      if !Hit(ss[0], heroFrame, intersects) {
        assert ([ss[0]] + rest)[1..] == rest;
      }
    }
  }
}
