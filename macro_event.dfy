/**
 * The macro event tree of the preprocessor and the ancestor test `isMine`
 * that every node of it inherits.
 *
 * The nodes live in an arena: event `i` has parent `parent[i]` (None for a
 * top-level event). The arena is well formed when every parent has a smaller
 * index than its child, which is the case when events are numbered in the
 * order they are created (a parent reference exists before its children) and
 * which makes every parent chain finite.
 */
module MacroEvents {
  import opened Optional

  type EventId = nat
  type Arena = seq<Option<EventId>>

  predicate WellFormed(parent: Arena) {
    forall i :: 0 <= i < |parent| && parent[i].Some? ==> parent[i].value < i
  }

  /** `obj` is null or an event of the arena. */
  predicate InArena(parent: Arena, obj: Option<EventId>) {
    obj.Some? ==> obj.value < |parent|
  }

  function Parent(parent: Arena, e: EventId): (p: Option<EventId>)
    requires WellFormed(parent) && e < |parent|
    ensures p.Some? ==> p.value < e
  {
    parent[e]
  }

  /**
   * `x.isMine(obj)`: false for null, true when `obj` is `x` itself, and
   * otherwise the answer for the parent of `obj`.
   */
  function IsMine(parent: Arena, x: EventId, obj: Option<EventId>): (r: bool)
    requires WellFormed(parent) && x < |parent| && InArena(parent, obj)
    ensures r ==> obj.Some? && x <= obj.value
    ensures obj == Some(x) ==> r
    decreases if obj.Some? then obj.value + 1 else 0
  {
    if obj.None? then false
    else if obj.value == x then true
    else IsMine(parent, x, Parent(parent, obj.value))
  }

  /** The event reached from `e` by following `k` parent links, if the chain is that long. */
  function Ancestor(parent: Arena, e: EventId, k: nat): (r: Option<EventId>)
    requires WellFormed(parent) && e < |parent|
    ensures r.Some? ==> r.value <= e && r.value < |parent|
    ensures k == 0 ==> r == Some(e)
  {
    if k == 0 then Some(e)
    else match Parent(parent, e)
      case None => None
      case Some(p) => Ancestor(parent, p, k - 1)
  }

  lemma IsMineNull(parent: Arena, x: EventId)
    requires WellFormed(parent) && x < |parent|
    ensures !IsMine(parent, x, None)
  {
  }

  lemma IsMineSelf(parent: Arena, x: EventId)
    requires WellFormed(parent) && x < |parent|
    ensures IsMine(parent, x, Some(x))
  {
  }

  /** `x.isMine(y)` exactly when `x` lies on the parent chain that starts at `y`, `y` included. */
  lemma {:induction false} IsMineIffOnChain(parent: Arena, x: EventId, y: EventId)
    requires WellFormed(parent) && x < |parent| && y < |parent|
    ensures IsMine(parent, x, Some(y)) <==> exists k: nat :: Ancestor(parent, y, k) == Some(x)
    decreases y
  {
    if x == y {
      assert Ancestor(parent, y, 0) == Some(x);
    } else {
      match Parent(parent, y)
      case None =>
        forall k: nat ensures Ancestor(parent, y, k) != Some(x) {
          if k > 0 { assert Ancestor(parent, y, k) == None; }
        }
      case Some(p) =>
        IsMineIffOnChain(parent, x, p);
        if IsMine(parent, x, Some(y)) {
          var k: nat :| Ancestor(parent, p, k) == Some(x);
          assert Ancestor(parent, y, k + 1) == Some(x);
        } else {
          forall k: nat ensures Ancestor(parent, y, k) != Some(x) {
            if k > 0 { assert Ancestor(parent, y, k) == Ancestor(parent, p, k - 1); }
          }
        }
    }
  }

  /** An event that owns the parent of `y` owns `y`. */
  lemma ParentStep(parent: Arena, x: EventId, y: EventId)
    requires WellFormed(parent) && x < |parent| && y < |parent|
    requires IsMine(parent, x, Parent(parent, y))
    ensures IsMine(parent, x, Some(y))
  {
  }

  /** Owners are never younger than what they own. */
  lemma {:induction false} IsMineOrdered(parent: Arena, x: EventId, y: EventId)
    requires WellFormed(parent) && x < |parent| && y < |parent|
    requires IsMine(parent, x, Some(y))
    ensures x <= y
    decreases y
  {
    if x != y {
      var p := Parent(parent, y);
      IsMineOrdered(parent, x, p.value);
    }
  }

  lemma IsMineAntisymmetric(parent: Arena, x: EventId, y: EventId)
    requires WellFormed(parent) && x < |parent| && y < |parent|
    requires IsMine(parent, x, Some(y)) && IsMine(parent, y, Some(x))
    ensures x == y
  {
    IsMineOrdered(parent, x, y);
    IsMineOrdered(parent, y, x);
  }

  lemma {:induction false} IsMineTransitive(parent: Arena, x: EventId, y: EventId, z: EventId)
    requires WellFormed(parent) && x < |parent| && y < |parent| && z < |parent|
    requires IsMine(parent, x, Some(y)) && IsMine(parent, y, Some(z))
    ensures IsMine(parent, x, Some(z))
    decreases z
  {
    if y != z {
      var p := Parent(parent, z);
      IsMineTransitive(parent, x, y, p.value);
    }
  }
}
