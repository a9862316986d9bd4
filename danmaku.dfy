/**
 * The floating-wishes ("danmaku") overlay: a list of bullets, each a caption
 * drifting across the screen. A timer tick appends a bullet whose caption is
 * drawn from the wish pool; the end of a bullet's animation removes it by id.
 *
 * The timer and the animation are not modelled as time: a tick and an
 * animation end are method calls, and the `Math.random()` values a tick
 * uses arrive as parameters in [0, 1).
 */
module Danmaku {
  import opened RandomDraw
  import opened Sequences
  import opened WishPool

  /**
   * One floating wish. `id` is `Date.now() + Math.random()`, passed in as a
   * number; `top` is a percentage of the viewport height and `duration` a
   * number of seconds.
   */
  datatype Bullet = Bullet(id: real, text: string, top: real, duration: real, delay: real)

  /** `Math.random() * 70 + 15`: the vertical position lies in [15, 85). */
  function Top(r: real): (t: real)
    requires Unit(r)
    ensures 15.0 <= t < 85.0
  {
    r * 70.0 + 15.0
  }

  /** Every position in [15, 85) is reached, by the draw (t - 15) / 70. */
  lemma TopOnto(t: real)
    requires 15.0 <= t < 85.0
    ensures Unit((t - 15.0) / 70.0) && Top((t - 15.0) / 70.0) == t
  {
  }

  /** `Math.random() * 10 + 15`: the travel time lies in [15, 25). */
  function Duration(r: real): (d: real)
    requires Unit(r)
    ensures 15.0 <= d < 25.0
  {
    r * 10.0 + 15.0
  }

  /** Every travel time in [15, 25) is reached, by the draw (d - 15) / 10. */
  lemma DurationOnto(d: real)
    requires 15.0 <= d < 25.0
    ensures Unit((d - 15.0) / 10.0) && Duration((d - 15.0) / 10.0) == d
  {
  }

  /** `wishes[Math.floor(Math.random() * wishes.length)]`: always a member of the pool. */
  function PickWish(wishes: seq<string>, r: real): (w: string)
    requires |wishes| > 0 && Unit(r)
    ensures w in wishes
  {
    wishes[RandomIndex(r, |wishes|)]
  }

  /** Every wish of the pool can be drawn: the draw k / |wishes| picks the k-th. */
  lemma PickWishOnto(wishes: seq<string>, k: nat)
    requires k < |wishes|
    ensures Unit(k as real / |wishes| as real)
    ensures PickWish(wishes, k as real / |wishes| as real) == wishes[k]
  {
    RandomIndexOnto(|wishes|, k);
  }

  /** What every bullet the overlay creates satisfies. */
  predicate WellPlaced(b: Bullet) {
    15.0 <= b.top < 85.0 && 15.0 <= b.duration < 25.0 && b.delay == 0.0 && !Blank(b.text)
  }

  /**
   * The bullet one tick creates, from the draws for the caption, the
   * position and the travel time.
   */
  function NewBullet(wishes: seq<string>, id: real, rWish: real, rTop: real, rDuration: real): (b: Bullet)
    requires |wishes| > 0 && Unit(rWish) && Unit(rTop) && Unit(rDuration)
    ensures b.id == id && b.text in wishes && b.delay == 0.0
    ensures 15.0 <= b.top < 85.0 && 15.0 <= b.duration < 25.0
  {
    Bullet(id, PickWish(wishes, rWish), Top(rTop), Duration(rDuration), 0.0)
  }

  /** The filter test of `handleAnimationEnd`: `b => b.id !== id`. */
  function NotId(id: real): Bullet -> bool {
    (b: Bullet) => b.id != id
  }

  /** `bullets.filter(b => b.id !== id)`: exactly the bullets with another id remain. */
  function WithoutId(bullets: seq<Bullet>, id: real): (r: seq<Bullet>)
    ensures |r| <= |bullets|
    ensures forall b :: b in r <==> b in bullets && b.id != id
  {
    Filter(bullets, NotId(id))
  }

  /** The remaining bullets keep their order: they are the bullets at the positions whose id differs. */
  lemma WithoutIdInOrder(bullets: seq<Bullet>, id: real) returns (idx: seq<nat>)
    ensures |idx| == |WithoutId(bullets, id)| && Increasing(idx)
    ensures forall k :: 0 <= k < |idx| ==>
      idx[k] < |bullets| && bullets[idx[k]].id != id && WithoutId(bullets, id)[k] == bullets[idx[k]]
    ensures forall i :: 0 <= i < |bullets| && bullets[i].id != id ==> i in idx
  {
    idx := FilterOrder(bullets, NotId(id));
    forall i | 0 <= i < |bullets| && bullets[i].id != id ensures i in idx {
      assert NotId(id)(bullets[i]);
    }
  }

  /** Removing an id that no bullet carries changes nothing. */
  lemma WithoutAbsentId(bullets: seq<Bullet>, id: real)
    requires forall i :: 0 <= i < |bullets| ==> bullets[i].id != id
    ensures WithoutId(bullets, id) == bullets
  {
    FilterKeepsAll(bullets, NotId(id));
  }

  /** A second removal of the same id changes nothing: a late animation-end signal is harmless. */
  lemma WithoutIdIdempotent(bullets: seq<Bullet>, id: real)
    ensures WithoutId(WithoutId(bullets, id), id) == WithoutId(bullets, id)
  {
    FilterIdempotent(bullets, NotId(id));
  }

  /** No two bullets share an id. */
  predicate UniqueIds(bullets: seq<Bullet>) {
    forall i, j :: 0 <= i < j < |bullets| ==> bullets[i].id != bullets[j].id
  }

  /** When ids are unique, removing the id of the bullet at i removes that bullet alone. */
  lemma WithoutUniqueId(bullets: seq<Bullet>, i: nat)
    requires i < |bullets| && UniqueIds(bullets)
    ensures WithoutId(bullets, bullets[i].id) == bullets[..i] + bullets[i + 1..]
  {
    var id := bullets[i].id;
    var front, back := bullets[..i], bullets[i + 1..];
    assert bullets == front + [bullets[i]] + back;
    FilterAppend(front + [bullets[i]], back, NotId(id));
    FilterAppend(front, [bullets[i]], NotId(id));
    assert Filter([bullets[i]], NotId(id)) == [] by {
      assert [bullets[i]][1..] == [];
    }
    forall k | 0 <= k < |front| ensures front[k].id != id {
      assert front[k] == bullets[k];
    }
    forall k | 0 <= k < |back| ensures back[k].id != id {
      assert back[k] == bullets[i + 1 + k];
    }
    FilterKeepsAll(front, NotId(id));
    FilterKeepsAll(back, NotId(id));
  }

  /**
   * Removal commutes with a later spawn: removing an id other than the new
   * bullet's keeps the new bullet at the tail, and removing the new bullet's
   * own id, when no older bullet has it, gives back the list before the tick.
   */
  lemma WithoutIdAfterSpawn(bullets: seq<Bullet>, b: Bullet, id: real)
    ensures id != b.id ==> WithoutId(bullets + [b], id) == WithoutId(bullets, id) + [b]
    ensures id == b.id && (forall i :: 0 <= i < |bullets| ==> bullets[i].id != id) ==>
      WithoutId(bullets + [b], id) == bullets
  {
    FilterAppend(bullets, [b], NotId(id));
    assert Filter([b], NotId(id)) == if b.id != id then [b] else [] by {
      assert [b][1..] == [];
    }
    if forall i :: 0 <= i < |bullets| ==> bullets[i].id != id {
      WithoutAbsentId(bullets, id);
    }
  }

  /**
   * `DanmakuOverlay`: `images` is the component's prop, `bullets` its state.
   * Mounting the component (the wishes toggle is on and the gallery is not
   * loading) creates it with no bullets; unmounting discards it.
   */
  class Overlay {
    var images: seq<Photo>
    var bullets: seq<Bullet>

    /** Every live bullet is well placed and carries a caption that is not blank. */
    ghost predicate Valid()
      reads this
    {
      forall i :: 0 <= i < |bullets| ==> WellPlaced(bullets[i])
    }

    /** The current wish pool, recomputed from the photos on every render. */
    function Pool(): (w: seq<string>)
      reads this
      ensures |w| <= |images|
    {
      Wishes(images)
    }

    constructor (images: seq<Photo>)
      ensures this.images == images && bullets == [] && Valid()
    {
      this.images := images;
      bullets := [];
    }

    /**
     * A new `images` prop while mounted: React keeps the `bullets` state and
     * the pool follows the new photos. The gallery itself never does this
     * while the overlay is mounted: `fetchImages` sets `loading` first, which
     * unmounts the overlay, so a refresh ends in a fresh mount (the
     * constructor) with the new photos and no bullets.
     */
    method SetImages(images: seq<Photo>)
      requires Valid()
      modifies this
      ensures Valid() && this.images == images && bullets == old(bullets)
    {
      this.images := images;
    }

    /**
     * One firing of the 3.5-second interval. With an empty pool the effect
     * starts no interval, so no tick creates anything (`spawned` is false);
     * otherwise exactly one bullet is appended at the tail.
     */
    method Tick(id: real, rWish: real, rTop: real, rDuration: real) returns (spawned: bool)
      requires Valid() && Unit(rWish) && Unit(rTop) && Unit(rDuration)
      modifies this
      ensures Valid() && images == old(images)
      ensures spawned <==> |Pool()| > 0
      ensures spawned ==> bullets == old(bullets) + [NewBullet(Pool(), id, rWish, rTop, rDuration)]
      ensures !spawned ==> bullets == old(bullets)
    {
      var wishes := Pool();
      if |wishes| == 0 {
        return false;
      }
      var newBullet := NewBullet(wishes, id, rWish, rTop, rDuration);
      assert !Blank(newBullet.text);
      bullets := bullets + [newBullet];
      spawned := true;
    }

    /** `handleAnimationEnd(id)`: every bullet with that id leaves, the rest keep their order. */
    method AnimationEnd(id: real)
      requires Valid()
      modifies this
      ensures Valid() && images == old(images)
      ensures bullets == WithoutId(old(bullets), id)
    {
      bullets := WithoutId(bullets, id);
    }

    /** What the overlay draws: nothing at all while the pool is empty, else every live bullet. */
    method Render() returns (shown: seq<Bullet>)
      ensures |Pool()| == 0 ==> shown == []
      ensures |Pool()| > 0 ==> shown == bullets
    {
      if |Pool()| == 0 {
        return [];
      }
      shown := bullets;
    }
  }
}
