/** A rain drop: a ripple that starts at a point of the board's normalised
    [0, 1] x [0, 1] space, spreads for spreadTime time units and then expires. */
module Raindrops {

  datatype Point = Point(x: real, y: real)

  /** spawnTime is the clock reading at the moment the drop was created. */
  datatype Raindrop = Raindrop(origin: Point, radius: real, spreadTime: real, spawnTime: real)

  /** The drop is due for removal once its spread time has elapsed. */
  predicate ReadyToRemove(d: Raindrop, now: real) {
    now >= d.spawnTime + d.spreadTime
  }

  /** The fraction of its spread time the drop has lived: 0 when created, 1 when due. */
  function SpreadPercentage(d: Raindrop, now: real): (f: real)
    requires d.spreadTime != 0.0
    ensures f * d.spreadTime == now - d.spawnTime
    ensures now == d.spawnTime ==> f == 0.0
    ensures now == d.spawnTime + d.spreadTime ==> f == 1.0
    ensures d.spawnTime <= now && !ReadyToRemove(d, now) ==> 0.0 <= f < 1.0
  {
    var f := (now - d.spawnTime) / d.spreadTime;
    assert f * d.spreadTime == now - d.spawnTime;
    if d.spawnTime <= now && !ReadyToRemove(d, now) then
      assert d.spreadTime > 0.0;
      assert 0.0 <= now - d.spawnTime < d.spreadTime;
      assert f >= 1.0 ==> f * d.spreadTime >= 1.0 * d.spreadTime;
      assert f < 0.0 ==> f * d.spreadTime < 0.0 * d.spreadTime;
      f
    else
      f
  }

  /** The radius of the ripple front at time now. */
  function CurrentRadius(d: Raindrop, now: real): (r: real)
    requires d.spreadTime != 0.0
    ensures now == d.spawnTime ==> r == 0.0
    ensures now == d.spawnTime + d.spreadTime ==> r == d.radius
    ensures d.spawnTime <= now && !ReadyToRemove(d, now) && d.radius >= 0.0 ==> 0.0 <= r <= d.radius
  {
    var f := SpreadPercentage(d, now);
    assert d.radius >= 0.0 && 0.0 <= f < 1.0 ==> d.radius * f <= d.radius * 1.0;
    d.radius * SpreadPercentage(d, now)
  }

  /** The signed distance of a point from the ripple front: negative inside it,
      positive outside. dist is the Euclidean distance, supplied by the caller. */
  function DistanceFromRipple(d: Raindrop, point: Point, now: real, dist: (Point, Point) -> real): (signed: real)
    requires d.spreadTime != 0.0
    ensures signed < 0.0 <==> dist(point, d.origin) < CurrentRadius(d, now)
    ensures signed == 0.0 <==> dist(point, d.origin) == CurrentRadius(d, now)
    ensures NonNegative(dist) ==> signed >= -CurrentRadius(d, now)
  {
    assert NonNegative(dist) ==> dist(point, d.origin) >= 0.0;
    dist(point, d.origin) - CurrentRadius(d, now)
  }

  /** dist never returns a negative length, as a Euclidean distance does not. */
  ghost predicate NonNegative(dist: (Point, Point) -> real) {
    forall p, q :: dist(p, q) >= 0.0
  }

  /** The Raindrop constructor, which reads the clock once. */
  function NewRaindrop(origin: Point, spreadTime: real, radius: real, now: real): (d: Raindrop)
    ensures d.origin == origin && d.spreadTime == spreadTime && d.radius == radius
    ensures d.spawnTime == now
    ensures spreadTime != 0.0 ==> SpreadPercentage(d, now) == 0.0 && CurrentRadius(d, now) == 0.0
    ensures !ReadyToRemove(d, now) <==> spreadTime > 0.0
  {
    Raindrop(origin, radius, spreadTime, now)
  }

  /** A drop that has not expired and was not spawned in the future has a
      positive spread time, a spread fraction in [0, 1) and so a front inside
      its full radius. */
  lemma SurvivorSpread(d: Raindrop, now: real)
    requires d.spawnTime <= now && !ReadyToRemove(d, now)
    ensures d.spreadTime > 0.0
    ensures 0.0 <= SpreadPercentage(d, now) < 1.0
    ensures d.radius >= 0.0 ==> 0.0 <= CurrentRadius(d, now) <= d.radius
    ensures d.radius > 0.0 ==> CurrentRadius(d, now) < d.radius
  {
  }

  /** The drops that survive pruning at time now (List.RemoveAll(ReadyToRemove)):
      exactly the unexpired ones, each as often as before. */
  function Kept(drops: seq<Raindrop>, now: real): (live: seq<Raindrop>)
    ensures |live| <= |drops|
    ensures forall d :: d in live ==> d in drops && !ReadyToRemove(d, now)
    ensures forall d :: d in drops && !ReadyToRemove(d, now) ==> d in live
  {
    if drops == [] then []
    else if ReadyToRemove(drops[0], now) then Kept(drops[1..], now)
    else [drops[0]] + Kept(drops[1..], now)
  }

  /** Pruning keeps the relative order: pruning a concatenation prunes each part. */
  lemma {:induction false} KeptConcat(s: seq<Raindrop>, t: seq<Raindrop>, now: real)
    ensures Kept(s + t, now) == Kept(s, now) + Kept(t, now)
  {
    if s == [] {
      assert s + t == t;
    } else {
      assert (s + t)[1..] == s[1..] + t;
      KeptConcat(s[1..], t, now);
    }
  }

  /** Pruning removes every expired copy of a drop and keeps every live one. */
  lemma {:induction false} KeptCount(s: seq<Raindrop>, now: real, d: Raindrop)
    ensures multiset(Kept(s, now))[d] == if ReadyToRemove(d, now) then 0 else multiset(s)[d]
  {
    if s != [] {
      KeptCount(s[1..], now, d);
      assert s == [s[0]] + s[1..];
    }
  }

  /** Pruning two orderings of the same drops leaves two orderings of the same survivors. */
  lemma KeptPermutation(s: seq<Raindrop>, t: seq<Raindrop>, now: real)
    requires multiset(s) == multiset(t)
    ensures multiset(Kept(s, now)) == multiset(Kept(t, now))
  {
    forall d ensures multiset(Kept(s, now))[d] == multiset(Kept(t, now))[d] {
      KeptCount(s, now, d);
      KeptCount(t, now, d);
    }
  }

  /** A live list is left as it is: pruning twice is the same as pruning once. */
  lemma {:induction false} KeptIdempotent(s: seq<Raindrop>, now: real)
    ensures Kept(Kept(s, now), now) == Kept(s, now)
  {
    if s != [] {
      KeptIdempotent(s[1..], now);
      if !ReadyToRemove(s[0], now) {
        var k := Kept(s[1..], now);
        assert ([s[0]] + k)[0] == s[0] && ([s[0]] + k)[1..] == k;
      }
    }
  }

  /** A drop that has expired by now has no effect on what survives pruning. */
  lemma ExpiredHasNoEffect(s: seq<Raindrop>, d: Raindrop, t: seq<Raindrop>, now: real)
    requires ReadyToRemove(d, now)
    ensures Kept(s + [d] + t, now) == Kept(s + t, now)
  {
    assert [d][1..] == [];
    assert Kept([d], now) == [];
    KeptConcat(s, [d], now);
    assert Kept(s + [d], now) == Kept(s, now);
    KeptConcat(s + [d], t, now);
    KeptConcat(s, t, now);
  }

  /** When every drop has expired, nothing survives. */
  lemma {:induction false} AllExpired(s: seq<Raindrop>, now: real)
    requires forall d :: d in s ==> ReadyToRemove(d, now)
    ensures Kept(s, now) == []
  {
    if s != [] {
      assert s[0] in s;
      AllExpired(s[1..], now);
    }
  }
}
