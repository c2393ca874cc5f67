/** Scoring: the speed band chosen from the score, and the multiplier the
    band applies to the points awarded. */
module Score {

  /** A speed level together with the factor applied to awarded points. */
  datatype Band = Band(speed: int, multiplier: int)

  /** The factor that belongs to each speed level. */
  function SpeedMultiplier(speed: int): (factor: int)
  {
    if speed == 3 then 2
    else if speed == 4 then 5
    else if speed == 5 then 10
    else if speed == 6 then 20
    else if speed == 7 then 25
    else if speed == 8 then 50
    else 1
  }

  /** The if/elif chain of add_points, on the score before the points are
      added. The ranges [50000, 75000) and [100000, 200000) match no branch
      and fall through to the last one. */
  function ScoreBand(points: int): (b: Band)
    ensures 1 <= b.speed <= 8
    ensures b.multiplier == SpeedMultiplier(b.speed)
    ensures points < 5000 <==> b.speed == 1
  {
    if points < 5000 then Band(1, 1)
    else if points >= 5000 && points < 10000 then Band(2, 1)
    else if points >= 10000 && points < 25000 then Band(3, 2)
    else if points >= 25000 && points < 50000 then Band(4, 5)
    else if points >= 75000 && points < 100000 then Band(5, 10)
    else if points >= 200000 && points < 300000 then Band(6, 20)
    else if points >= 300000 && points < 500000 then Band(7, 25)
    else Band(8, 50)
  }

  /** Points actually added for an award of `amount` at score `points`. */
  function Awarded(points: int, amount: int): (a: int)
    ensures amount >= 0 ==> a >= amount
    ensures amount <= 0 ==> a <= amount
  {
    amount * ScoreBand(points).multiplier
  }

  /** One explicit band: scores in [lo, hi) run at `speed`. */
  datatype Range = Range(lo: int, hi: int, speed: int)

  /** The explicit bands, for non-negative scores, in the order they are
      tested. */
  const Ranges: seq<Range> := [
    Range(0, 5000, 1),
    Range(5000, 10000, 2),
    Range(10000, 25000, 3),
    Range(25000, 50000, 4),
    Range(75000, 100000, 5),
    Range(200000, 300000, 6),
    Range(300000, 500000, 7)
  ]

  /** Speed of the first range holding `points`, or 8 when none does. */
  function SpeedFromRanges(rs: seq<Range>, points: int): (speed: int)
    ensures speed == 8 || exists k :: 0 <= k < |rs| && speed == rs[k].speed
  {
    if rs == [] then 8
    else if rs[0].lo <= points < rs[0].hi then rs[0].speed
    else SpeedFromRanges(rs[1..], points)
  }

  /** When range k holds `points` and no earlier range does, the lookup
      gives range k's speed. */
  lemma {:induction false} FirstRangeFound(rs: seq<Range>, k: nat, points: int)
    requires k < |rs| && rs[k].lo <= points < rs[k].hi
    requires forall j :: 0 <= j < k ==> !(rs[j].lo <= points < rs[j].hi)
    ensures SpeedFromRanges(rs, points) == rs[k].speed
  {
    if k > 0 {
      FirstRangeFound(rs[1..], k - 1, points);
    }
  }

  /** When no range holds `points` the lookup falls back to speed 8. */
  lemma {:induction false} NoRangeFound(rs: seq<Range>, points: int)
    requires forall j :: 0 <= j < |rs| ==> !(rs[j].lo <= points < rs[j].hi)
    ensures SpeedFromRanges(rs, points) == 8
  {
    if rs != [] {
      NoRangeFound(rs[1..], points);
    }
  }

  /** For every non-negative score, the chain picks the speed of the band
      table and the multiplier that belongs to that speed. */
  lemma ScoreBandMatchesRanges(points: int)
    requires points >= 0
    ensures ScoreBand(points) == Band(SpeedFromRanges(Ranges, points),
                                      SpeedMultiplier(SpeedFromRanges(Ranges, points)))
  {
    if exists k :: 0 <= k < |Ranges| && Ranges[k].lo <= points < Ranges[k].hi {
      var k :| 0 <= k < |Ranges| && Ranges[k].lo <= points < Ranges[k].hi;
      FirstRangeFound(Ranges, k, points);
    } else {
      assert forall k :: 0 <= k < |Ranges| ==> !(Ranges[k].lo <= points < Ranges[k].hi);
      assert !(Ranges[0].lo <= points < Ranges[0].hi) && !(Ranges[1].lo <= points < Ranges[1].hi);
      assert !(Ranges[2].lo <= points < Ranges[2].hi) && !(Ranges[3].lo <= points < Ranges[3].hi);
      assert !(Ranges[4].lo <= points < Ranges[4].hi) && !(Ranges[5].lo <= points < Ranges[5].hi);
      assert !(Ranges[6].lo <= points < Ranges[6].hi);
      NoRangeFound(Ranges, points);
    }
  }

  /** The explicit ranges do not overlap, so the order of the tests does not
      matter. */
  lemma RangesDisjoint()
    ensures forall j, k :: 0 <= j < k < |Ranges| ==> Ranges[j].hi <= Ranges[k].lo
  {
  }

  /** Below 50000 the speed never goes down as the score goes up. */
  lemma SpeedMonotoneBelowGap(p: int, q: int)
    requires p <= q < 50000
    ensures ScoreBand(p).speed <= ScoreBand(q).speed
    ensures ScoreBand(p).multiplier <= ScoreBand(q).multiplier
  {
  }

  /** The gaps between the listed bands: a score in [50000, 75000) or in
      [100000, 200000) gets speed 8 and factor 50, more than the higher
      scores just above the gap. */
  lemma GapsFallThrough(points: int)
    requires 50000 <= points < 75000 || 100000 <= points < 200000
    ensures ScoreBand(points) == Band(8, 50)
    ensures ScoreBand(points).speed > ScoreBand(points + 25000).speed ||
            ScoreBand(points).speed > ScoreBand(200000).speed
  {
  }

  /** From 500000 on, every score gets speed 8 and factor 50. */
  lemma TopBand(points: int)
    requires points >= 500000
    ensures ScoreBand(points) == Band(8, 50)
  {
  }
}
