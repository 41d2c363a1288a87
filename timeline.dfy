/**
 * The time-bucket options offered to the user, narrowed by the selected
 * match half.  The vocabulary is fixed and ordered: the four first-half
 * buckets, then the four second-half buckets (each half's extra time
 * last); the options keep that order and contain only buckets that occur
 * in the data.
 */
module Timeline {
  import opened Seqs
  import opened Events

  const FirstHalfBuckets: seq<Label> := ["0-15", "16-30", "31-45", "EXTRA 1"]
  const SecondHalfBuckets: seq<Label> := ["45-60", "61-75", "76-90", "EXTRA 2"]
  const TimelineOptions: seq<Label> := FirstHalfBuckets + SecondHalfBuckets

  /** The bucket labels that occur in the `momento_rango` column. */
  function BucketsInData(t: Table): (r: set<Label>)
    ensures forall b :: b in r <==> exists e :: e in t.events && Cell(e, TimeBucket) == Some(b)
  {
    var vs := NonNullValues(t.events, TimeBucket);
    assert forall b :: b in vs <==> exists e :: e in t.events && Cell(e, TimeBucket) == Some(b) by {
      forall b | b in vs ensures exists e :: e in t.events && Cell(e, TimeBucket) == Some(b) {
        var i :| 0 <= i < |t.events| && Cell(t.events[i], TimeBucket) == Some(b);
        assert t.events[i] in t.events;
      }
      forall b | exists e :: e in t.events && Cell(e, TimeBucket) == Some(b) ensures b in vs {
        var e :| e in t.events && Cell(e, TimeBucket) == Some(b);
        var i :| 0 <= i < |t.events| && t.events[i] == e;
      }
    }
    set b | b in vs
  }

  function PresentFn(present: set<Label>): Label -> bool {
    o => o in present
  }

  /** `[o for o in vocabulary if o in franjas_data]` */
  function PresentIn(vocabulary: seq<Label>, present: set<Label>): (r: seq<Label>)
    ensures IsSubsequence(r, vocabulary)
    ensures forall b :: b in r <==> b in vocabulary && b in present
  {
    FilterByExact(vocabulary, PresentFn(present));
    FilterBy(vocabulary, PresentFn(present))
  }

  /**
   * `franjas_disponibles`: the first-half buckets when exactly the first
   * half is selected, the second-half buckets when exactly the second half
   * is, and otherwise the whole vocabulary; in each case only the buckets
   * present in the data, and nothing when the table has no bucket column.
   */
  function AvailableBuckets(t: Table, halves: seq<Label>): (r: seq<Label>)
    ensures TimeBucket !in t.columns ==> r == []
    ensures IsSubsequence(r, TimelineOptions)
    ensures forall b :: b in r ==> exists e :: e in t.events && Cell(e, TimeBucket) == Some(b)
    ensures halves == ["Primera"] ==> forall b :: b in r <==>
              TimeBucket in t.columns && b in FirstHalfBuckets && b in BucketsInData(t)
    ensures halves == ["Segunda"] ==> forall b :: b in r <==>
              TimeBucket in t.columns && b in SecondHalfBuckets && b in BucketsInData(t)
    ensures halves != ["Primera"] && halves != ["Segunda"] ==> forall b :: b in r <==>
              TimeBucket in t.columns && b in TimelineOptions && b in BucketsInData(t)
  {
    if TimeBucket !in t.columns then []
    else
      var present := BucketsInData(t);
      if halves == ["Primera"] then
        var r := PresentIn(FirstHalfBuckets, present);
        SubsequenceAppendRight(r, FirstHalfBuckets, SecondHalfBuckets);
        r
      else if halves == ["Segunda"] then
        var r := PresentIn(SecondHalfBuckets, present);
        SubsequencePrependLeft(r, FirstHalfBuckets, SecondHalfBuckets);
        r
      else
        PresentIn(TimelineOptions, present)
  }

  /** The vocabulary lists every bucket once, so a subsequence of it follows vocabulary order. */
  lemma TimelineDistinct()
    ensures Distinct(TimelineOptions)
    ensures forall b :: b in FirstHalfBuckets ==> b !in SecondHalfBuckets
  {
  }

  /** Selecting only the first half never offers a second-half bucket, and vice versa. */
  lemma HalvesAreSeparated(t: Table)
    ensures forall b :: b in AvailableBuckets(t, ["Primera"]) ==> b !in SecondHalfBuckets
    ensures forall b :: b in AvailableBuckets(t, ["Segunda"]) ==> b !in FirstHalfBuckets
  {
    TimelineDistinct();
  }

  /** Whatever the halves, the narrowed options never exceed the unnarrowed ones. */
  lemma NarrowingOnlyRemoves(t: Table, halves: seq<Label>)
    ensures forall b :: b in AvailableBuckets(t, halves) ==> b in AvailableBuckets(t, [])
  {
  }
}
