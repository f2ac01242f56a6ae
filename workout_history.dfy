/** The workout history card: for every month, how many times each workout
    was completed. */
module WorkoutHistory {
  import opened Collections
  import opened Rows

  /** `aggregated[month][workoutName]`. */
  type Aggregated = map<string, map<string, nat>>

  function IsCompleted(w: GymWorkout): bool {
    w.isCompleted
  }

  /** A row is counted under its month label and its workout name. */
  function HistoryKey(w: GymWorkout): (string, string) {
    (w.createdMonth, w.workout)
  }

  /** The completed rows, in fetched order. */
  function Completed(ws: seq<GymWorkout>): (r: seq<GymWorkout>)
    ensures forall w :: w in r <==> w in ws && w.isCompleted
  {
    Filter(ws, IsCompleted)
  }

  /** How often the workout `name` was completed in `month`. */
  function Tally(ws: seq<GymWorkout>, month: string, name: string): (n: nat)
    ensures n > 0 <==> exists w :: w in ws && w.isCompleted && w.createdMonth == month && w.workout == name
  {
    var b := Bucket(Completed(ws), HistoryKey, (month, name));
    assert forall w :: w in b <==> w in ws && w.isCompleted && HistoryKey(w) == (month, name);
    assert b != [] ==> b[0] in b;
    |b|
  }

  /** `agg` holds the tallies of the rows `cs`: a month and a name are
      present exactly when some row of `cs` has them, with that many rows. */
  ghost predicate Tallies(agg: Aggregated, cs: seq<GymWorkout>) {
    && (forall m, n :: m in agg && n in agg[m] ==> agg[m][n] == |Bucket(cs, HistoryKey, (m, n))|)
    && (forall m, n :: (m in agg && n in agg[m]) <==> Bucket(cs, HistoryKey, (m, n)) != [])
    && (forall m :: m in agg ==> |agg[m]| > 0)
  }

  /** One `aggregated[month][workout] += 1`, creating the month and the
      count first when they are missing. */
  function Bump(agg: Aggregated, month: string, name: string): Aggregated {
    var inner := if month in agg then agg[month] else map[];
    var count := if name in inner then inner[name] else 0;
    agg[month := inner[name := count + 1]]
  }

  lemma BumpTallies(agg: Aggregated, cs: seq<GymWorkout>, w: GymWorkout)
    requires Tallies(agg, cs)
    ensures Tallies(Bump(agg, w.createdMonth, w.workout), cs + [w])
  {
    var r := Bump(agg, w.createdMonth, w.workout);
    forall m, n
      ensures (m in r && n in r[m]) <==> Bucket(cs + [w], HistoryKey, (m, n)) != []
      ensures m in r && n in r[m] ==> r[m][n] == |Bucket(cs + [w], HistoryKey, (m, n))|
    {
      BucketSnoc(cs, w, HistoryKey, (m, n));
      if (m, n) != HistoryKey(w) {
        assert (m in r && n in r[m]) <==> (m in agg && n in agg[m]);
      }
    }
  }

  /** The `forEach` that builds `aggregated`. A month appears only once one
      of its rows is counted, a name within it likewise, and each count is
      the tally of its month and name. */
  method Aggregate(ws: seq<GymWorkout>) returns (agg: Aggregated)
    ensures forall m, n :: m in agg && n in agg[m] ==> agg[m][n] == Tally(ws, m, n) && agg[m][n] >= 1
    ensures forall m, n :: (m in agg && n in agg[m]) <==> Tally(ws, m, n) > 0
    ensures forall m :: m in agg ==> |agg[m]| > 0
  {
    agg := map[];
    ghost var cs: seq<GymWorkout> := [];
    for i := 0 to |ws|
      invariant cs == Completed(ws[..i])
      invariant Tallies(agg, cs)
    {
      var workout := ws[i];
      CompletedSnoc(ws, i);
      if workout.isCompleted {
        BumpTallies(agg, cs, workout);
        agg := Bump(agg, workout.createdMonth, workout.workout);
        cs := cs + [workout];
      }
    }
    assert ws[..|ws|] == ws;
  }

  /** The completed rows of a longer prefix: one more when its last row is
      completed. */
  lemma CompletedSnoc(ws: seq<GymWorkout>, i: nat)
    requires i < |ws|
    ensures Completed(ws[..i + 1]) == Completed(ws[..i]) + if ws[i].isCompleted then [ws[i]] else []
  {
    assert ws[..i + 1] == ws[..i] + [ws[i]];
    FilterAppend(ws[..i], [ws[i]], IsCompleted);
  }

  /** Only completed rows are counted, and every one of them exactly once:
      the tallies over the distinct (month, name) pairs, in the order they
      first appear, add up to the number of completed rows. */
  lemma TalliesSum(ws: seq<GymWorkout>)
    ensures SumSizes(Completed(ws), HistoryKey, Keys(Completed(ws), HistoryKey)) == Count(ws, IsCompleted)
    ensures forall m, n :: (m, n) in Keys(Completed(ws), HistoryKey) <==> Tally(ws, m, n) > 0
  {
    var c := Completed(ws);
    BucketSizesSum(c, HistoryKey);
    forall m, n ensures (m, n) in Keys(c, HistoryKey) <==> Tally(ws, m, n) > 0 {
      if (m, n) in Keys(c, HistoryKey) {
        var i :| 0 <= i < |c| && HistoryKey(c[i]) == (m, n);
        assert c[i] in c;
      } else {
        BucketAbsent(c, HistoryKey, (m, n));
      }
    }
  }
}
