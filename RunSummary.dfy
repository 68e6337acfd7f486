/** The per-run logic of the run summary of one night: the R0 files of the
    night, parsed into run objects, are sorted; the files of stream 1 give
    the run numbers and the number of subruns of each run; and the first
    event of each run's first subrun gives the reference timestamp and
    Dragon counter of the run. */
module RunSummary {
  import opened Numeric

  datatype Option<T> = None | Some(value: T)

  /** A parsed R0 file name `LST-<tel>.<stream>.Run<run>.<subrun>.fits.fz`,
      compared field by field in this order. */
  datatype RunObject = RunObject(telId: int, run: int, subrun: int, stream: int)

  /** The tuple order of run objects. */
  predicate RunLe(a: RunObject, b: RunObject)
  {
    || a.telId < b.telId
    || (a.telId == b.telId && a.run < b.run)
    || (a.telId == b.telId && a.run == b.run && a.subrun < b.subrun)
    || (a.telId == b.telId && a.run == b.run && a.subrun == b.subrun && a.stream <= b.stream)
  }

  predicate SortedRuns(xs: seq<RunObject>)
  {
    forall i, j :: 0 <= i < j < |xs| ==> RunLe(xs[i], xs[j])
  }

  /** `x` placed into a sorted list before the first element above it. */
  function InsertRun(x: RunObject, xs: seq<RunObject>): (r: seq<RunObject>)
    requires SortedRuns(xs)
    ensures SortedRuns(r)
    ensures multiset(r) == multiset(xs) + multiset{x}
  {
    if |xs| == 0 then [x]
    else if RunLe(x, xs[0]) then [x] + xs
    else
      var rest := InsertRun(x, xs[1..]);
      assert xs == [xs[0]] + xs[1..];
      FirstBelowInserted(x, xs, rest);
      [xs[0]] + rest
  }

  /** After `x` is inserted into the tail of a sorted list whose head is
      below `x`, the head is still below every element. */
  lemma FirstBelowInserted(x: RunObject, xs: seq<RunObject>, rest: seq<RunObject>)
    requires |xs| > 0 && SortedRuns(xs) && !RunLe(x, xs[0])
    requires SortedRuns(rest) && multiset(rest) == multiset(xs[1..]) + multiset{x}
    ensures SortedRuns([xs[0]] + rest)
  {
    var r := [xs[0]] + rest;
    forall j | 0 < j < |r|
      ensures RunLe(xs[0], r[j])
    {
      assert r[j] == rest[j - 1];
      assert r[j] in multiset(rest);
      if r[j] != x {
        assert r[j] in multiset(xs[1..]);
        var k :| 0 <= k < |xs[1..]| && xs[1..][k] == r[j];
        assert xs[k + 1] == r[j];
      }
    }
    forall i, j | 0 <= i < j < |r|
      ensures RunLe(r[i], r[j])
    {
      if i > 0 {
        assert r[i] == rest[i - 1] && r[j] == rest[j - 1];
      }
    }
  }

  /** `get_list_of_runs`: the run objects of the night in sorted order. */
  function GetListOfRuns(xs: seq<RunObject>): (r: seq<RunObject>)
    ensures SortedRuns(r)
    ensures multiset(r) == multiset(xs)
  {
    if |xs| == 0 then []
    else
      assert xs == xs[..|xs| - 1] + [xs[|xs| - 1]];
      InsertRun(xs[|xs| - 1], GetListOfRuns(xs[..|xs| - 1]))
  }

  /** Two sorted lists with the same elements are the same list: the
      sorted order does not depend on the order the files were listed in. */
  lemma {:induction false} SortedUnique(a: seq<RunObject>, b: seq<RunObject>)
    requires SortedRuns(a) && SortedRuns(b) && multiset(a) == multiset(b)
    ensures a == b
  {
    if |a| > 0 {
      SortedHeads(a, b);
      assert a == [a[0]] + a[1..] && b == [b[0]] + b[1..];
      assert multiset(a[1..]) == multiset(a) - multiset{a[0]};
      assert multiset(b[1..]) == multiset(b) - multiset{b[0]};
      SortedUnique(a[1..], b[1..]);
    } else {
      assert |multiset(b)| == 0;
    }
  }

  /** Sorted lists with the same elements start with the same element. */
  lemma SortedHeads(a: seq<RunObject>, b: seq<RunObject>)
    requires SortedRuns(a) && SortedRuns(b) && multiset(a) == multiset(b) && |a| > 0
    ensures |b| > 0 && a[0] == b[0]
  {
    assert a[0] in multiset(b);
    var i :| 0 <= i < |b| && b[i] == a[0];
    assert b[0] in multiset(a);
    var j :| 0 <= j < |a| && a[j] == b[0];
    assert RunLe(a[0], a[j]) || j == 0;
    assert RunLe(b[0], b[i]) || i == 0;
  }

  /** The stream whose files are counted as subruns. */
  const DefaultStream: int := 1

  /** The run numbers of the run objects of one stream, in list order. */
  function StreamRuns(xs: seq<RunObject>, stream: int): (r: seq<int>)
    ensures |r| <= |xs|
  {
    if |xs| == 0 then []
    else StreamRuns(xs[..|xs| - 1], stream) + (if xs[|xs| - 1].stream == stream then [xs[|xs| - 1].run] else [])
  }

  /** The number of run objects of a stream and run. */
  function Matching(xs: seq<RunObject>, stream: int, run: int): nat
  {
    if |xs| == 0 then 0
    else Matching(xs[..|xs| - 1], stream, run) + (if xs[|xs| - 1].stream == stream && xs[|xs| - 1].run == run then 1 else 0)
  }

  /** The number of run objects of a stream. */
  function InStream(xs: seq<RunObject>, stream: int): nat
  {
    if |xs| == 0 then 0
    else InStream(xs[..|xs| - 1], stream) + (if xs[|xs| - 1].stream == stream then 1 else 0)
  }

  /** The filtered run numbers hold each run as often as there are
      objects of that stream and run, and one entry per object of the stream. */
  lemma {:induction false} StreamRunsCounts(xs: seq<RunObject>, stream: int)
    ensures |StreamRuns(xs, stream)| == InStream(xs, stream)
    ensures forall run :: multiset(StreamRuns(xs, stream))[run] == Matching(xs, stream, run)
  {
    if |xs| > 0 {
      StreamRunsCounts(xs[..|xs| - 1], stream);
    }
  }

  /** Run `run` occurs in the filtered run numbers exactly when some
      object of the stream has that run. */
  lemma {:induction false} MatchingPositive(xs: seq<RunObject>, stream: int, run: int)
    ensures Matching(xs, stream, run) > 0 <==> exists i :: 0 <= i < |xs| && xs[i].stream == stream && xs[i].run == run
  {
    if |xs| > 0 {
      var init := xs[..|xs| - 1];
      MatchingPositive(init, stream, run);
      if Matching(init, stream, run) > 0 {
        var i :| 0 <= i < |init| && init[i].stream == stream && init[i].run == run;
        assert xs[i] == init[i];
      }
      if exists i :: 0 <= i < |xs| && xs[i].stream == stream && xs[i].run == run {
        var i :| 0 <= i < |xs| && xs[i].stream == stream && xs[i].run == run;
        if i < |xs| - 1 {
          assert init[i] == xs[i];
        }
      }
    }
  }

  /** A tally of distinct values with their counts. */
  type Tally = seq<(int, nat)>

  /** The keys are strictly increasing and every count is at least one. */
  predicate ValidTally(t: Tally)
  {
    && (forall i, j :: 0 <= i < j < |t| ==> t[i].0 < t[j].0)
    && (forall i :: 0 <= i < |t| ==> t[i].1 >= 1)
  }

  /** The count the tally records for `x` (zero when `x` is not a key). */
  function CountOf(t: Tally, x: int): nat
  {
    if |t| == 0 then 0 else (if t[0].0 == x then t[0].1 else 0) + CountOf(t[1..], x)
  }

  function Total(t: Tally): nat
  {
    if |t| == 0 then 0 else t[0].1 + Total(t[1..])
  }

  /** One more occurrence of `x`. */
  function AddOne(t: Tally, x: int): Tally
  {
    if |t| == 0 then [(x, 1)]
    else if x < t[0].0 then [(x, 1)] + t
    else if x == t[0].0 then [(x, t[0].1 + 1)] + t[1..]
    else [t[0]] + AddOne(t[1..], x)
  }

  /** A key of a valid tally is above every key of its tail's predecessors:
      the count of a value below the first key is zero. */
  lemma {:induction false} CountBelowFirstKey(t: Tally, x: int)
    requires ValidTally(t) && (|t| == 0 || x < t[0].0)
    ensures CountOf(t, x) == 0
  {
    if |t| > 0 {
      assert ValidTally(t[1..]);
      CountBelowFirstKey(t[1..], x);
    }
  }

  lemma {:induction false} AddOneSpec(t: Tally, x: int)
    requires ValidTally(t)
    ensures ValidTally(AddOne(t, x))
    ensures |AddOne(t, x)| >= 1 && (AddOne(t, x)[0].0 == x || (|t| > 0 && AddOne(t, x)[0].0 == t[0].0))
    ensures forall y :: CountOf(AddOne(t, x), y) == CountOf(t, y) + (if y == x then 1 else 0)
    ensures Total(AddOne(t, x)) == Total(t) + 1
  {
    AddOneCounts(t, x);
    var r := AddOne(t, x);
    if |t| == 0 {
    } else if x < t[0].0 {
      assert r[1..] == t;
    } else if x == t[0].0 {
      assert r[1..] == t[1..];
    } else {
      assert ValidTally(t[1..]);
      AddOneSpec(t[1..], x);
      AddOneKeepsOrder(t, x);
    }
  }

  /** One more occurrence of `x` raises the count of `x` and the total by one. */
  lemma {:induction false} AddOneCounts(t: Tally, x: int)
    ensures forall y :: CountOf(AddOne(t, x), y) == CountOf(t, y) + (if y == x then 1 else 0)
    ensures Total(AddOne(t, x)) == Total(t) + 1
  {
    var r := AddOne(t, x);
    if |t| == 0 {
    } else if x < t[0].0 {
      assert r[1..] == t;
    } else if x == t[0].0 {
      assert r[1..] == t[1..];
    } else {
      AddOneCounts(t[1..], x);
      assert r[1..] == AddOne(t[1..], x);
    }
  }

  /** Adding a value above the first key keeps the first key first and the
      keys increasing. */
  lemma AddOneKeepsOrder(t: Tally, x: int)
    requires ValidTally(t) && |t| > 0 && x > t[0].0
    requires ValidTally(AddOne(t[1..], x))
    requires AddOne(t[1..], x)[0].0 == x || (|t| > 1 && AddOne(t[1..], x)[0].0 == t[1].0)
    ensures ValidTally(AddOne(t, x))
  {
    var r := AddOne(t, x);
    var rest := AddOne(t[1..], x);
    assert r == [t[0]] + rest;
    forall i, j | 0 <= i < j < |r| ensures r[i].0 < r[j].0 {
      if i == 0 {
        assert r[j] == rest[j - 1];
        if j >= 2 {
          assert rest[0].0 < rest[j - 1].0;
        }
      } else {
        assert r[i] == rest[i - 1] && r[j] == rest[j - 1];
      }
    }
  }

  /** `np.unique(values, return_counts=True)` as a tally. */
  function Unique(values: seq<int>): Tally
  {
    if |values| == 0 then [] else AddOne(Unique(values[..|values| - 1]), values[|values| - 1])
  }

  lemma {:induction false} UniqueSpec(values: seq<int>)
    ensures ValidTally(Unique(values))
    ensures forall y :: CountOf(Unique(values), y) == multiset(values)[y]
    ensures Total(Unique(values)) == |values|
  {
    if |values| > 0 {
      var init := values[..|values| - 1];
      UniqueSpec(init);
      AddOneSpec(Unique(init), values[|values| - 1]);
      assert values == init + [values[|values| - 1]];
    }
  }

  /** In a valid tally, the count recorded for a key is the count of its entry. */
  lemma {:induction false} CountOfKey(t: Tally, i: int)
    requires ValidTally(t) && 0 <= i < |t|
    ensures CountOf(t, t[i].0) == t[i].1
  {
    assert ValidTally(t[1..]);
    if i == 0 {
      if |t| > 1 {
        CountBelowFirstKey(t[1..], t[0].0);
      }
    } else {
      CountOfKey(t[1..], i - 1);
    }
  }

  /** A value with a non-zero count is a key. */
  lemma {:induction false} CountOfNonKey(t: Tally, x: int)
    requires forall i :: 0 <= i < |t| ==> t[i].0 != x
    ensures CountOf(t, x) == 0
  {
    if |t| > 0 {
      CountOfNonKey(t[1..], x);
    }
  }

  function Keys(t: Tally): (r: seq<int>)
    ensures |r| == |t| && forall i :: 0 <= i < |t| ==> r[i] == t[i].0
  {
    seq(|t|, i requires 0 <= i < |t| => t[i].0)
  }

  function Counts(t: Tally): (r: seq<nat>)
    ensures |r| == |t| && forall i :: 0 <= i < |t| ==> r[i] == t[i].1
  {
    seq(|t|, i requires 0 <= i < |t| => t[i].1)
  }

  function SumOf(s: seq<nat>): nat
  {
    if |s| == 0 then 0 else s[0] + SumOf(s[1..])
  }

  lemma {:induction false} TotalIsSum(t: Tally)
    ensures SumOf(Counts(t)) == Total(t)
  {
    if |t| > 0 {
      TotalIsSum(t[1..]);
      assert Counts(t)[1..] == Counts(t[1..]);
    }
  }

  /** `get_runs_and_subruns`: the run numbers of the files of `stream`,
      without repetition and in increasing order, and for each the number
      of its files; the stream defaults to 1, as in the source. */
  function GetRunsAndSubruns(xs: seq<RunObject>, stream: int := DefaultStream): (r: (seq<int>, seq<nat>))
    ensures |r.0| == |r.1|
  {
    var t := Unique(StreamRuns(xs, stream));
    (Keys(t), Counts(t))
  }

  /** The run numbers increase strictly; each run's count is the number of
      files of that stream and run, and at least one; a run is listed
      exactly when the stream has a file of it; and the counts add up to
      the number of files of the stream. */
  lemma GetRunsAndSubrunsSpec(xs: seq<RunObject>, stream: int)
    ensures var (runs, counts) := GetRunsAndSubruns(xs, stream);
            && (forall i, j :: 0 <= i < j < |runs| ==> runs[i] < runs[j])
            && (forall i :: 0 <= i < |runs| ==> counts[i] == Matching(xs, stream, runs[i]) && counts[i] >= 1)
            && (forall run :: run in runs <==> exists k :: 0 <= k < |xs| && xs[k].stream == stream && xs[k].run == run)
            && SumOf(counts) == InStream(xs, stream)
  {
    GetRunsAndSubrunsCounts(xs, stream);
    GetRunsAndSubrunsMembership(xs, stream);
  }

  lemma GetRunsAndSubrunsCounts(xs: seq<RunObject>, stream: int)
    ensures var (runs, counts) := GetRunsAndSubruns(xs, stream);
            && (forall i, j :: 0 <= i < j < |runs| ==> runs[i] < runs[j])
            && (forall i :: 0 <= i < |runs| ==> counts[i] == Matching(xs, stream, runs[i]) && counts[i] >= 1)
            && SumOf(counts) == InStream(xs, stream)
  {
    var values := StreamRuns(xs, stream);
    var t := Unique(values);
    var (runs, counts) := GetRunsAndSubruns(xs, stream);
    UniqueSpec(values);
    StreamRunsCounts(xs, stream);
    TotalIsSum(t);
    forall i | 0 <= i < |runs|
      ensures counts[i] == Matching(xs, stream, runs[i])
    {
      CountOfKey(t, i);
    }
  }

  lemma GetRunsAndSubrunsMembership(xs: seq<RunObject>, stream: int)
    ensures var runs := GetRunsAndSubruns(xs, stream).0;
            forall run :: run in runs <==> exists k :: 0 <= k < |xs| && xs[k].stream == stream && xs[k].run == run
  {
    var values := StreamRuns(xs, stream);
    var t := Unique(values);
    var runs := GetRunsAndSubruns(xs, stream).0;
    UniqueSpec(values);
    StreamRunsCounts(xs, stream);
    forall run
      ensures run in runs <==> exists k :: 0 <= k < |xs| && xs[k].stream == stream && xs[k].run == run
    {
      MatchingPositive(xs, stream, run);
      if run in runs {
        var i :| 0 <= i < |runs| && runs[i] == run;
        CountOfKey(t, i);
      } else {
        CountOfNonKey(t, run);
      }
    }
  }

  /** The first event of a run's first subrun, as read by the file reader:
      its event id, the status of every camera module, the Dragon PPS and
      10 MHz counters of every module, the external-device presence bits,
      and the CDTS timestamps as read with the layout of newer and of older
      iDAQ versions. */
  datatype FirstEvent = FirstEvent(
    eventId: int,
    moduleStatus: seq<bool>,
    ppsCounter: seq<int>,
    tenMHzCounter: seq<int>,
    extdevicesPresence: bv8,
    cdtsTimestampAfter37201: seq<int>,
    cdtsTimestampBefore37201: seq<int>)

  /** The camera configuration of the run: the expected module ids, the
      iDAQ version and the run date as whole TAI seconds. */
  datatype CameraConfig = CameraConfig(expectedModulesId: seq<int>, idaqVersion: int, runStartSeconds: int)

  /** The reference time and counter of a run. */
  datatype Counters = Counters(
    uctsTimestamp: int, runStart: int, referenceTime: int,
    moduleId: nat, moduleIndex: nat, ppsCounter: int, tenMHzCounter: int, referenceSource: string)

  /** Why `read_counters` raises. */
  datatype CountersError =
    | NotFirstSubrun
    | NoActiveModule
    | ModuleNotExpected
    | CountersMissing
    | NoCdtsTimestamp

  /** `np.where(status)[0][0]`: the first index holding true. */
  function FirstTrue(status: seq<bool>): (r: Option<nat>)
    ensures r.Some? <==> exists i :: 0 <= i < |status| && status[i]
    ensures r.Some? ==> r.value < |status| && status[r.value] && forall i :: 0 <= i < r.value ==> !status[i]
  {
    if |status| == 0 then None
    else if status[0] then Some(0)
    else match FirstTrue(status[1..])
      case None => None
      case Some(i) => Some(i + 1)
  }

  /** `np.where(ids == x)[0][0]`: the first index holding `x`. */
  function FirstIndexOf(ids: seq<int>, x: int): (r: Option<nat>)
    ensures r.Some? <==> x in ids
    ensures r.Some? ==> r.value < |ids| && ids[r.value] == x && forall i :: 0 <= i < r.value ==> ids[i] != x
  {
    if |ids| == 0 then None
    else if ids[0] == x then Some(0)
    else match FirstIndexOf(ids[1..], x)
      case None => None
      case Some(i) => Some(i + 1)
  }

  /** Bit 2 of the external-device presence flags: a UCTS timestamp is available. */
  predicate UctsAvailable(ev: FirstEvent)
  {
    ev.extdevicesPresence & 2 != 0
  }

  /** The CDTS timestamp column in the layout of the run's iDAQ version. */
  function CdtsTimestamps(ev: FirstEvent, cfg: CameraConfig): seq<int>
  {
    if cfg.idaqVersion > 37201 then ev.cdtsTimestampAfter37201 else ev.cdtsTimestampBefore37201
  }

  /** `read_counters`, with every raising step as an error in source order. */
  function ReadCounters(ev: FirstEvent, cfg: CameraConfig): (r: Result<Counters, CountersError>)
    ensures r.Failure? && r.error == NotFirstSubrun <==> ev.eventId != 1
    ensures r.Success? ==>
              var c := r.value;
              && ev.eventId == 1
              && c.moduleIndex < |ev.moduleStatus| && ev.moduleStatus[c.moduleIndex]
              && (forall m :: 0 <= m < c.moduleIndex ==> !ev.moduleStatus[m])
              && c.moduleId < |cfg.expectedModulesId| && cfg.expectedModulesId[c.moduleId] == c.moduleIndex
              && (forall m :: 0 <= m < c.moduleId ==> cfg.expectedModulesId[m] != c.moduleIndex)
              && c.moduleIndex < |ev.ppsCounter| && c.ppsCounter == ev.ppsCounter[c.moduleIndex]
              && c.moduleIndex < |ev.tenMHzCounter| && c.tenMHzCounter == ev.tenMHzCounter[c.moduleIndex]
              && c.runStart == cfg.runStartSeconds * 1000000000
              && (UctsAvailable(ev) ==>
                    && |CdtsTimestamps(ev, cfg)| > 0
                    && c.uctsTimestamp == CdtsTimestamps(ev, cfg)[0]
                    && c.referenceTime == c.uctsTimestamp && c.referenceSource == "ucts")
              && (!UctsAvailable(ev) ==>
                    c.uctsTimestamp == -1 && c.referenceTime == c.runStart && c.referenceSource == "run_start")
    ensures r.Failure? && r.error == NoActiveModule <==> ev.eventId == 1 && forall m :: 0 <= m < |ev.moduleStatus| ==> !ev.moduleStatus[m]
  {
    if ev.eventId != 1 then Failure(NotFirstSubrun)
    else match FirstTrue(ev.moduleStatus)
      case None => Failure(NoActiveModule)
      case Some(moduleIndex) =>
        match FirstIndexOf(cfg.expectedModulesId, moduleIndex)
        case None => Failure(ModuleNotExpected)
        case Some(moduleId) =>
          if moduleIndex >= |ev.ppsCounter| || moduleIndex >= |ev.tenMHzCounter| then Failure(CountersMissing)
          else
            var runStart := cfg.runStartSeconds * 1000000000;
            if UctsAvailable(ev) then
              var cdts := CdtsTimestamps(ev, cfg);
              if |cdts| == 0 then Failure(NoCdtsTimestamp)
              else Success(Counters(cdts[0], runStart, cdts[0], moduleId, moduleIndex,
                                    ev.ppsCounter[moduleIndex], ev.tenMHzCounter[moduleIndex], "ucts"))
            else
              Success(Counters(-1, runStart, runStart, moduleId, moduleIndex,
                               ev.ppsCounter[moduleIndex], ev.tenMHzCounter[moduleIndex], "run_start"))
  }

  /** `read_counters` succeeds exactly when every lookup it makes finds
      its entry. */
  lemma ReadCountersSucceeds(ev: FirstEvent, cfg: CameraConfig)
    ensures ReadCounters(ev, cfg).Success? <==>
              && ev.eventId == 1
              && FirstTrue(ev.moduleStatus).Some?
              && FirstTrue(ev.moduleStatus).value in cfg.expectedModulesId
              && FirstTrue(ev.moduleStatus).value < |ev.ppsCounter|
              && FirstTrue(ev.moduleStatus).value < |ev.tenMHzCounter|
              && (UctsAvailable(ev) ==> |CdtsTimestamps(ev, cfg)| > 0)
  {
  }
}
