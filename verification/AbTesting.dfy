/**
  A/B testing (ab-testing.service.ts): deterministic buckets, sticky exposures, and the report.  The
  MD5-based hash is a parameter; percentages are non-negative integers, values are real numbers.
*/
module AbTesting {
  import opened Text

  datatype ExperimentStatus = Draft | Active | Paused | Completed

  datatype Variant = Variant(name: string, percentage: nat)

  datatype Experiment = Experiment(id: string, status: ExperimentStatus, variants: seq<Variant>)

  datatype Exposure = Exposure(experimentId: string, userId: string, variant: string)

  datatype Conversion = Conversion(experimentId: string, userId: string, metric: string, value: real)

  datatype State = State(experiments: map<string, Experiment>, exposures: seq<Exposure>, conversions: seq<Conversion>)

  type Hash = (string, string) -> nat

  const BUCKETS := 100
  const CONTROL := "control"

  function Bucket(hash: Hash, experimentId: string, userId: string): nat {
    hash(experimentId, userId) % BUCKETS
  }

  // ---------------------------------------------------------------- buckets

  /** The percentages of the first n variants together. */
  function Cumulative(variants: seq<Variant>, n: nat): nat
    requires n <= |variants|
  {
    if n == 0 then 0 else Cumulative(variants, n - 1) + variants[n - 1].percentage
  }

  /** The first variant whose cumulative percentage exceeds the bucket, at or behind index i. */
  function SelectFrom(variants: seq<Variant>, bucket: nat, i: nat): (r: nat)
    requires i <= |variants|
    ensures i <= r <= |variants|
    decreases |variants| - i
  {
    if i == |variants| || bucket < Cumulative(variants, i + 1) then i else SelectFrom(variants, bucket, i + 1)
  }

  /** The name for a bucket; control when no variant takes it. */
  function Select(variants: seq<Variant>, bucket: nat): string {
    var i := SelectFrom(variants, bucket, 0);
    if i < |variants| then variants[i].name else CONTROL
  }

  method SelectVariant(variants: seq<Variant>, bucket: nat) returns (selected: string)
    ensures selected == Select(variants, bucket)
  {
    var cumulative := 0;
    selected := CONTROL;
    for i := 0 to |variants|
      invariant cumulative == Cumulative(variants, i)
      invariant SelectFrom(variants, bucket, 0) == SelectFrom(variants, bucket, i)
    {
      cumulative := cumulative + variants[i].percentage;
      if bucket < cumulative {
        selected := variants[i].name;
        return;
      }
    }
  }

  lemma {:induction false} CumulativeGrows(variants: seq<Variant>, i: nat, j: nat)
    requires i <= j <= |variants|
    ensures Cumulative(variants, i) <= Cumulative(variants, j)
    decreases j - i
  {
    if i < j {
      CumulativeGrows(variants, i, j - 1);
    }
  }

  /** Variant i takes exactly the buckets between its two cumulative sums. */
  lemma {:induction false} SelectInterval(variants: seq<Variant>, bucket: nat, from: nat, i: nat)
    requires from <= i <= |variants| && Cumulative(variants, from) <= bucket
    ensures SelectFrom(variants, bucket, from) == i <==>
            Cumulative(variants, i) <= bucket && (i < |variants| ==> bucket < Cumulative(variants, i + 1))
    decreases |variants| - from
  {
    if from < |variants| {
      if bucket < Cumulative(variants, from + 1) {
        if from < i {
          CumulativeGrows(variants, from + 1, i);
        }
      } else if from < i {
        SelectInterval(variants, bucket, from + 1, i);
      }
    }
  }

  /** The numbers from lo up to but excluding hi. */
  function Interval(lo: int, hi: int): (r: set<int>)
    ensures forall b: int :: b in r <==> lo <= b < hi
    ensures lo <= hi ==> |r| == hi - lo
    decreases hi - lo
  {
    if lo >= hi then {} else Interval(lo, hi - 1) + {hi - 1}
  }

  /** The buckets that variant i takes; index |variants| stands for the fall-through. */
  function BucketsOf(variants: seq<Variant>, i: nat): set<int> {
    set b: int | 0 <= b < BUCKETS && SelectFrom(variants, b, 0) == i
  }

  function Clip(n: nat): nat { if n < BUCKETS then n else BUCKETS }

  lemma BucketsAreInterval(variants: seq<Variant>, i: nat)
    requires i <= |variants|
    ensures BucketsOf(variants, i) ==
            Interval(Clip(Cumulative(variants, i)),
                     if i < |variants| then Clip(Cumulative(variants, i + 1)) else BUCKETS)
  {
    if i < |variants| {
      CumulativeGrows(variants, i, i + 1);
    }
    forall b: int | 0 <= b < BUCKETS
      ensures SelectFrom(variants, b, 0) == i <==>
              Cumulative(variants, i) <= b && (i < |variants| ==> b < Cumulative(variants, i + 1))
    {
      SelectInterval(variants, b, 0, i);
    }
  }

  /** Every variant takes its percentage of the buckets. */
  ghost predicate ExactSplit(variants: seq<Variant>) {
    forall i :: 0 <= i < |variants| ==> |BucketsOf(variants, i)| == variants[i].percentage
  }

  lemma BucketCount(variants: seq<Variant>, i: nat)
    requires i <= |variants|
    ensures i < |variants| ==>
              |BucketsOf(variants, i)| == Clip(Cumulative(variants, i + 1)) - Clip(Cumulative(variants, i))
    ensures i == |variants| ==> |BucketsOf(variants, i)| == BUCKETS - Clip(Cumulative(variants, i))
  {
    BucketsAreInterval(variants, i);
    if i < |variants| {
      CumulativeGrows(variants, i, i + 1);
    }
  }

  /** MAIN RESULT.  The traffic is split exactly as configured if and only if the percentages sum to at
      most 100; control gets the rest by falling through. */
  lemma SplitIsExact(variants: seq<Variant>)
    ensures ExactSplit(variants) <==> Cumulative(variants, |variants|) <= BUCKETS
    ensures Cumulative(variants, |variants|) <= BUCKETS ==>
              |BucketsOf(variants, |variants|)| == BUCKETS - Cumulative(variants, |variants|)
  {
    BucketCount(variants, |variants|);
    if Cumulative(variants, |variants|) > BUCKETS {
      var i := FirstOver(variants, |variants|);
      BucketCount(variants, i);
    } else {
      forall i | 0 <= i < |variants| ensures |BucketsOf(variants, i)| == variants[i].percentage {
        BucketCount(variants, i);
        CumulativeGrows(variants, i + 1, |variants|);
      }
    }
  }

  lemma {:induction false} FirstOver(variants: seq<Variant>, n: nat) returns (i: nat)
    requires n <= |variants| && Cumulative(variants, n) > BUCKETS
    ensures i < n && Cumulative(variants, i) <= BUCKETS < Cumulative(variants, i + 1)
  {
    i := n - 1;
    if Cumulative(variants, n - 1) > BUCKETS {
      i := FirstOver(variants, n - 1);
    }
  }

  // ---------------------------------------------------------------- exposures

  predicate IsExposed(exposures: seq<Exposure>, e: string, u: string) {
    exists x <- exposures :: x.experimentId == e && x.userId == u
  }

  /** `exposures.find(...)`: the first exposure of the user, if there is one. */
  function FindExposure(exposures: seq<Exposure>, e: string, u: string): Option<Exposure> {
    if exposures == [] then None
    else if exposures[0].experimentId == e && exposures[0].userId == u then Some(exposures[0])
    else FindExposure(exposures[1..], e, u)
  }

  /** getVariant: the new state and the variant. */
  function GetVariant(hash: Hash, s: State, e: string, u: string): (State, string) {
    if e !in s.experiments || s.experiments[e].status != Active then (s, CONTROL)
    else match FindExposure(s.exposures, e, u)
      case Some(x) => (s, x.variant)
      case None =>
        var v := Select(s.experiments[e].variants, Bucket(hash, e, u));
        (s.(exposures := s.exposures + [Exposure(e, u, v)]), v)
  }

  /** MAIN RESULT.  The answer for a user without an exposure, in terms of the residue b of the hash: the
      name of the variant between whose cumulative sums b lies, and control from the last sum on.  The
      answer is recorded.  An experiment that is missing or not active answers control and records
      nothing. */
  lemma AnswerIsByResidue(hash: Hash, s: State, e: string, u: string, b: nat)
    requires b == hash(e, u) % 100
    ensures var (t, name) := GetVariant(hash, s, e, u);
            if e !in s.experiments || s.experiments[e].status != Active then t == s && name == "control"
            else if exists x <- s.exposures :: x.experimentId == e && x.userId == u
            then t == s && exists x <- s.exposures :: x.experimentId == e && x.userId == u && x.variant == name
            else
              var variants := s.experiments[e].variants;
              && (forall i :: 0 <= i < |variants| && Cumulative(variants, i) <= b < Cumulative(variants, i + 1) ==>
                    name == variants[i].name)
              && (b >= Cumulative(variants, |variants|) ==> name == "control")
              && t == s.(exposures := s.exposures + [Exposure(e, u, name)])
  {
    FindExposureIsExact(s.exposures, e, u);
    if e in s.experiments && FindExposure(s.exposures, e, u) == None {
      var variants := s.experiments[e].variants;
      forall i | 0 <= i <= |variants| && Cumulative(variants, i) <= b
                 && (i < |variants| ==> b < Cumulative(variants, i + 1))
        ensures SelectFrom(variants, b, 0) == i
      {
        SelectInterval(variants, b, 0, i);
      }
      SelectInterval(variants, b, 0, |variants|);
    }
  }

  lemma ResidueSuffices(hash: Hash, s: State, e: string, u: string, b: nat)
    requires b == hash(e, u) % 100
    ensures GetVariant(hash, s, e, u).1 == Answer(s, e, u, b)
  {
  }

  /** The answer when the hash leaves the residue b. */
  function Answer(s: State, e: string, u: string, b: nat): string {
    GetVariant((x, y) => b, s, e, u).1
  }

  /** The residues of the hash for which the user is answered with the name. */
  function ResiduesOf(s: State, e: string, u: string, name: string): set<int> {
    set b: int | 0 <= b < 100 && Answer(s, e, u, b) == name
  }

  predicate DistinctNames(variants: seq<Variant>) {
    forall i, j :: 0 <= i < j < |variants| ==> variants[i].name != variants[j].name
  }

  lemma ResiduesAreBuckets(s: State, e: string, u: string, i: nat)
    requires e in s.experiments && s.experiments[e].status == Active && !IsExposed(s.exposures, e, u)
    requires var variants := s.experiments[e].variants;
             i < |variants| && DistinctNames(variants) && forall v <- variants :: v.name != CONTROL
    ensures ResiduesOf(s, e, u, s.experiments[e].variants[i].name) == BucketsOf(s.experiments[e].variants, i)
  {
    var variants := s.experiments[e].variants;
    FindExposureIsExact(s.exposures, e, u);
    forall b: int | 0 <= b < 100
      ensures Answer(s, e, u, b) == variants[i].name <==> SelectFrom(variants, b, 0) == i
    {
      var j := SelectFrom(variants, b, 0);
      assert Answer(s, e, u, b) == if j < |variants| then variants[j].name else CONTROL;
      assert j < i || i < j ==> j == |variants| || variants[j].name != variants[i].name;
      assert variants[i] in variants;
    }
  }

  /** MAIN RESULT.  With distinct names other than control, every name is handed out for exactly its
      percentage of the residues if and only if the percentages sum to at most 100. */
  lemma NamesSplitExactly(s: State, e: string, u: string)
    requires e in s.experiments && s.experiments[e].status == Active && !IsExposed(s.exposures, e, u)
    requires var variants := s.experiments[e].variants;
             DistinctNames(variants) && forall v <- variants :: v.name != CONTROL
    ensures var variants := s.experiments[e].variants;
            (forall i :: 0 <= i < |variants| ==>
               |ResiduesOf(s, e, u, variants[i].name)| == variants[i].percentage) <==>
            Cumulative(variants, |variants|) <= 100
  {
    var variants := s.experiments[e].variants;
    forall i | 0 <= i < |variants|
      ensures ResiduesOf(s, e, u, variants[i].name) == BucketsOf(variants, i)
    {
      ResiduesAreBuckets(s, e, u, i);
    }
    SplitIsExact(variants);
  }

  datatype Event =
    | VariantEvent(e: string, u: string)
    | ConversionEvent(e: string, u: string, metric: string, value: real)
    | CreateEvent(experiment: Experiment)
    | StatusEvent(id: string, status: ExperimentStatus)

  function Step(hash: Hash, s: State, ev: Event): State {
    match ev
    case VariantEvent(e, u) => GetVariant(hash, s, e, u).0
    case ConversionEvent(e, u, metric, value) => s.(conversions := s.conversions + [Conversion(e, u, metric, value)])
    case CreateEvent(x) => s.(experiments := s.experiments[x.id := x])
    case StatusEvent(id, status) =>
      if id in s.experiments then s.(experiments := s.experiments[id := s.experiments[id].(status := status)]) else s
  }

  function Run(hash: Hash, s: State, events: seq<Event>): State
    decreases |events|
  {
    if events == [] then s else Run(hash, Step(hash, s, events[0]), events[1..])
  }

  /** At most one exposure for an experiment and a user. */
  ghost predicate UniqueExposures(exposures: seq<Exposure>) {
    forall i, j :: 0 <= i < j < |exposures| ==>
      exposures[i].experimentId != exposures[j].experimentId || exposures[i].userId != exposures[j].userId
  }

  lemma {:induction false} FindExposureIsExact(exposures: seq<Exposure>, e: string, u: string)
    ensures match FindExposure(exposures, e, u) {
              case None => !IsExposed(exposures, e, u)
              case Some(x) => x in exposures && x.experimentId == e && x.userId == u
            }
  {
    if exposures != [] && !(exposures[0].experimentId == e && exposures[0].userId == u) {
      FindExposureIsExact(exposures[1..], e, u);
      assert exposures == [exposures[0]] + exposures[1..];
    }
  }

  lemma {:induction false} FindInLonger(exposures: seq<Exposure>, more: seq<Exposure>, e: string, u: string)
    requires FindExposure(exposures, e, u).Some?
    ensures FindExposure(exposures + more, e, u) == FindExposure(exposures, e, u)
  {
    assert (exposures + more)[1..] == exposures[1..] + more;
    if !(exposures[0].experimentId == e && exposures[0].userId == u) {
      FindInLonger(exposures[1..], more, e, u);
    }
  }

  lemma StepKeeps(hash: Hash, s: State, ev: Event)
    requires UniqueExposures(s.exposures)
    ensures UniqueExposures(Step(hash, s, ev).exposures)
    ensures forall e, u :: FindExposure(s.exposures, e, u).Some? ==>
              FindExposure(Step(hash, s, ev).exposures, e, u) == FindExposure(s.exposures, e, u)
  {
    if ev.VariantEvent? {
      FindExposureIsExact(s.exposures, ev.e, ev.u);
      var after := Step(hash, s, ev).exposures;
      if after != s.exposures {
        assert after[..|s.exposures|] == s.exposures && !IsExposed(s.exposures, ev.e, ev.u);
        forall e, u | FindExposure(s.exposures, e, u).Some?
          ensures FindExposure(after, e, u) == FindExposure(s.exposures, e, u)
        {
          FindInLonger(s.exposures, after[|s.exposures|..], e, u);
        }
      }
    }
  }

  lemma {:induction false} RunKeeps(hash: Hash, s: State, events: seq<Event>, e: string, u: string)
    requires UniqueExposures(s.exposures)
    ensures UniqueExposures(Run(hash, s, events).exposures)
    ensures FindExposure(s.exposures, e, u).Some? ==>
              FindExposure(Run(hash, s, events).exposures, e, u) == FindExposure(s.exposures, e, u)
    decreases |events|
  {
    if events != [] {
      StepKeeps(hash, s, events[0]);
      RunKeeps(hash, Step(hash, s, events[0]), events[1..], e, u);
    }
  }

  lemma {:induction false} FindAppended(exposures: seq<Exposure>, x: Exposure)
    requires FindExposure(exposures, x.experimentId, x.userId) == None
    ensures FindExposure(exposures + [x], x.experimentId, x.userId) == Some(x)
  {
    var all := exposures + [x];
    if exposures != [] {
      assert all[1..] == exposures[1..] + [x];
      FindAppended(exposures[1..], x);
    }
  }

  /** MAIN RESULT.  A variant that has been handed out by an active experiment is handed out again by
      every later call that finds the experiment active, whatever happens in between: status changes
      and redefinitions of the experiment included. */
  lemma StickyAssignment(hash: Hash, s: State, e: string, u: string, events: seq<Event>)
    requires UniqueExposures(s.exposures)
    requires e in s.experiments && s.experiments[e].status == Active
    ensures var (s1, v) := GetVariant(hash, s, e, u);
            var s2 := Run(hash, s1, events);
            && UniqueExposures(s2.exposures)
            && (e in s2.experiments && s2.experiments[e].status == Active ==> GetVariant(hash, s2, e, u) == (s2, v))
  {
    var (s1, v) := GetVariant(hash, s, e, u);
    StepKeeps(hash, s, VariantEvent(e, u));
    RunKeeps(hash, s1, events, e, u);
    if FindExposure(s.exposures, e, u) == None {
      FindAppended(s.exposures, Exposure(e, u, v));
    }
  }

  // ---------------------------------------------------------------- the report

  datatype VariantReport = VariantReport(name: string, exposures: nat, conversions: nat, totalValue: real)

  /** The users who have been shown the variant. */
  function Users(exposures: seq<Exposure>, e: string, name: string): set<string> {
    set x <- exposures | x.experimentId == e && x.variant == name :: x.userId
  }

  function Converted(conversions: seq<Conversion>, e: string, users: set<string>): set<string> {
    set c <- conversions | c.experimentId == e && c.userId in users :: c.userId
  }

  function ValueOf(conversions: seq<Conversion>, e: string, users: set<string>): real {
    if conversions == [] then 0.0
    else
      var c := conversions[|conversions| - 1];
      ValueOf(conversions[..|conversions| - 1], e, users) +
      if c.experimentId == e && c.userId in users then c.value else 0.0
  }

  function ReportOf(s: State, e: string, v: Variant): VariantReport {
    var users := Users(s.exposures, e, v.name);
    VariantReport(v.name, |users|, |Converted(s.conversions, e, users)|, ValueOf(s.conversions, e, users))
  }

  function Report(s: State, e: string, variants: seq<Variant>): (r: seq<VariantReport>)
    ensures |r| == |variants|
  {
    seq(|variants|, i requires 0 <= i < |variants| => ReportOf(s, e, variants[i]))
  }

  /** getResults: None when there is no such experiment. */
  function GetResults(s: State, e: string): Option<seq<VariantReport>> {
    if e in s.experiments then Some(Report(s, e, s.experiments[e].variants)) else None
  }

  function Sum(values: seq<real>): real {
    if values == [] then 0.0 else Sum(values[..|values| - 1]) + values[|values| - 1]
  }

  /** The values of the conversions that a predicate selects, in order. */
  function ValuesWhere(conversions: seq<Conversion>, counts: Conversion -> bool): seq<real> {
    if conversions == [] then []
    else
      var c := conversions[|conversions| - 1];
      ValuesWhere(conversions[..|conversions| - 1], counts) + if counts(c) then [c.value] else []
  }

  lemma {:induction false} ValueIsSum(conversions: seq<Conversion>, e: string, users: set<string>)
    ensures ValueOf(conversions, e, users) ==
            Sum(ValuesWhere(conversions, (c: Conversion) => c.experimentId == e && c.userId in users))
  {
    if conversions != [] {
      ValueIsSum(conversions[..|conversions| - 1], e, users);
      var counts := (c: Conversion) => c.experimentId == e && c.userId in users;
      var front, c := ValuesWhere(conversions[..|conversions| - 1], counts), conversions[|conversions| - 1];
      assert (front + [c.value])[..|front|] == front;
      assert front + [] == front;
    }
  }

  /** MAIN RESULT.  A line of the report, from the records: the number of users who were shown the
      variant, the number of those who converted in the experiment, and the sum of the values of all
      their conversions in it. */
  lemma ReportLine(s: State, e: string, v: Variant)
    ensures var r, shown := ReportOf(s, e, v),
                            set x <- s.exposures | x.experimentId == e && x.variant == v.name :: x.userId;
            && r.name == v.name
            && r.exposures == |shown|
            && r.conversions == |(set u <- shown | exists c <- s.conversions :: c.experimentId == e && c.userId == u)|
            && r.totalValue ==
               Sum(ValuesWhere(s.conversions, (c: Conversion) => c.experimentId == e && c.userId in shown))
  {
    var shown := Users(s.exposures, e, v.name);
    assert Converted(s.conversions, e, shown) ==
           set u <- shown | exists c <- s.conversions :: c.experimentId == e && c.userId == u;
    ValueIsSum(s.conversions, e, shown);
  }

  /** The report has a line for every variant, in order, and exists exactly for experiments that do. */
  lemma ReportOfExperiment(s: State, e: string)
    ensures GetResults(s, e).None? <==> e !in s.experiments
    ensures e in s.experiments ==>
              var r, variants := GetResults(s, e).value, s.experiments[e].variants;
              |r| == |variants| && forall i :: 0 <= i < |r| ==> r[i] == ReportOf(s, e, variants[i])
  {
  }

  function SumExposures(r: seq<VariantReport>): nat {
    if r == [] then 0 else SumExposures(r[..|r| - 1]) + r[|r| - 1].exposures
  }

  function SumValues(r: seq<VariantReport>): real {
    if r == [] then 0.0 else SumValues(r[..|r| - 1]) + r[|r| - 1].totalValue
  }

  predicate IsListed(variants: seq<Variant>, name: string) {
    exists v <- variants :: v.name == name
  }

  /** The users whose recorded variant is listed in the experiment. */
  function ListedUsers(exposures: seq<Exposure>, e: string, variants: seq<Variant>): set<string> {
    set x <- exposures | x.experimentId == e && IsListed(variants, x.variant) :: x.userId
  }

  function ExposedUsers(exposures: seq<Exposure>, e: string): set<string> {
    set x <- exposures | x.experimentId == e :: x.userId
  }

  lemma SizeOfSubset<T>(a: set<T>, b: set<T>)
    requires a <= b
    ensures |a| <= |b|
  {
    assert b == a + (b - a);
  }

  /** No variant reports more converted than exposed users. */
  lemma ConversionsWithinExposures(s: State, e: string, v: Variant)
    ensures ReportOf(s, e, v).conversions <= ReportOf(s, e, v).exposures
  {
    var users := Users(s.exposures, e, v.name);
    SizeOfSubset(Converted(s.conversions, e, users), users);
  }

  lemma {:induction false} ValueOfUnion(conversions: seq<Conversion>, e: string, a: set<string>, b: set<string>)
    requires a !! b
    ensures ValueOf(conversions, e, a + b) == ValueOf(conversions, e, a) + ValueOf(conversions, e, b)
  {
    if conversions != [] {
      ValueOfUnion(conversions[..|conversions| - 1], e, a, b);
    }
  }

  lemma {:induction false} ValueOfNobody(conversions: seq<Conversion>, e: string)
    ensures ValueOf(conversions, e, {}) == 0.0
  {
    if conversions != [] {
      ValueOfNobody(conversions[..|conversions| - 1], e);
    }
  }

  /** One more variant adds its own users, and they are new ones. */
  lemma ListedUsersStep(exposures: seq<Exposure>, e: string, variants: seq<Variant>, v: Variant)
    requires UniqueExposures(exposures) && !IsListed(variants, v.name)
    ensures ListedUsers(exposures, e, variants + [v]) ==
           ListedUsers(exposures, e, variants) + Users(exposures, e, v.name)
    ensures ListedUsers(exposures, e, variants) !! Users(exposures, e, v.name)
  {
    assert forall name :: IsListed(variants + [v], name) <==> IsListed(variants, name) || name == v.name;
  }

  /** MAIN RESULT.  With distinct names the report's exposures add up to the users whose recorded variant
      is listed, and its values to all value converted by them. */
  lemma {:induction false} ReportAddsUp(s: State, e: string, variants: seq<Variant>)
    requires UniqueExposures(s.exposures) && DistinctNames(variants)
    ensures SumExposures(Report(s, e, variants)) == |ListedUsers(s.exposures, e, variants)|
    ensures SumValues(Report(s, e, variants)) == ValueOf(s.conversions, e, ListedUsers(s.exposures, e, variants))
  {
    if variants == [] {
      ValueOfNobody(s.conversions, e);
    } else {
      var front, v := variants[..|variants| - 1], variants[|variants| - 1];
      assert variants == front + [v];
      assert Report(s, e, variants)[..|variants| - 1] == Report(s, e, front);
      ReportAddsUp(s, e, front);
      ListedUsersStep(s.exposures, e, front, v);
      ValueOfUnion(s.conversions, e, ListedUsers(s.exposures, e, front), Users(s.exposures, e, v.name));
    }
  }

  /** Every variant recorded for the experiment is among its variants. */
  ghost predicate AllListed(exposures: seq<Exposure>, e: string, variants: seq<Variant>) {
    forall i :: 0 <= i < |exposures| && exposures[i].experimentId == e ==> IsListed(variants, exposures[i].variant)
  }

  lemma UnlistedUser(exposures: seq<Exposure>, e: string, variants: seq<Variant>, i: nat)
    requires UniqueExposures(exposures) && i < |exposures|
    requires exposures[i].experimentId == e && !IsListed(variants, exposures[i].variant)
    ensures exposures[i].userId in ExposedUsers(exposures, e) - ListedUsers(exposures, e, variants)
  {
    assert exposures[i] in exposures;
  }

  lemma ProperSubsetIsSmaller<T>(a: set<T>, b: set<T>, x: T)
    requires a <= b && x in b - a
    ensures |a| < |b|
  {
    SizeOfSubset(a + {x}, b);
  }

  /** The report accounts for every exposed user exactly when every recorded variant is still listed. */
  lemma ReportIsComplete(s: State, e: string, variants: seq<Variant>)
    requires UniqueExposures(s.exposures) && DistinctNames(variants)
    ensures SumExposures(Report(s, e, variants)) == |ExposedUsers(s.exposures, e)| <==>
           AllListed(s.exposures, e, variants)
    ensures AllListed(s.exposures, e, variants) ==>
              SumValues(Report(s, e, variants)) == ValueOf(s.conversions, e, ExposedUsers(s.exposures, e))
  {
    ReportAddsUp(s, e, variants);
    if AllListed(s.exposures, e, variants) {
      EveryoneListed(s.exposures, e, variants);
    } else {
      var i :| 0 <= i < |s.exposures| && s.exposures[i].experimentId == e
           && !IsListed(variants, s.exposures[i].variant);
      UnlistedUser(s.exposures, e, variants, i);
      ProperSubsetIsSmaller(ListedUsers(s.exposures, e, variants), ExposedUsers(s.exposures, e), s.exposures[i].userId);
    }
  }

  lemma EveryoneListed(exposures: seq<Exposure>, e: string, variants: seq<Variant>)
    requires AllListed(exposures, e, variants)
    ensures ListedUsers(exposures, e, variants) == ExposedUsers(exposures, e)
  {
  }

  // ---------------------------------------------------------------- the service

  class ABTestingService {
    var experiments: map<string, Experiment>
    var exposures: seq<Exposure>
    var conversions: seq<Conversion>
    const hash: Hash

    constructor (hash: Hash)
      ensures this.hash == hash && exposures == [] && conversions == []
      ensures forall id <- experiments :: experiments[id].status == Draft && ExactSplit(experiments[id].variants)
    {
      var booking := [Variant(CONTROL, 50), Variant("variant-a", 50)];
      var pricing := [Variant(CONTROL, 50), Variant("annual-first", 50)];
      experiments := map["exp-booking-flow" := Experiment("exp-booking-flow", Draft, booking),
                         "exp-pricing-page" := Experiment("exp-pricing-page", Draft, pricing)];
      exposures, conversions := [], [];
      this.hash := hash;
      SplitIsExact(booking);
      SplitIsExact(pricing);
      assert Cumulative(booking, 1) == 50 && Cumulative(pricing, 1) == 50;
    }

    ghost function View(): State
      reads this
    {
      State(experiments, exposures, conversions)
    }

    method GetVariantFor(experimentId: string, userId: string) returns (variant: string)
      modifies this
      ensures (View(), variant) == GetVariant(hash, old(View()), experimentId, userId)
      ensures experiments == old(experiments) && conversions == old(conversions)
    {
      if experimentId !in experiments || experiments[experimentId].status != Active {
        return CONTROL;
      }
      var existing := FindExposure(exposures, experimentId, userId);
      if existing.Some? {
        return existing.value.variant;
      }
      variant := SelectVariant(experiments[experimentId].variants, Bucket(hash, experimentId, userId));
      exposures := exposures + [Exposure(experimentId, userId, variant)];
    }

    method TrackConversion(experimentId: string, userId: string, metric: string, value: real)
      modifies this
      ensures View() == Step(hash, old(View()), ConversionEvent(experimentId, userId, metric, value))
      ensures conversions == old(conversions) + [Conversion(experimentId, userId, metric, value)]
      ensures experiments == old(experiments) && exposures == old(exposures)
    {
      conversions := conversions + [Conversion(experimentId, userId, metric, value)];
    }

    method CreateExperiment(experiment: Experiment)
      modifies this
      ensures View() == Step(hash, old(View()), CreateEvent(experiment))
      ensures experiments == old(experiments)[experiment.id := experiment]
      ensures exposures == old(exposures) && conversions == old(conversions)
    {
      experiments := experiments[experiment.id := experiment];
    }

    method UpdateStatus(id: string, status: ExperimentStatus) returns (found: bool)
      modifies this
      ensures found <==> id in old(experiments)
      ensures View() == Step(hash, old(View()), StatusEvent(id, status))
      ensures experiments.Keys == old(experiments).Keys
      ensures forall x <- experiments ::
                experiments[x] == if x == id then old(experiments)[x].(status := status) else old(experiments)[x]
      ensures exposures == old(exposures) && conversions == old(conversions)
    {
      if id !in experiments {
        return false;
      }
      experiments := experiments[id := experiments[id].(status := status)];
      return true;
    }
  }
}
