/** The data behind `makeGraph` (main.js): the results of every loaded results file,
    concatenated in file order, each reduced to its product string and the mean of its
    timings, then sorted by product string. `localeCompare` is locale dependent, so the
    order is an input `le` ("compares at most"); reading the files and rendering the
    chart are outside the model. */
module Graph {
  import opened Basics
  import opened Sequences
  import opened Stats
  import opened Timing
  import opened Runner

  /** `{version: d.version.product, average}`: one point of the chart. */
  datatype Point = Point(version: string, average: real)

  /** `le` is a total preorder, as a consistent `localeCompare(a, b) <= 0` is. */
  ghost predicate TotalPreorder(le: (string, string) -> bool)
  {
    && (forall a, b :: le(a, b) || le(b, a))
    && (forall a, b, c :: le(a, b) && le(b, c) ==> le(a, c))
  }

  /** No two different strings compare equal. */
  ghost predicate Antisymmetric(le: (string, string) -> bool)
  {
    forall a, b :: le(a, b) && le(b, a) ==> a == b
  }

  /** The strings are in ascending order. */
  ghost predicate SortedStrings(vs: seq<string>, le: (string, string) -> bool)
  {
    forall i, j :: 0 <= i < j < |vs| ==> le(vs[i], vs[j])
  }

  /** The chart's labels: `data.map(d => d.version)`. */
  function Versions(ps: seq<Point>): (vs: seq<string>)
    ensures |vs| == |ps| && forall i :: 0 <= i < |ps| ==> vs[i] == ps[i].version
  {
    Map((p: Point) => p.version, ps)
  }

  /** The points are in ascending product order: their labels ascend. */
  ghost predicate SortedBy(ps: seq<Point>, le: (string, string) -> bool)
  {
    SortedStrings(Versions(ps), le)
  }

  /** The mapping callback for one result: reading `d.version.product` throws when the
      result has no version (it is evaluated first), and `average` throws on empty timings. */
  function PointOf(d: ExperimentResult): (r: Result<Point>)
    ensures r.Failure? <==> d.version.None? || d.timings == []
    ensures d.version.None? ==> r == Failure(MissingVersion)
    ensures d.version.Some? && d.timings == [] ==> r == Failure(EmptyReduce)
    ensures r.Success? ==>
      r.value.version == d.version.value.info.product && IsMean(r.value.average, Durations(d.timings))
  {
    if d.version.None? then Failure(MissingVersion)
    else
      match Average(Durations(d.timings))
      case Failure(e) => Failure(e)
      case Success(avg) => Success(Point(d.version.value.info.product, avg))
  }

  /** `graphData.map(...)`: the points in order, or the error of the first result whose
      callback throws. */
  function ToPoints(ds: seq<ExperimentResult>): (r: Result<seq<Point>>)
    ensures r.Success? <==> forall i :: 0 <= i < |ds| ==> PointOf(ds[i]).Success?
    ensures r.Success? ==> |r.value| == |ds| && forall i :: 0 <= i < |ds| ==> r.value[i] == PointOf(ds[i]).value
    decreases |ds|
  {
    if ds == [] then Success([])
    else
      var last := |ds| - 1;
      match ToPoints(ds[..last])
      case Failure(e) => Failure(e)
      case Success(ps) =>
        match PointOf(ds[last])
        case Failure(e) => Failure(e)
        case Success(p) => Success(ps + [p])
  }

  /** A failed mapping reports the error of the first result whose callback throws, as
      `Array.prototype.map` stops at the first exception. */
  lemma {:induction false} ToPointsFirstError(ds: seq<ExperimentResult>)
    requires ToPoints(ds).Failure?
    ensures exists k ::
      && 0 <= k < |ds|
      && PointOf(ds[k]).Failure?
      && ToPoints(ds).error == PointOf(ds[k]).error
      && (forall j :: 0 <= j < k ==> PointOf(ds[j]).Success?)
    decreases |ds|
  {
    var last := |ds| - 1;
    var front := ds[..last];
    if ToPoints(front).Failure? {
      ToPointsFirstError(front);
      var k :|
        && 0 <= k < |front|
        && PointOf(front[k]).Failure?
        && ToPoints(front).error == PointOf(front[k]).error
        && (forall j :: 0 <= j < k ==> PointOf(front[j]).Success?);
      assert ds[k] == front[k];
      assert forall j :: 0 <= j < k ==> ds[j] == front[j];
    } else {
      assert forall j :: 0 <= j < last ==> ds[j] == front[j];
      assert PointOf(ds[last]).Failure?;
    }
  }

  /** Places `p` before the first point it compares at most to, so that points which
      compare equal keep their order. */
  function Insert(p: Point, sorted: seq<Point>, le: (string, string) -> bool): (r: seq<Point>)
    ensures multiset(r) == multiset(sorted) + multiset{p}
    decreases |sorted|
  {
    if sorted == [] || le(p.version, sorted[0].version) then [p] + sorted
    else
      assert sorted == [sorted[0]] + sorted[1..];
      [sorted[0]] + Insert(p, sorted[1..], le)
  }

  /** `data.sort((a, b) => a.version.localeCompare(b.version))`, as a stable insertion sort. */
  function SortByVersion(ps: seq<Point>, le: (string, string) -> bool): (r: seq<Point>)
    ensures multiset(r) == multiset(ps)
    decreases |ps|
  {
    if ps == [] then []
    else
      assert ps == [ps[0]] + ps[1..];
      Insert(ps[0], SortByVersion(ps[1..], le), le)
  }

  /** The chart data `makeGraph` derives from the loaded files. */
  function GraphPoints(files: seq<seq<ExperimentResult>>, le: (string, string) -> bool): Result<seq<Point>>
  {
    match ToPoints(Concat(files))
    case Failure(e) => Failure(e)
    case Success(ps) => Success(SortByVersion(ps, le))
  }

  /** `makeGraph`'s data steps: push every file's results into `graphData`, map them to
      points and sort those. */
  method MakeGraphData(files: seq<seq<ExperimentResult>>, le: (string, string) -> bool) returns (r: Result<seq<Point>>)
    ensures r == GraphPoints(files, le)
  {
    var graphData: seq<ExperimentResult> := [];
    for i := 0 to |files|
      invariant graphData == Concat(files[..i])
    {
      assert files[..i + 1][..i] == files[..i];
      graphData := graphData + files[i];
    }
    assert files[..|files|] == files;
    var data := ToPoints(graphData);
    if data.Failure? {
      return Failure(data.error);
    }
    r := Success(SortByVersion(data.value, le));
  }

  /** A string that compares at most to every string of an ascending sequence can head it. */
  lemma SortedCons(x: string, vs: seq<string>, le: (string, string) -> bool)
    requires SortedStrings(vs, le)
    requires forall k :: 0 <= k < |vs| ==> le(x, vs[k])
    ensures SortedStrings([x] + vs, le)
  {
    var r := [x] + vs;
    forall i, j | 0 <= i < j < |r|
      ensures le(r[i], r[j])
    {
      assert r[j] == vs[j - 1];
      if i > 0 {
        assert r[i] == vs[i - 1];
      }
    }
  }

  /** A point that compares at most to the first of sorted points can head them. */
  lemma SortedFront(p: Point, sorted: seq<Point>, le: (string, string) -> bool)
    requires TotalPreorder(le) && SortedBy(sorted, le)
    requires sorted == [] || le(p.version, sorted[0].version)
    ensures SortedBy([p] + sorted, le)
  {
    var vs := Versions(sorted);
    forall k | 0 <= k < |vs|
      ensures le(p.version, vs[k])
    {
      if k > 0 {
        assert le(vs[0], vs[k]);
      }
    }
    SortedCons(p.version, vs, le);
    assert Versions([p] + sorted) == [p.version] + vs;
  }

  /** The first of sorted points compares at most to every point of the rest with one
      more point inserted, when it compares at most to that point too. */
  lemma HeadBeforeInserted(p: Point, sorted: seq<Point>, le: (string, string) -> bool)
    requires sorted != [] && SortedBy(sorted, le) && le(sorted[0].version, p.version)
    ensures forall k :: 0 <= k < |Insert(p, sorted[1..], le)| ==>
      le(sorted[0].version, Versions(Insert(p, sorted[1..], le))[k])
  {
    var vs := Versions(sorted);
    var rest := sorted[1..];
    var ins := Insert(p, rest, le);
    forall k | 0 <= k < |ins|
      ensures le(sorted[0].version, Versions(ins)[k])
    {
      assert ins[k] in multiset(ins);
      assert ins[k] in multiset(rest) + multiset{p};
      if ins[k] != p {
        var m :| 0 <= m < |rest| && rest[m] == ins[k];
        assert le(vs[0], vs[m + 1]);
      }
    }
  }

  /** Inserting into a sorted sequence keeps it sorted. */
  lemma {:induction false} InsertSorted(p: Point, sorted: seq<Point>, le: (string, string) -> bool)
    requires TotalPreorder(le) && SortedBy(sorted, le)
    ensures SortedBy(Insert(p, sorted, le), le)
    decreases |sorted|
  {
    if sorted == [] || le(p.version, sorted[0].version) {
      SortedFront(p, sorted, le);
    } else {
      var rest := sorted[1..];
      assert SortedBy(rest, le) by {
        assert Versions(rest) == Versions(sorted)[1..];
      }
      InsertSorted(p, rest, le);
      var ins := Insert(p, rest, le);
      HeadBeforeInserted(p, sorted, le);
      SortedCons(sorted[0].version, Versions(ins), le);
      assert Versions([sorted[0]] + ins) == [sorted[0].version] + Versions(ins);
    }
  }

  /** The sorted points ascend in product order. */
  lemma {:induction false} SortSorted(ps: seq<Point>, le: (string, string) -> bool)
    requires TotalPreorder(le)
    ensures SortedBy(SortByVersion(ps, le), le)
    decreases |ps|
  {
    if ps != [] {
      SortSorted(ps[1..], le);
      InsertSorted(ps[0], SortByVersion(ps[1..], le), le);
    }
  }

  /** Whenever the chart data can be derived, it holds one point per loaded result, in
      ascending product order. */
  lemma GraphPointsSorted(files: seq<seq<ExperimentResult>>, le: (string, string) -> bool)
    requires TotalPreorder(le)
    ensures GraphPoints(files, le).Success? ==>
      && |GraphPoints(files, le).value| == |Concat(files)|
      && SortedBy(GraphPoints(files, le).value, le)
  {
    var ps := ToPoints(Concat(files));
    if ps.Success? {
      SortSorted(ps.value, le);
      assert |multiset(SortByVersion(ps.value, le))| == |multiset(ps.value)|;
    }
  }

  /** The first string of an ascending sequence compares at most to every string in it. */
  lemma SortedHeadLeast(a: seq<string>, x: string, le: (string, string) -> bool)
    requires TotalPreorder(le) && SortedStrings(a, le) && x in a
    ensures le(a[0], x)
  {
    var i :| 0 <= i < |a| && a[i] == x;
    if i == 0 {
      assert le(x, x) || le(x, x);
    }
  }

  /** Dropping the first string of an ascending sequence leaves an ascending sequence. */
  lemma SortedTail(a: seq<string>, le: (string, string) -> bool)
    requires a != [] && SortedStrings(a, le)
    ensures SortedStrings(a[1..], le)
  {
    var t := a[1..];
    forall i, j | 0 <= i < j < |t|
      ensures le(t[i], t[j])
    {
      assert t[i] == a[i + 1] && t[j] == a[j + 1];
    }
  }

  /** Two sequences of strings, each ascending under a total order, that hold the same
      strings are the same sequence. */
  lemma {:induction false} SortedUnique(a: seq<string>, b: seq<string>, le: (string, string) -> bool)
    requires TotalPreorder(le) && Antisymmetric(le)
    requires SortedStrings(a, le) && SortedStrings(b, le) && multiset(a) == multiset(b)
    ensures a == b
    decreases |a|
  {
    assert |a| == |multiset(a)| == |multiset(b)| == |b|;
    if a != [] {
      assert b[0] in multiset(a);
      SortedHeadLeast(a, b[0], le);
      assert a[0] in multiset(b);
      SortedHeadLeast(b, a[0], le);
      var a' := DropFirst(a);
      var b' := DropFirst(b);
      SortedTail(a, le);
      SortedTail(b, le);
      SortedUnique(a', b', le);
    }
  }

  /** The point a result maps to, when it maps to one. */
  function PointValue(d: ExperimentResult): Point
  {
    if PointOf(d).Success? then PointOf(d).value else Point([], 0.0)
  }

  /** When every result maps to a point, `ToPoints` is a plain map. */
  lemma ToPointsIsMap(ds: seq<ExperimentResult>)
    requires ToPoints(ds).Success?
    ensures ToPoints(ds).value == Map(PointValue, ds)
  {
  }

  /** Every result of a permutation maps to a point when every result of the original does. */
  lemma AllPointsPermutation(ds: seq<ExperimentResult>, es: seq<ExperimentResult>)
    requires multiset(ds) == multiset(es)
    requires ToPoints(ds).Success?
    ensures ToPoints(es).Success?
  {
    forall i | 0 <= i < |es|
      ensures PointOf(es[i]).Success?
    {
      assert es[i] in multiset(ds);
      var k :| 0 <= k < |ds| && ds[k] == es[i];
    }
  }

  /** Every result of a permuted list maps to a point exactly when every result of the
      original does, and the points are then permuted too. */
  lemma PointsOfPermutation(ds: seq<ExperimentResult>, es: seq<ExperimentResult>)
    requires multiset(ds) == multiset(es)
    ensures ToPoints(ds).Success? <==> ToPoints(es).Success?
    ensures ToPoints(ds).Success? ==> multiset(ToPoints(ds).value) == multiset(ToPoints(es).value)
  {
    if ToPoints(ds).Success? {
      AllPointsPermutation(ds, es);
      ToPointsIsMap(ds);
      ToPointsIsMap(es);
      MapPermutation(PointValue, ds, es);
    }
    if ToPoints(es).Success? {
      AllPointsPermutation(es, ds);
    }
  }

  /** Loading the same files in another order changes nothing a reader of the chart can
      tell apart: the data is derived in both orders or in neither, the product labels come
      out in the same sequence, and the points are the same up to the order of points with
      equal labels. */
  lemma GraphIgnoresFileOrder(files: seq<seq<ExperimentResult>>, other: seq<seq<ExperimentResult>>, le: (string, string) -> bool)
    requires TotalPreorder(le) && Antisymmetric(le)
    requires multiset(files) == multiset(other)
    ensures GraphPoints(files, le).Success? <==> GraphPoints(other, le).Success?
    ensures GraphPoints(files, le).Success? ==>
      && Versions(GraphPoints(files, le).value) == Versions(GraphPoints(other, le).value)
      && multiset(GraphPoints(files, le).value) == multiset(GraphPoints(other, le).value)
  {
    ConcatPermutation(files, other);
    PointsOfPermutation(Concat(files), Concat(other));
    if GraphPoints(files, le).Success? {
      var a := GraphPoints(files, le).value;
      var b := GraphPoints(other, le).value;
      SortSorted(ToPoints(Concat(files)).value, le);
      SortSorted(ToPoints(Concat(other)).value, le);
      MapPermutation((p: Point) => p.version, a, b);
      SortedUnique(Versions(a), Versions(b), le);
    }
  }
}
