/** What a split does to the points of an export, told of the messages
    themselves (src/metrics/otlp_split.rs): every point of every kind of metric
    arrives exactly once, in order, under its own resource, scope and metric. */
module OtlpContents {
  import opened OtlpSplit

  // ----- Points and what is around them ---------------------------------------------

  /** The points of a metric are those of its data, whichever of the five kinds it
      is; without them an empty metric of the same kind is left; together they are
      the metric. */
  lemma PointsAreData(m: Metric, n: Metric)
    ensures Points(m) == (match m.data
                          case NoData => []
                          case Gauge(ps) => ps
                          case Sum(ps, _, _) => ps
                          case Histogram(ps, _) => ps
                          case ExponentialHistogram(ps, _) => ps
                          case Summary(ps) => ps)
    ensures Bare(m) == Metric(m.meta, match m.data
                                      case NoData => NoData
                                      case Gauge(_) => Gauge([])
                                      case Sum(_, t, mono) => Sum([], t, mono)
                                      case Histogram(_, t) => Histogram([], t)
                                      case ExponentialHistogram(_, t) => ExponentialHistogram([], t)
                                      case Summary(_) => Summary([]))
    ensures Bare(m) == Bare(n) && Points(m) == Points(n) ==> m == n
  {
  }

  /** Where a point is in an export. */
  datatype Place = Place(ri: nat, si: nat, mi: nat, pi: nat)

  ghost predicate HasPoint(req: Request, at: Place)
  {
    && at.ri < |req.resources|
    && at.si < |req.resources[at.ri].scopes|
    && at.mi < |req.resources[at.ri].scopes[at.si].metrics|
    && var data := req.resources[at.ri].scopes[at.si].metrics[at.mi].data;
    && data != NoData && at.pi < |data.points|
  }

  /** The same point, under the same resource and scope, in a metric that is the
      same but for its points. */
  ghost predicate SamePoint(a: Request, at: Place, b: Request, bt: Place)
    requires HasPoint(a, at) && HasPoint(b, bt)
  {
    var ra, rb := a.resources[at.ri], b.resources[bt.ri];
    var sa, sb := ra.scopes[at.si], rb.scopes[bt.si];
    var ma, mb := sa.metrics[at.mi], sb.metrics[bt.mi];
    && ra.resource == rb.resource && ra.schemaUrl == rb.schemaUrl
    && sa.scope == sb.scope && sa.schemaUrl == sb.schemaUrl
    && ma.meta == mb.meta && ma.data.(points := []) == mb.data.(points := [])
    && ma.data.points[at.pi] == mb.data.points[bt.pi]
  }

  /** How many points come before it in reading order. */
  ghost function Earlier(req: Request, at: Place): (r: nat)
    requires HasPoint(req, at)
  {
    var rm := req.resources[at.ri];
    var sm := rm.scopes[at.si];
    SumOf(req.resources[..at.ri], ResourceCount) + SumOf(rm.scopes[..at.si], ScopeCount)
    + SumOf(sm.metrics[..at.mi], PointCount) + at.pi
  }

  /** The same in a list of exports. */
  ghost function EarlierIn(chunks: seq<Request>, j: nat, at: Place): (r: nat)
    requires j < |chunks| && HasPoint(chunks[j], at)
  {
    SumOf(chunks[..j], Total) + Earlier(chunks[j], at)
  }

  // ----- Places and rows ---------------------------------------------------------------

  /** The piece of a sum in which position k lies. */
  lemma {:induction false} Locate<T>(xs: seq<T>, size: T -> nat, k: nat) returns (i: nat)
    requires k < SumOf(xs, size)
    ensures i < |xs| && SumOf(xs[..i], size) <= k < SumOf(xs[..i], size) + size(xs[i])
  {
    if k < size(xs[0]) {
      i := 0;
    } else {
      i := Locate(xs[1..], size, k - size(xs[0]));
      i := i + 1;
      assert xs[..i][1..] == xs[1..][..i - 1];
    }
  }

  /** Only one piece holds it. */
  lemma {:induction false} OnePiece<T>(xs: seq<T>, size: T -> nat, i: nat, j: nat)
    requires i < j < |xs|
    ensures SumOf(xs[..i], size) + size(xs[i]) <= SumOf(xs[..j], size)
  {
    SumLast(xs[..j], size);
    assert xs[..j][..j - 1] == xs[..j - 1];
    if i < j - 1 {
      OnePiece(xs, size, i, j - 1);
    }
  }

  lemma {:induction false} MetricRowAt(above: Above, ms: seq<Metric>, mi: nat, pi: nat)
    requires mi < |ms| && pi < PointCount(ms[mi])
    ensures var k := SumOf(ms[..mi], PointCount) + pi;
            k < |MetricRows(above, ms)| && MetricRows(above, ms)[k] == Row(above, Bare(ms[mi]), Points(ms[mi])[pi])
  {
    hide PointCount, Bare, Points;
    var n := |ms| - 1;
    MetricTotalIsRows(above, ms[..n]);
    if mi < n {
      assert ms[..n][..mi] == ms[..mi];
      MetricRowAt(above, ms[..n], mi, pi);
    }
  }

  lemma {:induction false} ScopeRowAt(resource: Content, url: Content, sms: seq<ScopeMetrics>, si: nat, o: nat)
    requires si < |sms| && o < ScopeCount(sms[si])
    ensures var k := SumOf(sms[..si], ScopeCount) + o;
            var rows := MetricRows(Above(resource, url, sms[si].scope, sms[si].schemaUrl), sms[si].metrics);
            && k < |ScopeRows(resource, url, sms)| && o < |rows|
            && ScopeRows(resource, url, sms)[k] == rows[o]
  {
    hide MetricRows, PointCount;
    var n := |sms| - 1;
    ScopeTotalIsRows(resource, url, sms[..n]);
    if si < n {
      assert sms[..n][..si] == sms[..si];
      ScopeRowAt(resource, url, sms[..n], si, o);
    } else {
      MetricTotalIsRows(Above(resource, url, sms[si].scope, sms[si].schemaUrl), sms[si].metrics);
    }
  }

  lemma {:induction false} ResourceRowAt(rms: seq<ResourceMetrics>, ri: nat, o: nat)
    requires ri < |rms| && o < ResourceCount(rms[ri])
    ensures var k := SumOf(rms[..ri], ResourceCount) + o;
            var rows := ScopeRows(rms[ri].resource, rms[ri].schemaUrl, rms[ri].scopes);
            k < |ResourceRows(rms)| && o < |rows| && ResourceRows(rms)[k] == rows[o]
  {
    hide ScopeRows, ScopeCount;
    var n := |rms| - 1;
    ResourceTotalIsRows(rms[..n]);
    if ri < n {
      assert rms[..n][..ri] == rms[..ri];
      ResourceRowAt(rms[..n], ri, o);
    } else {
      ScopeTotalIsRows(rms[ri].resource, rms[ri].schemaUrl, rms[ri].scopes);
    }
  }

  lemma {:induction false} ChunkRowAt(chunks: seq<Request>, j: nat, o: nat)
    requires j < |chunks| && o < Total(chunks[j])
    ensures var k := SumOf(chunks[..j], Total) + o;
            k < |AllRows(chunks)| && o < |Rows(chunks[j])| && AllRows(chunks)[k] == Rows(chunks[j])[o]
  {
    hide Rows, Total;
    var n := |chunks| - 1;
    AllTotalIsRows(chunks[..n]);
    TotalIsRows(chunks[j]);
    if j < n {
      assert chunks[..n][..j] == chunks[..j];
      ChunkRowAt(chunks[..n], j, o);
    }
  }

  /** The row of a point, by its place. */
  ghost function RowOf(req: Request, at: Place): (r: Row)
    requires HasPoint(req, at)
  {
    var rm := req.resources[at.ri];
    RowUnder(rm, rm.scopes[at.si], rm.scopes[at.si].metrics[at.mi], at.pi)
  }

  ghost function RowUnder(rm: ResourceMetrics, sm: ScopeMetrics, m: Metric, pi: nat): (r: Row)
    requires m.data != NoData && pi < |m.data.points|
  {
    Row(Above(rm.resource, rm.schemaUrl, sm.scope, sm.schemaUrl), m.(data := m.data.(points := [])), m.data.points[pi])
  }

  lemma RowUnderIs(rm: ResourceMetrics, sm: ScopeMetrics, m: Metric, pi: nat)
    requires m.data != NoData && pi < |m.data.points|
    ensures pi < PointCount(m)
    ensures RowUnder(rm, sm, m, pi)
         == Row(Above(rm.resource, rm.schemaUrl, sm.scope, sm.schemaUrl), Bare(m), Points(m)[pi])
  {
    PointsAreData(m, m);
  }

  lemma RowAtPlace(req: Request, at: Place)
    requires HasPoint(req, at)
    ensures Earlier(req, at) < Total(req) == |Rows(req)| && Rows(req)[Earlier(req, at)] == RowOf(req, at)
  {
    hide SumOf, ScopeRows, ResourceRows, MetricRows, PointCount, ScopeCount, ResourceCount, Total;
    var rm := req.resources[at.ri];
    TotalIsRows(req);
    InPiece(req, at);
    RowInResource(rm, at.si, at.mi, at.pi);
    ResourceRowAt(req.resources, at.ri, PlaceInResource(rm, at.si, at.mi, at.pi));
  }

  ghost function PlaceInResource(rm: ResourceMetrics, si: nat, mi: nat, pi: nat): (o: nat)
    requires si < |rm.scopes| && mi < |rm.scopes[si].metrics|
  {
    SumOf(rm.scopes[..si], ScopeCount) + SumOf(rm.scopes[si].metrics[..mi], PointCount) + pi
  }

  lemma MetricInScope(sm: ScopeMetrics, mi: nat, pi: nat)
    requires mi < |sm.metrics| && pi < PointCount(sm.metrics[mi])
    ensures SumOf(sm.metrics[..mi], PointCount) + pi < ScopeCount(sm)
  {
    hide PointCount;
    TermFits(sm.metrics, PointCount, mi);
  }

  lemma RowInResource(rm: ResourceMetrics, si: nat, mi: nat, pi: nat)
    requires si < |rm.scopes| && mi < |rm.scopes[si].metrics|
    requires rm.scopes[si].metrics[mi].data != NoData && pi < |rm.scopes[si].metrics[mi].data.points|
    ensures var rows := ScopeRows(rm.resource, rm.schemaUrl, rm.scopes);
            && PlaceInResource(rm, si, mi, pi) < |rows|
            && rows[PlaceInResource(rm, si, mi, pi)] == RowUnder(rm, rm.scopes[si], rm.scopes[si].metrics[mi], pi)
  {
    hide ScopeRows, MetricRows, SumOf, PointCount, Points, Bare, ScopeCount, RowUnder;
    var sm := rm.scopes[si];
    RowUnderIs(rm, sm, sm.metrics[mi], pi);
    MetricInScope(sm, mi, pi);
    MetricRowAt(Above(rm.resource, rm.schemaUrl, sm.scope, sm.schemaUrl), sm.metrics, mi, pi);
    ScopeRowAt(rm.resource, rm.schemaUrl, rm.scopes, si, SumOf(sm.metrics[..mi], PointCount) + pi);
  }

  /** Every position below the total is that of a point. */
  lemma PlaceOf(req: Request, k: nat) returns (at: Place)
    requires k < Total(req)
    ensures HasPoint(req, at) && Earlier(req, at) == k
  {
    var ri := Locate(req.resources, ResourceCount, k);
    var rm, k1 := req.resources[ri], k - SumOf(req.resources[..ri], ResourceCount);
    var si := Locate(rm.scopes, ScopeCount, k1);
    var sm, k2 := rm.scopes[si], k1 - SumOf(rm.scopes[..si], ScopeCount);
    var mi := Locate(sm.metrics, PointCount, k2);
    at := Place(ri, si, mi, k2 - SumOf(sm.metrics[..mi], PointCount));
    PointsAreData(sm.metrics[mi], sm.metrics[mi]);
  }

  /** Different points have different positions. */
  lemma OnePlacePerPosition(req: Request, a: Place, b: Place)
    requires HasPoint(req, a) && HasPoint(req, b) && Earlier(req, a) == Earlier(req, b)
    ensures a == b
  {
    InPiece(req, a);
    InPiece(req, b);
    var ri := a.ri;
    if a.ri < b.ri {
      OnePiece(req.resources, ResourceCount, a.ri, b.ri);
    } else if b.ri < a.ri {
      OnePiece(req.resources, ResourceCount, b.ri, a.ri);
    } else if a.si < b.si {
      OnePiece(req.resources[ri].scopes, ScopeCount, a.si, b.si);
    } else if b.si < a.si {
      OnePiece(req.resources[ri].scopes, ScopeCount, b.si, a.si);
    } else if a.mi < b.mi {
      OnePiece(req.resources[ri].scopes[a.si].metrics, PointCount, a.mi, b.mi);
    } else if b.mi < a.mi {
      OnePiece(req.resources[ri].scopes[a.si].metrics, PointCount, b.mi, a.mi);
    }
  }

  lemma InPiece(req: Request, at: Place)
    requires HasPoint(req, at)
    ensures var rm := req.resources[at.ri];
            var sm := rm.scopes[at.si];
            && SumOf(rm.scopes[..at.si], ScopeCount) + SumOf(sm.metrics[..at.mi], PointCount) + at.pi < ResourceCount(rm)
            && SumOf(sm.metrics[..at.mi], PointCount) + at.pi < ScopeCount(sm)
            && at.pi < PointCount(sm.metrics[at.mi])
  {
    var rm := req.resources[at.ri];
    var sm := rm.scopes[at.si];
    PointsAreData(sm.metrics[at.mi], sm.metrics[at.mi]);
    TermFits(sm.metrics, PointCount, at.mi);
    TermFits(rm.scopes, ScopeCount, at.si);
  }

  lemma {:induction false} TermFits<T>(xs: seq<T>, size: T -> nat, i: nat)
    requires i < |xs|
    ensures SumOf(xs[..i], size) + size(xs[i]) <= SumOf(xs, size)
  {
    if i > 0 {
      TermFits(xs[1..], size, i - 1);
      assert xs[..i][1..] == xs[1..][..i - 1];
    }
  }

  // ----- No point is missing, none is added -------------------------------------------------

  /** Every point of the export is in a chunk, at the same position of the whole
      output, under its own resource, scope and metric. */
  lemma EveryPointArrives(chunks: seq<Request>, req: Request, max: nat, at: Place) returns (j: nat, to: Place)
    requires (max > 0 || |Rows(req)| == 0) && SplitOf(chunks, req, max)
    requires HasPoint(req, at)
    ensures j < |chunks| && HasPoint(chunks[j], to) && SamePoint(req, at, chunks[j], to)
    ensures EarlierIn(chunks, j, to) == Earlier(req, at)
  {
    hide Rows, AllRows, Total, Earlier, HasPoint, SamePoint, RowOf;
    RowAtPlace(req, at);
    AllTotalIsRows(chunks);
    j := Locate(chunks, Total, Earlier(req, at));
    to := PlaceOf(chunks[j], Earlier(req, at) - SumOf(chunks[..j], Total));
    RowAtPlace(chunks[j], to);
    ChunkRowAt(chunks, j, Earlier(chunks[j], to));
    SameRow(req, at, chunks[j], to);
  }

  /** And every point of a chunk is such a point of the export. */
  lemma NothingInvented(chunks: seq<Request>, req: Request, max: nat, j: nat, to: Place) returns (at: Place)
    requires (max > 0 || |Rows(req)| == 0) && SplitOf(chunks, req, max)
    requires j < |chunks| && HasPoint(chunks[j], to)
    ensures HasPoint(req, at) && SamePoint(req, at, chunks[j], to)
    ensures EarlierIn(chunks, j, to) == Earlier(req, at)
  {
    hide Rows, AllRows, Total, Earlier, HasPoint, SamePoint, RowOf;
    RowAtPlace(chunks[j], to);
    ChunkRowAt(chunks, j, Earlier(chunks[j], to));
    TotalIsRows(req);
    at := PlaceOf(req, EarlierIn(chunks, j, to));
    RowAtPlace(req, at);
    SameRow(req, at, chunks[j], to);
  }

  lemma SameRow(a: Request, at: Place, b: Request, bt: Place)
    requires HasPoint(a, at) && HasPoint(b, bt) && RowOf(a, at) == RowOf(b, bt)
    ensures SamePoint(a, at, b, bt)
  {
  }
}
