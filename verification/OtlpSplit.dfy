/** Splitting an OTLP metrics export into requests of a bounded number of points
    (src/metrics/otlp_split.rs). Encoding and decoding of messages is the
    identity here; message content that is never inspected is text. */
module OtlpSplit {
  import opened Arith

  type Content = string

  datatype Data =
    | NoData
    | Gauge(points: seq<Content>)
    | Sum(points: seq<Content>, temporality: int, monotonic: bool)
    | Histogram(points: seq<Content>, temporality: int)
    | ExponentialHistogram(points: seq<Content>, temporality: int)
    | Summary(points: seq<Content>)

  /** `meta` stands for the name, description, unit and metadata of a metric. */
  datatype Metric = Metric(meta: Content, data: Data)

  datatype ScopeMetrics = ScopeMetrics(scope: Content, schemaUrl: Content, metrics: seq<Metric>)

  datatype ResourceMetrics = ResourceMetrics(resource: Content, schemaUrl: Content, scopes: seq<ScopeMetrics>)

  datatype Request = Request(resources: seq<ResourceMetrics>)

  function Points(m: Metric): (r: seq<Content>)
  {
    if m.data.NoData? then [] else m.data.points
  }

  function PointCount(m: Metric): (r: nat)
    ensures r == |Points(m)|
  {
    match m.data
    case NoData => 0
    case Gauge(points) => |points|
    case Sum(points, _, _) => |points|
    case Histogram(points, _) => |points|
    case ExponentialHistogram(points, _) => |points|
    case Summary(points) => |points|
  }

  /** The metric without its points: everything a slice must repeat. */
  function Bare(m: Metric): (r: Metric)
  {
    if m.data.NoData? then m else m.(data := m.data.(points := []))
  }

  /** A copy of m carrying only the points [start, end). */
  function MetricSlice(m: Metric, start: nat, end: nat): (out: Metric)
    requires start <= end <= PointCount(m)
    ensures Points(out) == Points(m)[start..end] && Bare(out) == Bare(m)
  {
    if m.data.NoData? then m else m.(data := m.data.(points := m.data.points[start..end]))
  }

  /** Summing up from the first element on. */
  function SumOf<T>(xs: seq<T>, size: T -> nat): (r: nat)
  {
    if xs == [] then 0 else size(xs[0]) + SumOf(xs[1..], size)
  }

  lemma {:induction false} SumLast<T>(xs: seq<T>, size: T -> nat)
    requires xs != []
    ensures SumOf(xs, size) == SumOf(xs[..|xs| - 1], size) + size(xs[|xs| - 1])
  {
    if |xs| > 1 {
      SumLast(xs[1..], size);
      assert xs[..|xs| - 1][1..] == xs[1..][..|xs| - 2];
    }
  }

  // ----- The flat reading: one row per point, with everything above it -----------

  datatype Above = Above(resource: Content, resourceUrl: Content, scope: Content, scopeUrl: Content)

  datatype Row = Row(above: Above, metric: Metric, point: Content)

  function PointRows(above: Above, bare: Metric, ps: seq<Content>): (rows: seq<Row>)
    ensures |rows| == |ps|
  {
    seq(|ps|, i requires 0 <= i < |ps| => Row(above, bare, ps[i]))
  }

  function MetricRows(above: Above, ms: seq<Metric>): (r: seq<Row>)
  {
    if ms == [] then []
    else
      var m := ms[|ms| - 1];
      MetricRows(above, ms[..|ms| - 1]) + PointRows(above, Bare(m), Points(m))
  }

  function ScopeRows(resource: Content, url: Content, sms: seq<ScopeMetrics>): (r: seq<Row>)
  {
    if sms == [] then []
    else
      var sm := sms[|sms| - 1];
      ScopeRows(resource, url, sms[..|sms| - 1])
      + MetricRows(Above(resource, url, sm.scope, sm.schemaUrl), sm.metrics)
  }

  function ResourceRows(rms: seq<ResourceMetrics>): (r: seq<Row>)
  {
    if rms == [] then []
    else
      var rm := rms[|rms| - 1];
      ResourceRows(rms[..|rms| - 1]) + ScopeRows(rm.resource, rm.schemaUrl, rm.scopes)
  }

  function Rows(req: Request): (r: seq<Row>)
  {
    ResourceRows(req.resources)
  }

  function AllRows(chunks: seq<Request>): (r: seq<Row>)
  {
    if chunks == [] then [] else AllRows(chunks[..|chunks| - 1]) + Rows(chunks[|chunks| - 1])
  }

  lemma MetricSnoc(above: Above, ms: seq<Metric>, m: Metric)
    ensures MetricRows(above, ms + [m]) == MetricRows(above, ms) + PointRows(above, Bare(m), Points(m))
  {
    assert (ms + [m])[..|ms|] == ms;
  }

  lemma ScopeSnoc(resource: Content, url: Content, sms: seq<ScopeMetrics>, sm: ScopeMetrics)
    ensures ScopeRows(resource, url, sms + [sm])
         == ScopeRows(resource, url, sms) + MetricRows(Above(resource, url, sm.scope, sm.schemaUrl), sm.metrics)
  {
    assert (sms + [sm])[..|sms|] == sms;
  }

  lemma ResourceSnoc(rms: seq<ResourceMetrics>, rm: ResourceMetrics)
    ensures ResourceRows(rms + [rm]) == ResourceRows(rms) + ScopeRows(rm.resource, rm.schemaUrl, rm.scopes)
  {
    assert (rms + [rm])[..|rms|] == rms;
  }

  lemma ChunkSnoc(chunks: seq<Request>, c: Request)
    ensures AllRows(chunks + [c]) == AllRows(chunks) + Rows(c)
  {
    assert (chunks + [c])[..|chunks|] == chunks;
  }

  // ----- The structure of a chunk: an excerpt of the source in source order --------

  ghost predicate Increasing(idx: seq<nat>, bound: nat)
  {
    && (forall k :: 0 <= k < |idx| ==> idx[k] < bound)
    && (forall j, k :: 0 <= j < k < |idx| ==> idx[j] < idx[k])
  }

  ghost predicate MetricExcerpt(out: Metric, src: Metric)
  {
    exists a, b | 0 <= a < b <= PointCount(src) :: out == MetricSlice(src, a, b)
  }

  /** `out` holds a non-empty slice of each source metric named by `ms`. */
  ghost predicate ScopeExcerptAt(out: ScopeMetrics, src: ScopeMetrics, ms: seq<nat>)
  {
    && out.scope == src.scope && out.schemaUrl == src.schemaUrl
    && |out.metrics| == |ms| > 0 && Increasing(ms, |src.metrics|)
    && forall k :: 0 <= k < |ms| ==> MetricExcerpt(out.metrics[k], src.metrics[ms[k]])
  }

  ghost predicate ScopeExcerpt(out: ScopeMetrics, src: ScopeMetrics)
  {
    exists ms :: ScopeExcerptAt(out, src, ms)
  }

  ghost predicate ResourceExcerptAt(out: ResourceMetrics, src: ResourceMetrics, ss: seq<nat>)
  {
    && out.resource == src.resource && out.schemaUrl == src.schemaUrl
    && |out.scopes| == |ss| > 0 && Increasing(ss, |src.scopes|)
    && forall k :: 0 <= k < |ss| ==> ScopeExcerpt(out.scopes[k], src.scopes[ss[k]])
  }

  ghost predicate ResourceExcerpt(out: ResourceMetrics, src: ResourceMetrics)
  {
    exists ss :: ResourceExcerptAt(out, src, ss)
  }

  ghost predicate ExcerptAt(out: Request, src: Request, rs: seq<nat>)
  {
    && |out.resources| == |rs| > 0 && Increasing(rs, |src.resources|)
    && forall k :: 0 <= k < |rs| ==> ResourceExcerpt(out.resources[k], src.resources[rs[k]])
  }

  /** Every shell of the chunk is non-empty and repeats a source shell; shells
      and metrics appear in source order, each source metric at most once. */
  ghost predicate Excerpt(out: Request, src: Request)
  {
    exists rs :: ExcerptAt(out, src, rs)
  }

  // ----- Pushing one slice under the right shells ------------------------------------

  /** `usize::MAX` in the source: no shell is open. */
  const NONE: int := -1

  function EnsureResource(cur: Request, curRi: int, ri: nat, rm: ResourceMetrics): (out: Request)
    ensures curRi != ri ==> |out.resources| > 0
  {
    if curRi != ri then Request(cur.resources + [ResourceMetrics(rm.resource, rm.schemaUrl, [])]) else cur
  }

  function EnsureScope(rm: ResourceMetrics, curSi: int, si: nat, sm: ScopeMetrics): (out: ResourceMetrics)
    ensures curSi != si ==> |out.scopes| > 0
  {
    if curSi != si then rm.(scopes := rm.scopes + [ScopeMetrics(sm.scope, sm.schemaUrl, [])]) else rm
  }

  function PushInScope(rm: ResourceMetrics, curSi: int, si: nat, sm: ScopeMetrics, piece: Metric): (r: ResourceMetrics)
    requires curSi == si ==> rm.scopes != []
  {
    var shells := EnsureScope(rm, curSi, si, sm);
    var last := |shells.scopes| - 1;
    var curSm := shells.scopes[last];
    shells.(scopes := shells.scopes[last := curSm.(metrics := curSm.metrics + [piece])])
  }

  /** Open the shells the cursors miss, then push the slice into the last ones. */
  function PushSlice(cur: Request, curRi: int, curSi: int,
                     ri: nat, rm: ResourceMetrics, si: nat, sm: ScopeMetrics, piece: Metric): (out: Request)
    requires curRi == ri ==> cur.resources != []
    requires curRi == ri && curSi == si ==> cur.resources[|cur.resources| - 1].scopes != []
  {
    var shells := EnsureResource(cur, curRi, ri, rm);
    var last := |shells.resources| - 1;
    var curRm := PushInScope(shells.resources[last], if curRi != ri then NONE else curSi, si, sm, piece);
    Request(shells.resources[last := curRm])
  }

  function NewScope(sm: ScopeMetrics, piece: Metric): (r: ScopeMetrics)
  {
    ScopeMetrics(sm.scope, sm.schemaUrl, [piece])
  }

  function NewResource(rm: ResourceMetrics, sm: ScopeMetrics, piece: Metric): (r: ResourceMetrics)
  {
    ResourceMetrics(rm.resource, rm.schemaUrl, [NewScope(sm, piece)])
  }

  lemma PushInNewScope(rm: ResourceMetrics, curSi: int, si: nat, sm: ScopeMetrics, piece: Metric)
    requires curSi != si
    ensures PushInScope(rm, curSi, si, sm, piece) == rm.(scopes := rm.scopes + [NewScope(sm, piece)])
  {
    assert [] + [piece] == [piece];
    assert (rm.scopes + [ScopeMetrics(sm.scope, sm.schemaUrl, [])])[|rm.scopes| := NewScope(sm, piece)]
        == rm.scopes + [NewScope(sm, piece)];
  }

  lemma PushInNewResource(cur: Request, curRi: int, curSi: int,
                          ri: nat, rm: ResourceMetrics, si: nat, sm: ScopeMetrics, piece: Metric)
    requires curRi != ri
    ensures PushSlice(cur, curRi, curSi, ri, rm, si, sm, piece)
         == Request(cur.resources + [NewResource(rm, sm, piece)])
  {
    var bare := ResourceMetrics(rm.resource, rm.schemaUrl, []);
    PushInNewScope(bare, NONE, si, sm, piece);
    assert bare.scopes + [NewScope(sm, piece)] == [NewScope(sm, piece)];
    assert (cur.resources + [bare])[|cur.resources| := NewResource(rm, sm, piece)]
        == cur.resources + [NewResource(rm, sm, piece)];
  }

  /** The two ways of pushing under the open resource shell. */
  lemma PushInOpenResource(cur: Request, curSi: int,
                           ri: nat, rm: ResourceMetrics, si: nat, sm: ScopeMetrics, piece: Metric)
    requires cur.resources != [] && (curSi == si ==> cur.resources[|cur.resources| - 1].scopes != [])
    ensures var n := |cur.resources| - 1;
            var last := cur.resources[n];
            var k := |last.scopes| - 1;
            PushSlice(cur, ri, curSi, ri, rm, si, sm, piece)
            == Request(cur.resources[n :=
                 if curSi != si then last.(scopes := last.scopes + [NewScope(sm, piece)])
                 else last.(scopes := last.scopes[k := last.scopes[k].(metrics := last.scopes[k].metrics + [piece])])])
  {
    if curSi != si {
      PushInNewScope(cur.resources[|cur.resources| - 1], curSi, si, sm, piece);
    }
  }

  /** The open chunk: an excerpt whose last shells the cursors name, at a
      position before source position (ri, si, mi). */
  ghost predicate OpenAt(cur: Request, src: Request, rs: seq<nat>, ss: seq<nat>, ms: seq<nat>)
  {
    && ExcerptAt(cur, src, rs)
    && var out, rm := cur.resources[|rs| - 1], src.resources[rs[|rs| - 1]];
    && ResourceExcerptAt(out, rm, ss)
    && ScopeExcerptAt(out.scopes[|ss| - 1], rm.scopes[ss[|ss| - 1]], ms)
  }

  predicate Before(a: nat, b: nat, c: nat, ri: nat, si: nat, mi: nat)
  {
    a < ri || (a == ri && (b < si || (b == si && c < mi)))
  }

  ghost predicate OpenBefore(cur: Request, src: Request, curRi: int, curSi: int, ri: nat, si: nat, mi: nat)
  {
    if cur.resources == [] then curRi == NONE && curSi == NONE
    else exists rs, ss, ms ::
      && OpenAt(cur, src, rs, ss, ms)
      && curRi == rs[|rs| - 1] && curSi == ss[|ss| - 1]
      && Before(rs[|rs| - 1], ss[|ss| - 1], ms[|ms| - 1], ri, si, mi)
  }

  lemma IncreasingSnoc(idx: seq<nat>, bound: nat, i: nat)
    requires Increasing(idx, bound) && i < bound && (|idx| > 0 ==> idx[|idx| - 1] < i)
    ensures Increasing(idx + [i], bound)
  {
  }

  lemma PushMetric(out: ScopeMetrics, src: ScopeMetrics, ms: seq<nat>, mi: nat, piece: Metric)
    requires ScopeExcerptAt(out, src, ms) && ms[|ms| - 1] < mi < |src.metrics|
    requires MetricExcerpt(piece, src.metrics[mi])
    ensures ScopeExcerptAt(out.(metrics := out.metrics + [piece]), src, ms + [mi])
  {
    IncreasingSnoc(ms, |src.metrics|, mi);
  }

  lemma PushScope(out: ResourceMetrics, src: ResourceMetrics, ss: seq<nat>, si: nat, shell: ScopeMetrics)
    requires out.resource == src.resource && out.schemaUrl == src.schemaUrl
    requires ss == [] ==> out.scopes == []
    requires ss != [] ==> ResourceExcerptAt(out, src, ss) && ss[|ss| - 1] < si
    requires si < |src.scopes| && ScopeExcerpt(shell, src.scopes[si])
    ensures ResourceExcerptAt(out.(scopes := out.scopes + [shell]), src, ss + [si])
  {
    IncreasingSnoc(ss, |src.scopes|, si);
  }

  lemma ReplaceScope(out: ResourceMetrics, src: ResourceMetrics, ss: seq<nat>, shell: ScopeMetrics)
    requires ResourceExcerptAt(out, src, ss) && ScopeExcerpt(shell, src.scopes[ss[|ss| - 1]])
    ensures ResourceExcerptAt(out.(scopes := out.scopes[|ss| - 1 := shell]), src, ss)
  {
  }

  lemma PushResource(cur: Request, src: Request, rs: seq<nat>, ri: nat, shell: ResourceMetrics)
    requires rs == [] ==> cur.resources == []
    requires rs != [] ==> ExcerptAt(cur, src, rs) && rs[|rs| - 1] < ri
    requires ri < |src.resources| && ResourceExcerpt(shell, src.resources[ri])
    ensures ExcerptAt(Request(cur.resources + [shell]), src, rs + [ri])
  {
    IncreasingSnoc(rs, |src.resources|, ri);
  }

  lemma ReplaceResource(cur: Request, src: Request, rs: seq<nat>, shell: ResourceMetrics)
    requires ExcerptAt(cur, src, rs) && ResourceExcerpt(shell, src.resources[rs[|rs| - 1]])
    ensures ExcerptAt(Request(cur.resources[|rs| - 1 := shell]), src, rs)
  {
  }

  /** Explicit positions of the last shells witness the cursor invariant. */
  lemma CursorsNameLast(out: Request, src: Request, rs: seq<nat>, ss: seq<nat>, ms: seq<nat>)
    requires OpenAt(out, src, rs, ss, ms)
    ensures OpenBefore(out, src, rs[|rs| - 1], ss[|ss| - 1], rs[|rs| - 1], ss[|ss| - 1], ms[|ms| - 1] + 1)
  {
  }

  ghost predicate IsSliceOf(piece: Metric, src: Request, ri: nat, si: nat, mi: nat)
  {
    && ri < |src.resources| && si < |src.resources[ri].scopes|
    && mi < |src.resources[ri].scopes[si].metrics|
    && MetricExcerpt(piece, src.resources[ri].scopes[si].metrics[mi])
  }

  lemma NewScopeExcerpt(src: ScopeMetrics, mi: nat, piece: Metric)
    requires mi < |src.metrics| && MetricExcerpt(piece, src.metrics[mi])
    ensures ScopeExcerptAt(NewScope(src, piece), src, [mi])
  {
  }

  lemma NewResourceExcerpt(src: ResourceMetrics, si: nat, mi: nat, piece: Metric)
    requires si < |src.scopes| && mi < |src.scopes[si].metrics|
    requires MetricExcerpt(piece, src.scopes[si].metrics[mi])
    ensures ResourceExcerptAt(NewResource(src, src.scopes[si], piece), src, [si])
  {
    NewScopeExcerpt(src.scopes[si], mi, piece);
  }

  /** A slice that opens a new resource shell. */
  lemma PushUnderNewResource(cur: Request, src: Request, rs: seq<nat>, ri: nat, si: nat, mi: nat, piece: Metric)
    requires rs == [] ==> cur.resources == []
    requires rs != [] ==> ExcerptAt(cur, src, rs) && rs[|rs| - 1] < ri
    requires IsSliceOf(piece, src, ri, si, mi)
    ensures var rm := src.resources[ri];
            OpenAt(Request(cur.resources + [NewResource(rm, rm.scopes[si], piece)]), src, rs + [ri], [si], [mi])
  {
    var rm := src.resources[ri];
    NewResourceExcerpt(rm, si, mi, piece);
    NewScopeExcerpt(rm.scopes[si], mi, piece);
    PushResource(cur, src, rs, ri, NewResource(rm, rm.scopes[si], piece));
  }

  /** A slice that opens a new scope shell in the open resource shell. */
  lemma PushUnderNewScope(cur: Request, src: Request, rs: seq<nat>, ss: seq<nat>, ms: seq<nat>,
                          si: nat, mi: nat, piece: Metric)
    requires OpenAt(cur, src, rs, ss, ms) && ss[|ss| - 1] < si
    requires IsSliceOf(piece, src, rs[|rs| - 1], si, mi)
    ensures var last := cur.resources[|rs| - 1];
            var sm := src.resources[rs[|rs| - 1]].scopes[si];
            OpenAt(Request(cur.resources[|rs| - 1 := last.(scopes := last.scopes + [NewScope(sm, piece)])]),
                   src, rs, ss + [si], [mi])
  {
    var rm := src.resources[rs[|rs| - 1]];
    var last := cur.resources[|rs| - 1];
    NewScopeExcerpt(rm.scopes[si], mi, piece);
    PushScope(last, rm, ss, si, NewScope(rm.scopes[si], piece));
    ReplaceResource(cur, src, rs, last.(scopes := last.scopes + [NewScope(rm.scopes[si], piece)]));
  }

  /** A slice that joins the open scope shell. */
  lemma PushUnderOpenScope(cur: Request, src: Request, rs: seq<nat>, ss: seq<nat>, ms: seq<nat>,
                           mi: nat, piece: Metric)
    requires OpenAt(cur, src, rs, ss, ms) && ms[|ms| - 1] < mi
    requires IsSliceOf(piece, src, rs[|rs| - 1], ss[|ss| - 1], mi)
    ensures var last := cur.resources[|rs| - 1];
            var scope := last.scopes[|ss| - 1];
            var scope' := scope.(metrics := scope.metrics + [piece]);
            OpenAt(Request(cur.resources[|rs| - 1 := last.(scopes := last.scopes[|ss| - 1 := scope'])]),
                   src, rs, ss, ms + [mi])
  {
    var rm := src.resources[rs[|rs| - 1]];
    var last := cur.resources[|rs| - 1];
    var scope := last.scopes[|ss| - 1];
    PushMetric(scope, rm.scopes[ss[|ss| - 1]], ms, mi, piece);
    var scope' := scope.(metrics := scope.metrics + [piece]);
    ReplaceScope(last, rm, ss, scope');
    ReplaceResource(cur, src, rs, last.(scopes := last.scopes[|ss| - 1 := scope']));
  }

  /** Pushing under the open resource shell, at explicit positions. */
  lemma PushUnderOpenResource(cur: Request, src: Request, rs: seq<nat>, ss: seq<nat>, ms: seq<nat>,
                              si: nat, mi: nat, piece: Metric)
    requires OpenAt(cur, src, rs, ss, ms)
    requires ss[|ss| - 1] < si || (ss[|ss| - 1] == si && ms[|ms| - 1] < mi)
    requires IsSliceOf(piece, src, rs[|rs| - 1], si, mi)
    ensures var ri := rs[|rs| - 1];
            var rm := src.resources[ri];
            var out := PushSlice(cur, ri, ss[|ss| - 1], ri, rm, si, rm.scopes[si], piece);
            out.resources != [] && OpenBefore(out, src, ri, si, ri, si, mi + 1)
  {
    hide OpenBefore, ResourceExcerpt, ScopeExcerpt, MetricExcerpt, PushInScope, PushSlice;
    var last, sm := cur.resources[|rs| - 1], src.resources[rs[|rs| - 1]].scopes[si];
    PushInOpenResource(cur, ss[|ss| - 1], rs[|rs| - 1], src.resources[rs[|rs| - 1]], si, sm, piece);
    if ss[|ss| - 1] != si {
      PushUnderNewScope(cur, src, rs, ss, ms, si, mi, piece);
      var out := Request(cur.resources[|rs| - 1 := last.(scopes := last.scopes + [NewScope(sm, piece)])]);
      CursorsNameLast(out, src, rs, ss + [si], [mi]);
    } else {
      PushUnderOpenScope(cur, src, rs, ss, ms, mi, piece);
      var scope := last.scopes[|ss| - 1];
      var scope' := scope.(metrics := scope.metrics + [piece]);
      var out := Request(cur.resources[|rs| - 1 := last.(scopes := last.scopes[|ss| - 1 := scope'])]);
      CursorsNameLast(out, src, rs, ss, ms + [mi]);
    }
  }

  lemma CursorsOpen(cur: Request, src: Request, curRi: int, curSi: int, ri: nat, si: nat, mi: nat)
    requires OpenBefore(cur, src, curRi, curSi, ri, si, mi)
    ensures curRi == ri ==> cur.resources != []
    ensures curRi == ri && curSi == si ==> cur.resources[|cur.resources| - 1].scopes != []
  {
  }

  /** Pushing a slice of metric (ri, si, mi) keeps the open chunk an excerpt. */
  lemma PushOpens(cur: Request, src: Request, curRi: int, curSi: int, ri: nat, si: nat, mi: nat, piece: Metric)
    requires OpenBefore(cur, src, curRi, curSi, ri, si, mi)
    requires IsSliceOf(piece, src, ri, si, mi)
    ensures curRi == ri ==> cur.resources != []
    ensures curRi == ri && curSi == si ==> cur.resources[|cur.resources| - 1].scopes != []
    ensures var rm := src.resources[ri];
            var out := PushSlice(cur, curRi, curSi, ri, rm, si, rm.scopes[si], piece);
            out.resources != [] && OpenBefore(out, src, ri, si, ri, si, mi + 1)
  {
    CursorsOpen(cur, src, curRi, curSi, ri, si, mi);
    if cur.resources == [] {
      PushFirst(cur, src, [], curRi, curSi, ri, si, mi, piece);
    } else {
      var rs, ss, ms :| OpenAt(cur, src, rs, ss, ms)
        && curRi == rs[|rs| - 1] && curSi == ss[|ss| - 1]
        && Before(rs[|rs| - 1], ss[|ss| - 1], ms[|ms| - 1], ri, si, mi);
      if curRi == ri {
        PushUnderOpenResource(cur, src, rs, ss, ms, si, mi, piece);
      } else {
        PushFirst(cur, src, rs, curRi, curSi, ri, si, mi, piece);
      }
    }
  }

  lemma PushFirst(cur: Request, src: Request, rs: seq<nat>, curRi: int, curSi: int,
                  ri: nat, si: nat, mi: nat, piece: Metric)
    requires rs == [] ==> cur.resources == []
    requires rs != [] ==> ExcerptAt(cur, src, rs) && rs[|rs| - 1] < ri
    requires IsSliceOf(piece, src, ri, si, mi) && curRi != ri
    ensures var rm := src.resources[ri];
            var out := PushSlice(cur, curRi, curSi, ri, rm, si, rm.scopes[si], piece);
            out.resources != [] && OpenBefore(out, src, ri, si, ri, si, mi + 1)
  {
    var rm := src.resources[ri];
    PushInNewResource(cur, curRi, curSi, ri, rm, si, rm.scopes[si], piece);
    PushUnderNewResource(cur, src, rs, ri, si, mi, piece);
    CursorsNameLast(Request(cur.resources + [NewResource(rm, rm.scopes[si], piece)]), src, rs + [ri], [si], [mi]);
  }

  // ----- The rows a push adds -------------------------------------------------------

  function AboveOf(rm: ResourceMetrics, sm: ScopeMetrics): (r: Above)
  {
    Above(rm.resource, rm.schemaUrl, sm.scope, sm.schemaUrl)
  }

  lemma NewResourceRows(rm: ResourceMetrics, sm: ScopeMetrics, piece: Metric)
    ensures ScopeRows(rm.resource, rm.schemaUrl, [NewScope(sm, piece)])
         == PointRows(AboveOf(rm, sm), Bare(piece), Points(piece))
  {
    MetricSnoc(AboveOf(rm, sm), [], piece);
    ScopeSnoc(rm.resource, rm.schemaUrl, [], NewScope(sm, piece));
    assert [] + [piece] == [piece] && [] + [NewScope(sm, piece)] == [NewScope(sm, piece)];
  }

  lemma PushInScopeRows(last: ResourceMetrics, curSi: int, si: nat, sm: ScopeMetrics, piece: Metric)
    requires curSi == si ==> last.scopes != []
    requires curSi == si ==>
      var scope := last.scopes[|last.scopes| - 1];
      scope.scope == sm.scope && scope.schemaUrl == sm.schemaUrl
    ensures var k := |last.scopes| - 1;
            ScopeRows(last.resource, last.schemaUrl,
              if curSi != si then last.scopes + [NewScope(sm, piece)]
              else last.scopes[k := last.scopes[k].(metrics := last.scopes[k].metrics + [piece])])
            == ScopeRows(last.resource, last.schemaUrl, last.scopes)
               + PointRows(AboveOf(last, sm), Bare(piece), Points(piece))
  {
    var above := AboveOf(last, sm);
    if curSi != si {
      ScopeSnoc(last.resource, last.schemaUrl, last.scopes, NewScope(sm, piece));
      MetricSnoc(above, [], piece);
      assert [] + [piece] == [piece];
    } else {
      var init, scope := last.scopes[..|last.scopes| - 1], last.scopes[|last.scopes| - 1];
      var scope' := scope.(metrics := scope.metrics + [piece]);
      assert last.scopes[|last.scopes| - 1 := scope'] == init + [scope'];
      ScopeSnoc(last.resource, last.schemaUrl, init, scope');
      MetricSnoc(above, scope.metrics, piece);
    }
  }

  lemma ReplaceLastRows(cur: Request, shell: ResourceMetrics, added: seq<Row>)
    requires cur.resources != []
    requires var last := cur.resources[|cur.resources| - 1];
             ScopeRows(shell.resource, shell.schemaUrl, shell.scopes)
             == ScopeRows(last.resource, last.schemaUrl, last.scopes) + added
    ensures Rows(Request(cur.resources[|cur.resources| - 1 := shell])) == Rows(cur) + added
  {
    var n := |cur.resources| - 1;
    assert cur.resources[n := shell] == cur.resources[..n] + [shell];
    ResourceSnoc(cur.resources[..n], shell);
  }

  /** The open shells carry the source's own resource and scope. */
  ghost predicate ShellsMirror(cur: Request, curRi: int, curSi: int,
                               ri: nat, rm: ResourceMetrics, si: nat, sm: ScopeMetrics)
  {
    curRi == ri ==>
      && cur.resources != []
      && var last := cur.resources[|cur.resources| - 1];
      && last.resource == rm.resource && last.schemaUrl == rm.schemaUrl
      && (curSi == si ==>
            && last.scopes != []
            && var scope := last.scopes[|last.scopes| - 1];
            && scope.scope == sm.scope && scope.schemaUrl == sm.schemaUrl)
  }

  lemma OpenMirrors(cur: Request, src: Request, curRi: int, curSi: int, ri: nat, si: nat, mi: nat)
    requires OpenBefore(cur, src, curRi, curSi, ri, si, mi)
    requires ri < |src.resources| && si < |src.resources[ri].scopes|
    ensures ShellsMirror(cur, curRi, curSi, ri, src.resources[ri], si, src.resources[ri].scopes[si])
  {
    if cur.resources != [] {
      var rs, ss, ms :| OpenAt(cur, src, rs, ss, ms)
        && curRi == rs[|rs| - 1] && curSi == ss[|ss| - 1]
        && Before(rs[|rs| - 1], ss[|ss| - 1], ms[|ms| - 1], ri, si, mi);
    }
  }

  /** A push adds exactly the slice's points, under the source's own shells. */
  lemma PushRows(cur: Request, curRi: int, curSi: int,
                 ri: nat, rm: ResourceMetrics, si: nat, sm: ScopeMetrics, piece: Metric)
    requires ShellsMirror(cur, curRi, curSi, ri, rm, si, sm)
    ensures Rows(PushSlice(cur, curRi, curSi, ri, rm, si, sm, piece))
         == Rows(cur) + PointRows(AboveOf(rm, sm), Bare(piece), Points(piece))
  {
    var added := PointRows(AboveOf(rm, sm), Bare(piece), Points(piece));
    if curRi != ri {
      PushInNewResource(cur, curRi, curSi, ri, rm, si, sm, piece);
      ResourceSnoc(cur.resources, NewResource(rm, sm, piece));
      NewResourceRows(rm, sm, piece);
    } else {
      var last := cur.resources[|cur.resources| - 1];
      var k := |last.scopes| - 1;
      PushInOpenResource(cur, curSi, ri, rm, si, sm, piece);
      PushInScopeRows(last, curSi, si, sm, piece);
      ReplaceLastRows(cur,
        if curSi != si then last.(scopes := last.scopes + [NewScope(sm, piece)])
        else last.(scopes := last.scopes[k := last.scopes[k].(metrics := last.scopes[k].metrics + [piece])]),
        added);
    }
  }

  // ----- The packing invariant --------------------------------------------------------

  /** The loop's variables. */
  datatype Packer = Packer(chunks: seq<Request>, current: Request, points: nat, curRi: int, curSi: int)

  function Emitted(p: Packer): (r: seq<Row>)
  {
    AllRows(p.chunks) + Rows(p.current)
  }

  /** Capped non-empty pieces, all good, whose neighbours exceed the cap. */
  ghost predicate Chain<T>(xs: seq<T>, good: T -> bool, size: T -> nat, max: nat)
  {
    && (forall k :: 0 <= k < |xs| ==> good(xs[k]) && 0 < size(xs[k]) <= max)
    && (forall k :: 0 < k < |xs| ==> size(xs[k - 1]) + size(xs[k]) > max)
  }

  lemma ChainSnoc<T>(xs: seq<T>, x: T, good: T -> bool, size: T -> nat, max: nat)
    requires Chain(xs, good, size, max) && good(x) && 0 < size(x) <= max
    requires xs != [] ==> size(xs[|xs| - 1]) + size(x) > max
    ensures Chain(xs + [x], good, size, max)
  {
    var all := xs + [x];
    forall k | 0 < k < |all|
      ensures size(all[k - 1]) + size(all[k]) > max
    {
      assert all[k - 1] == xs[k - 1];
    }
  }

  ghost function ExcerptOf(src: Request): (r: Request -> bool)
  {
    c => Excerpt(c, src)
  }

  function RowCount(c: Request): (r: nat)
  {
    |Rows(c)|
  }

  ghost predicate Closed(chunks: seq<Request>, src: Request, max: nat)
  {
    Chain(chunks, ExcerptOf(src), RowCount, max)
  }

  /** Ready to take `next` more points of the metric at (ri, si, mi). */
  ghost predicate Ready(p: Packer, src: Request, max: nat, ri: nat, si: nat, mi: nat, next: nat)
  {
    && Closed(p.chunks, src, max)
    && OpenBefore(p.current, src, p.curRi, p.curSi, ri, si, mi)
    && p.points == RowCount(p.current) <= max
    && (p.points == 0 <==> p.current.resources == [])
    && (p.chunks != [] ==> RowCount(p.chunks[|p.chunks| - 1]) + p.points + next > max)
  }

  lemma ReadyLater(p: Packer, src: Request, max: nat, ri: nat, si: nat, mi: nat, ri': nat, si': nat, mi': nat)
    requires Ready(p, src, max, ri, si, mi, 0)
    requires ri < ri' || (ri == ri' && (si < si' || (si == si' && mi <= mi')))
    ensures Ready(p, src, max, ri', si', mi', 0)
  {
  }

  /** Room for more points, or none yet: the neighbour condition only relaxes. */
  lemma ReadyFor(p: Packer, src: Request, max: nat, ri: nat, si: nat, mi: nat, next: nat)
    requires Ready(p, src, max, ri, si, mi, 0)
    ensures Ready(p, src, max, ri, si, mi, next)
  {
    hide OpenBefore, Closed;
  }

  function Flush(p: Packer): (r: Packer)
  {
    Packer(p.chunks + [p.current], Request([]), 0, NONE, NONE)
  }

  lemma OpenIsExcerpt(cur: Request, src: Request, curRi: int, curSi: int, ri: nat, si: nat, mi: nat)
    requires OpenBefore(cur, src, curRi, curSi, ri, si, mi) && cur.resources != []
    ensures Excerpt(cur, src)
  {
  }

  lemma EmptyIsOpen(src: Request, ri: nat, si: nat, mi: nat)
    ensures OpenBefore(Request([]), src, NONE, NONE, ri, si, mi)
    ensures Rows(Request([])) == []
  {
  }

  /** Closing the open chunk because the next slice does not fit. */
  lemma FlushReady(p: Packer, src: Request, max: nat, ri: nat, si: nat, mi: nat, mi': nat, next: nat)
    requires Ready(p, src, max, ri, si, mi, 0) && 0 < p.points && p.points + next > max
    ensures Ready(Flush(p), src, max, ri, si, mi', next)
    ensures Emitted(Flush(p)) == Emitted(p)
  {
    hide OpenBefore, Excerpt;
    OpenIsExcerpt(p.current, src, p.curRi, p.curSi, ri, si, mi);
    ChainSnoc(p.chunks, p.current, ExcerptOf(src), RowCount, max);
    ChunkSnoc(p.chunks, p.current);
    EmptyIsOpen(src, ri, si, mi');
    assert Flush(p).chunks[|p.chunks|] == p.current;
  }

  function Push(p: Packer, ri: nat, rm: ResourceMetrics, si: nat, sm: ScopeMetrics, piece: Metric): (r: Packer)
    requires p.curRi == ri ==> p.current.resources != []
    requires p.curRi == ri && p.curSi == si ==> p.current.resources[|p.current.resources| - 1].scopes != []
  {
    Packer(p.chunks, PushSlice(p.current, p.curRi, p.curSi, ri, rm, si, sm, piece),
           p.points + PointCount(piece), ri, si)
  }

  /** The shells the cursors claim are open are there. */
  predicate ShellsOpen(p: Packer, ri: nat, si: nat)
  {
    && (p.curRi == ri ==> p.current.resources != [])
    && (p.curRi == ri && p.curSi == si ==> p.current.resources[|p.current.resources| - 1].scopes != [])
  }

  /** One turn of the slice loop: the points [start, end) go to the open chunk,
      which is closed before if they do not fit. */
  function SliceTurn(p: Packer, start: nat, max: nat, ri: nat, rm: ResourceMetrics, si: nat, sm: ScopeMetrics, m: Metric)
    : (next: (Packer, nat))
    requires start <= PointCount(m) && ShellsOpen(p, ri, si)
    ensures next.1 == (if start + max < PointCount(m) then start + max else PointCount(m)) && ShellsOpen(next.0, ri, si)
  {
    var end := if start + max < PointCount(m) then start + max else PointCount(m);
    var room := if p.points + (end - start) > max && p.points > 0 then Flush(p) else p;
    (Push(room, ri, rm, si, sm, MetricSlice(m, start, end)), end)
  }

  /** The slice loop after k turns. */
  function SliceTurns(k: nat, p: Packer, start: nat, max: nat, ri: nat, rm: ResourceMetrics, si: nat, sm: ScopeMetrics, m: Metric)
    : (next: (Packer, nat))
    requires start <= PointCount(m) && ShellsOpen(p, ri, si)
    ensures next.1 <= PointCount(m) && ShellsOpen(next.0, ri, si)
  {
    if k == 0 then (p, start)
    else
      var before := SliceTurns(k - 1, p, start, max, ri, rm, si, sm, m);
      SliceTurn(before.0, before.1, max, ri, rm, si, sm, m)
  }

  /** The slice loop ends if and only if the cap is positive or the metric has no
      points: at a cap of zero no number of turns moves `start`. */
  lemma {:induction false} SliceLoopEndsIff(p: Packer, max: nat, ri: nat, rm: ResourceMetrics, si: nat, sm: ScopeMetrics, m: Metric)
    requires ShellsOpen(p, ri, si)
    ensures (exists k :: SliceTurns(k, p, 0, max, ri, rm, si, sm, m).1 == PointCount(m)) <==> max > 0 || PointCount(m) == 0
  {
    if max > 0 {
      TurnsAdvance(PointCount(m), p, max, ri, rm, si, sm, m);
    } else if PointCount(m) == 0 {
      assert SliceTurns(0, p, 0, max, ri, rm, si, sm, m).1 == 0;
    } else {
      forall k
        ensures SliceTurns(k, p, 0, max, ri, rm, si, sm, m).1 == 0
      {
        StuckAtZero(k, p, ri, rm, si, sm, m);
      }
    }
  }

  lemma {:induction false} StuckAtZero(k: nat, p: Packer, ri: nat, rm: ResourceMetrics, si: nat, sm: ScopeMetrics, m: Metric)
    requires ShellsOpen(p, ri, si)
    ensures SliceTurns(k, p, 0, 0, ri, rm, si, sm, m).1 == 0
  {
    hide SliceTurn, ShellsOpen, PushSlice;
    if k > 0 {
      StuckAtZero(k - 1, p, ri, rm, si, sm, m);
    }
  }

  lemma {:induction false} TurnsAdvance(k: nat, p: Packer, max: nat, ri: nat, rm: ResourceMetrics, si: nat, sm: ScopeMetrics, m: Metric)
    requires ShellsOpen(p, ri, si) && max > 0 && k <= PointCount(m)
    ensures SliceTurns(k, p, 0, max, ri, rm, si, sm, m).1 >= k
  {
    hide SliceTurn, ShellsOpen, PushSlice;
    if k > 0 {
      TurnsAdvance(k - 1, p, max, ri, rm, si, sm, m);
    }
  }

  lemma PushKeeps(cur: Request, src: Request, curRi: int, curSi: int, ri: nat, si: nat, mi: nat, piece: Metric)
    requires IsSliceOf(piece, src, ri, si, mi)
    requires OpenBefore(cur, src, curRi, curSi, ri, si, mi)
    ensures curRi == ri ==> cur.resources != []
    ensures curRi == ri && curSi == si ==> cur.resources[|cur.resources| - 1].scopes != []
    ensures var rm := src.resources[ri];
            var out := PushSlice(cur, curRi, curSi, ri, rm, si, rm.scopes[si], piece);
            && out.resources != [] && OpenBefore(out, src, ri, si, ri, si, mi + 1)
            && Rows(out) == Rows(cur) + PointRows(AboveOf(rm, rm.scopes[si]), Bare(piece), Points(piece))
  {
    PushOpens(cur, src, curRi, curSi, ri, si, mi, piece);
    OpenMirrors(cur, src, curRi, curSi, ri, si, mi);
    PushRows(cur, curRi, curSi, ri, src.resources[ri], si, src.resources[ri].scopes[si], piece);
  }

  lemma PushReady(p: Packer, src: Request, max: nat, ri: nat, si: nat, mi: nat, piece: Metric)
    requires IsSliceOf(piece, src, ri, si, mi) && PointCount(piece) > 0
    requires Ready(p, src, max, ri, si, mi, PointCount(piece)) && p.points + PointCount(piece) <= max
    ensures p.curRi == ri ==> p.current.resources != []
    ensures p.curRi == ri && p.curSi == si ==> p.current.resources[|p.current.resources| - 1].scopes != []
    ensures Ready(Push(p, ri, src.resources[ri], si, src.resources[ri].scopes[si], piece), src, max, ri, si, mi + 1, 0)
  {
    hide OpenBefore, Closed, PushSlice, PointRows, IsSliceOf, Rows;
    PushKeeps(p.current, src, p.curRi, p.curSi, ri, si, mi, piece);
  }

  lemma PushEmits(p: Packer, src: Request, max: nat, ri: nat, si: nat, mi: nat, next: nat, piece: Metric)
    requires IsSliceOf(piece, src, ri, si, mi)
    requires Ready(p, src, max, ri, si, mi, next)
    ensures p.curRi == ri ==> p.current.resources != []
    ensures p.curRi == ri && p.curSi == si ==> p.current.resources[|p.current.resources| - 1].scopes != []
    ensures var rm := src.resources[ri];
            Emitted(Push(p, ri, rm, si, rm.scopes[si], piece))
            == Emitted(p) + PointRows(AboveOf(rm, rm.scopes[si]), Bare(piece), Points(piece))
  {
    hide OpenBefore, Closed, PushSlice, AllRows, PointRows, IsSliceOf;
    PushKeeps(p.current, src, p.curRi, p.curSi, ri, si, mi, piece);
  }

  lemma SlicePoints(above: Above, bare: Metric, ps: seq<Content>, start: nat, end: nat)
    requires start <= end <= |ps|
    ensures PointRows(above, bare, ps[..start]) + PointRows(above, bare, ps[start..end])
         == PointRows(above, bare, ps[..end])
  {
  }

  // ----- The number of chunks -----------------------------------------------------------

  /** Capped chunks whose neighbours exceed the cap: the count bounds the total. */
  lemma {:induction false} TotalBetween(chunks: seq<Request>, max: nat)
    requires forall k :: 0 <= k < |chunks| ==> 0 < |Rows(chunks[k])| <= max
    requires forall k :: 0 < k < |chunks| ==> |Rows(chunks[k - 1])| + |Rows(chunks[k])| > max
    ensures Between(|AllRows(chunks)|, |chunks|, max)
  {
    hide Rows, Between;
    BetweenSmall(max);
    if |chunks| >= 2 {
      var n := |chunks|;
      TotalBetween(chunks[..n - 2], max);
      assert chunks[..n - 1][..n - 2] == chunks[..n - 2];
      BetweenStep(|AllRows(chunks[..n - 2])|, n - 2, |Rows(chunks[n - 2])|, |Rows(chunks[n - 1])|, max);
    } else if |chunks| == 1 {
      assert chunks[..0] == [];
      BetweenOne(|Rows(chunks[0])|, max);
    }
  }

  predicate Between(total: nat, n: nat, max: nat)
  {
    total <= n * max && total >= (n / 2) * (max + 1) + n % 2
  }

  lemma BetweenSmall(max: nat)
    ensures Between(0, 0, max)
  {
  }

  lemma BetweenOne(total: nat, max: nat)
    requires 0 < total <= max
    ensures Between(total, 1, max)
  {
  }

  lemma BetweenStep(total: nat, n: nat, a: nat, b: nat, max: nat)
    requires Between(total, n, max) && a <= max && b <= max && a + b > max
    ensures Between(total + a + b, n + 2, max)
  {
    assert (n + 2) * max == n * max + max + max by { MulDistrib(max, n, 2); }
    assert (n + 2) / 2 == n / 2 + 1;
    MulDistrib(max + 1, n / 2, 1);
  }

  lemma CountFromTotal(n: nat, total: nat, max: nat)
    requires max > 0 && total > 0
    requires Between(total, n, max)
    ensures DivCeil(total, max) <= n <= 2 * DivCeil(total, max) - 1
  {
    var c := DivCeil(total, max);
    DivModDef(total + max - 1, max);
    assert total <= c * max && (c - 1) * max < total by { MulDistrib(max, c, 1); }
    if n < c { MulMonotone(n, c - 1, max); }
    if n > 2 * c - 1 {
      MulMonotone(c, n / 2, max + 1);
      MulDistrib(c, max, 1);
      assert false;
    }
  }

  // ----- split_request -------------------------------------------------------------------

  function ScopeCount(sm: ScopeMetrics): (r: nat)
  {
    SumOf(sm.metrics, PointCount)
  }

  function ResourceCount(rm: ResourceMetrics): (r: nat)
  {
    SumOf(rm.scopes, ScopeCount)
  }

  /** The points of an export, summed over all its metrics. */
  function Total(req: Request): (r: nat)
  {
    SumOf(req.resources, ResourceCount)
  }

  lemma {:induction false} MetricTotalIsRows(above: Above, ms: seq<Metric>)
    ensures SumOf(ms, PointCount) == |MetricRows(above, ms)|
  {
    if ms != [] {
      MetricTotalIsRows(above, ms[..|ms| - 1]);
      SumLast(ms, PointCount);
    }
  }

  lemma {:induction false} ScopeTotalIsRows(resource: Content, url: Content, sms: seq<ScopeMetrics>)
    ensures SumOf(sms, ScopeCount) == |ScopeRows(resource, url, sms)|
  {
    if sms != [] {
      var sm := sms[|sms| - 1];
      ScopeTotalIsRows(resource, url, sms[..|sms| - 1]);
      MetricTotalIsRows(Above(resource, url, sm.scope, sm.schemaUrl), sm.metrics);
      SumLast(sms, ScopeCount);
    }
  }

  lemma {:induction false} ResourceTotalIsRows(rms: seq<ResourceMetrics>)
    ensures SumOf(rms, ResourceCount) == |ResourceRows(rms)|
  {
    if rms != [] {
      var rm := rms[|rms| - 1];
      ResourceTotalIsRows(rms[..|rms| - 1]);
      ScopeTotalIsRows(rm.resource, rm.schemaUrl, rm.scopes);
      SumLast(rms, ResourceCount);
    }
  }

  /** The summed point counts are the number of rows. */
  lemma TotalIsRows(req: Request)
    ensures Total(req) == |Rows(req)|
  {
    ResourceTotalIsRows(req.resources);
  }

  lemma {:induction false} AllTotalIsRows(chunks: seq<Request>)
    ensures SumOf(chunks, Total) == |AllRows(chunks)|
  {
    if chunks != [] {
      AllTotalIsRows(chunks[..|chunks| - 1]);
      TotalIsRows(chunks[|chunks| - 1]);
      SumLast(chunks, Total);
    }
  }

  /** What a split promises. */
  ghost predicate SplitOf(chunks: seq<Request>, req: Request, max: nat)
    requires max > 0 || |Rows(req)| == 0
  {
    && AllRows(chunks) == Rows(req)
    && (|Rows(req)| <= max ==> chunks == [req])
    && (forall k :: 0 <= k < |chunks| ==> |Rows(chunks[k])| <= max)
    && (|Rows(req)| > max ==>
          && (forall k :: 0 <= k < |chunks| ==> Excerpt(chunks[k], req) && |Rows(chunks[k])| > 0)
          && (forall k :: 0 < k < |chunks| ==> |Rows(chunks[k - 1])| + |Rows(chunks[k])| > max))
    && (|Rows(req)| > 0 ==> DivCeil(|Rows(req)|, max) <= |chunks| <= 2 * DivCeil(|Rows(req)|, max) - 1)
  }

  lemma UntouchedSplit(req: Request, max: nat)
    requires (max > 0 || |Rows(req)| == 0) && |Rows(req)| <= max
    ensures SplitOf([req], req, max)
  {
    ChunkSnoc([], req);
    assert [] + [req] == [req];
    if |Rows(req)| > 0 {
      DivModUnique(|Rows(req)| + max - 1, max, 1, |Rows(req)| - 1);
    }
  }

  lemma FinishedSplit(chunks: seq<Request>, req: Request, max: nat)
    requires max > 0 && |Rows(req)| > max && AllRows(chunks) == Rows(req) && Closed(chunks, req, max)
    ensures SplitOf(chunks, req, max)
  {
    hide Excerpt, Rows, Between, DivCeil;
    ClosedSizes(chunks, req, max);
    TotalBetween(chunks, max);
    CountFromTotal(|chunks|, |Rows(req)|, max);
  }

  lemma ClosedSizes(chunks: seq<Request>, src: Request, max: nat)
    requires Closed(chunks, src, max)
    ensures forall k :: 0 <= k < |chunks| ==> Excerpt(chunks[k], src) && 0 < |Rows(chunks[k])| <= max
    ensures forall k :: 0 < k < |chunks| ==> |Rows(chunks[k - 1])| + |Rows(chunks[k])| > max
  {
    hide Excerpt;
    forall k | 0 <= k < |chunks|
      ensures Excerpt(chunks[k], src) && 0 < |Rows(chunks[k])| <= max
    {
      assert ExcerptOf(src)(chunks[k]) && RowCount(chunks[k]) == |Rows(chunks[k])|;
    }
    forall k | 0 < k < |chunks|
      ensures |Rows(chunks[k - 1])| + |Rows(chunks[k])| > max
    {
      assert RowCount(chunks[k - 1]) + RowCount(chunks[k]) > max;
    }
  }

  /** The cap and the total, in points. */
  lemma SplitInPoints(chunks: seq<Request>, req: Request, max: nat)
    requires (max > 0 || |Rows(req)| == 0) && SplitOf(chunks, req, max)
    ensures forall j :: 0 <= j < |chunks| ==> Total(chunks[j]) <= max
    ensures SumOf(chunks, Total) == Total(req)
  {
    hide Rows, Total;
    AllTotalIsRows(chunks);
    TotalIsRows(req);
    forall j | 0 <= j < |chunks|
      ensures Total(chunks[j]) <= max
    {
      TotalIsRows(chunks[j]);
    }
  }

  /** Closing the last chunk, if it holds anything. */
  lemma FinishReady(p: Packer, req: Request, max: nat, ri: nat)
    requires max > 0 && |Rows(req)| > max
    requires Ready(p, req, max, ri, 0, 0, 0) && Emitted(p) == Rows(req)
    ensures SplitOf(if p.points > 0 then p.chunks + [p.current] else p.chunks, req, max)
  {
    hide OpenBefore, Closed, Excerpt;
    if p.points > 0 {
      FlushReady(p, req, max, ri, 0, 0, 0, max);
      EmptyIsOpen(req, ri, 0, 0);
      FinishedSplit(p.chunks + [p.current], req, max);
    } else {
      FinishedSplit(p.chunks, req, max);
    }
  }

  /** Split an export into chunks of at most `max` points, keeping every row
      under its own resource and scope. */
  method SplitRequest(req: Request, max: nat) returns (chunks: seq<Request>)
    requires max > 0 || Total(req) == 0
    ensures |Rows(req)| == Total(req)
    ensures SplitOf(chunks, req, max)
    ensures Total(req) <= max ==> chunks == [req]
    ensures (forall j :: 0 <= j < |chunks| ==> Total(chunks[j]) <= max) && SumOf(chunks, Total) == Total(req)
  {
    hide Ready, Emitted, SplitOf, ScopeRows, Total;
    TotalIsRows(req);
    if Total(req) <= max {
      UntouchedSplit(req, max);
      SplitInPoints([req], req, max);
      return [req];
    }

    var p := Packer([], Request([]), 0, NONE, NONE);
    StartReady(req, max);
    var ri := 0;
    while ri < |req.resources|
      invariant 0 <= ri <= |req.resources|
      invariant Ready(p, req, max, ri, 0, 0, 0)
      invariant Emitted(p) == ResourceRows(req.resources[..ri])
    {
      var rm := req.resources[ri];
      p := SplitResource(p, req, max, ri);
      NextResource(req.resources, ri);
      ReadyLater(p, req, max, ri, |rm.scopes|, 0, ri + 1, 0, 0);
      ri := ri + 1;
    }
    assert req.resources[..ri] == req.resources;
    FinishReady(p, req, max, ri);
    chunks := p.chunks;
    if p.points > 0 {
      chunks := chunks + [p.current];
    }
    SplitInPoints(chunks, req, max);
  }

  lemma StartReady(req: Request, max: nat)
    ensures Ready(Packer([], Request([]), 0, NONE, NONE), req, max, 0, 0, 0, 0)
    ensures Emitted(Packer([], Request([]), 0, NONE, NONE)) == []
  {
  }

  lemma NextScope(rm: ResourceMetrics, si: nat)
    requires si < |rm.scopes|
    ensures ScopeRows(rm.resource, rm.schemaUrl, rm.scopes[..si + 1])
         == ScopeRows(rm.resource, rm.schemaUrl, rm.scopes[..si])
            + MetricRows(AboveOf(rm, rm.scopes[si]), rm.scopes[si].metrics)
  {
    ScopeSnoc(rm.resource, rm.schemaUrl, rm.scopes[..si], rm.scopes[si]);
    assert rm.scopes[..si + 1] == rm.scopes[..si] + [rm.scopes[si]];
  }

  lemma NextMetric(above: Above, ms: seq<Metric>, mi: nat)
    requires mi < |ms|
    ensures MetricRows(above, ms[..mi + 1]) == MetricRows(above, ms[..mi]) + PointRows(above, Bare(ms[mi]), Points(ms[mi]))
  {
    MetricSnoc(above, ms[..mi], ms[mi]);
    assert ms[..mi + 1] == ms[..mi] + [ms[mi]];
  }

  lemma NextResource(rms: seq<ResourceMetrics>, ri: nat)
    requires ri < |rms|
    ensures ResourceRows(rms[..ri + 1])
         == ResourceRows(rms[..ri]) + ScopeRows(rms[ri].resource, rms[ri].schemaUrl, rms[ri].scopes)
  {
    ResourceSnoc(rms[..ri], rms[ri]);
    assert rms[..ri + 1] == rms[..ri] + [rms[ri]];
  }

  /** The loop over the scopes of one resource. */
  method SplitResource(p0: Packer, req: Request, max: nat, ri: nat) returns (p: Packer)
    requires max > 0 && ri < |req.resources|
    requires Ready(p0, req, max, ri, 0, 0, 0)
    ensures var rm := req.resources[ri];
            && Ready(p, req, max, ri, |rm.scopes|, 0, 0)
            && Emitted(p) == Emitted(p0) + ScopeRows(rm.resource, rm.schemaUrl, rm.scopes)
  {
    hide Ready, Emitted, MetricRows, AboveOf;
    var rm := req.resources[ri];
    p := p0;
    var si := 0;
    while si < |rm.scopes|
      invariant 0 <= si <= |rm.scopes|
      invariant Ready(p, req, max, ri, si, 0, 0)
      invariant Emitted(p) == Emitted(p0) + ScopeRows(rm.resource, rm.schemaUrl, rm.scopes[..si])
    {
      p := SplitScope(p, req, max, ri, si);
      NextScope(rm, si);
      ReadyLater(p, req, max, ri, si, |rm.scopes[si].metrics|, ri, si + 1, 0);
      si := si + 1;
    }
    assert rm.scopes[..si] == rm.scopes;
  }

  /** The loop over the metrics of one scope. */
  method SplitScope(p0: Packer, req: Request, max: nat, ri: nat, si: nat) returns (p: Packer)
    requires max > 0 && ri < |req.resources| && si < |req.resources[ri].scopes|
    requires Ready(p0, req, max, ri, si, 0, 0)
    ensures var rm := req.resources[ri];
            var sm := rm.scopes[si];
            && Ready(p, req, max, ri, si, |sm.metrics|, 0)
            && Emitted(p) == Emitted(p0) + MetricRows(AboveOf(rm, sm), sm.metrics)
  {
    hide Ready, Emitted, PointRows, AboveOf, Bare, Points;
    var rm := req.resources[ri];
    var sm := rm.scopes[si];
    p := p0;
    var mi := 0;
    while mi < |sm.metrics|
      invariant 0 <= mi <= |sm.metrics|
      invariant Ready(p, req, max, ri, si, mi, 0)
      invariant Emitted(p) == Emitted(p0) + MetricRows(AboveOf(rm, sm), sm.metrics[..mi])
    {
      p := SplitMetric(p, req, max, ri, si, mi);
      NextMetric(AboveOf(rm, sm), sm.metrics, mi);
      mi := mi + 1;
    }
    assert sm.metrics[..mi] == sm.metrics;
  }

  /** The slice loop of one metric. */
  method SplitMetric(p0: Packer, req: Request, max: nat, ri: nat, si: nat, mi: nat) returns (p: Packer)
    requires max > 0 && ri < |req.resources| && si < |req.resources[ri].scopes|
    requires mi < |req.resources[ri].scopes[si].metrics|
    requires Ready(p0, req, max, ri, si, mi, 0)
    ensures var rm := req.resources[ri];
            var sm := rm.scopes[si];
            && Ready(p, req, max, ri, si, mi + 1, 0)
            && Emitted(p) == Emitted(p0) + PointRows(AboveOf(rm, sm), Bare(sm.metrics[mi]), Points(sm.metrics[mi]))
  {
    hide Ready, Emitted, IsSliceOf, PushSlice, PointRows;
    var rm := req.resources[ri];
    var sm := rm.scopes[si];
    var m := sm.metrics[mi];
    var n := PointCount(m);
    p := p0;
    if n == 0 {
      ReadyLater(p, req, max, ri, si, mi, ri, si, mi + 1);
      return;
    }
    var start := 0;
    while start < n
      invariant 0 <= start <= n
      invariant Ready(p, req, max, ri, si, if start == 0 then mi else mi + 1, 0)
      invariant 0 < start < n ==> p.points == max
      invariant Emitted(p) == Emitted(p0) + PointRows(AboveOf(rm, sm), Bare(m), Points(m)[..start])
    {
      OpenNow(p, req, max, ri, si, if start == 0 then mi else mi + 1);
      ghost var turn := SliceTurn(p, start, max, ri, rm, si, sm, m);
      var end := if start + max < n then start + max else n;
      var points := end - start;
      if p.points + points > max && p.points > 0 {
        FlushReady(p, req, max, ri, si, if start == 0 then mi else mi + 1, mi, points);
        p := Flush(p);
      } else {
        ReadyFor(p, req, max, ri, si, mi, points);
      }
      var piece := MetricSlice(m, start, end);
      SliceIsSliceOf(req, ri, si, mi, start, end);
      PushReady(p, req, max, ri, si, mi, piece);
      PushEmits(p, req, max, ri, si, mi, points, piece);
      SlicePoints(AboveOf(rm, sm), Bare(m), Points(m), start, end);
      p := Push(p, ri, rm, si, sm, piece);
      start := end;
      assert (p, start) == turn;
    }
    assert Points(m)[..n] == Points(m);
  }

  lemma OpenNow(p: Packer, src: Request, max: nat, ri: nat, si: nat, mi: nat)
    requires Ready(p, src, max, ri, si, mi, 0)
    ensures ShellsOpen(p, ri, si)
  {
    CursorsOpen(p.current, src, p.curRi, p.curSi, ri, si, mi);
  }

  lemma SliceIsSliceOf(src: Request, ri: nat, si: nat, mi: nat, start: nat, end: nat)
    requires ri < |src.resources| && si < |src.resources[ri].scopes|
    requires mi < |src.resources[ri].scopes[si].metrics|
    requires start < end <= PointCount(src.resources[ri].scopes[si].metrics[mi])
    ensures IsSliceOf(MetricSlice(src.resources[ri].scopes[si].metrics[mi], start, end), src, ri, si, mi)
  {
  }

  // ----- A cap of zero -----------------------------------------------------------------

  lemma {:induction false} PositiveTerm<T>(xs: seq<T>, size: T -> nat) returns (i: nat)
    requires SumOf(xs, size) > 0
    ensures i < |xs| && size(xs[i]) > 0
  {
    i := 0;
    if size(xs[0]) == 0 {
      i := PositiveTerm(xs[1..], size);
      i := i + 1;
    }
  }

  /** With a cap of zero every request that has points contains a metric whose
      slice loop never ends, whatever was packed before it. */
  lemma ZeroCapNeverEnds(req: Request) returns (ri: nat, si: nat, mi: nat)
    requires Total(req) > 0
    ensures ri < |req.resources| && si < |req.resources[ri].scopes| && mi < |req.resources[ri].scopes[si].metrics|
    ensures var rm := req.resources[ri];
            var m := rm.scopes[si].metrics[mi];
            forall p, k :: ShellsOpen(p, ri, si) ==> SliceTurns(k, p, 0, 0, ri, rm, si, rm.scopes[si], m).1 == 0 < PointCount(m)
  {
    ri := PositiveTerm(req.resources, ResourceCount);
    si := PositiveTerm(req.resources[ri].scopes, ScopeCount);
    mi := PositiveTerm(req.resources[ri].scopes[si].metrics, PointCount);
    var rm := req.resources[ri];
    var sm := rm.scopes[si];
    forall p, k | ShellsOpen(p, ri, si)
      ensures SliceTurns(k, p, 0, 0, ri, rm, si, sm, sm.metrics[mi]).1 == 0
    {
      StuckAtZero(k, p, ri, rm, si, sm, sm.metrics[mi]);
    }
  }

  // ----- Which shells survive ------------------------------------------------------------

  /** In a split chunk every resource, scope and metric carries points: shells
      and metrics of the source without points are dropped. */
  lemma ShellsCarryPoints(c: Request, src: Request, r: nat, s: nat, m: nat)
    requires Excerpt(c, src) && r < |c.resources|
    ensures c.resources[r].scopes != []
    ensures s < |c.resources[r].scopes| ==> c.resources[r].scopes[s].metrics != []
    ensures s < |c.resources[r].scopes| && m < |c.resources[r].scopes[s].metrics| ==>
              PointCount(c.resources[r].scopes[s].metrics[m]) > 0
  {
    var rs :| ExcerptAt(c, src, rs);
    var rm := src.resources[rs[r]];
    assert ResourceExcerpt(c.resources[r], rm);
    var ss :| ResourceExcerptAt(c.resources[r], rm, ss);
    if s < |c.resources[r].scopes| {
      assert ScopeExcerpt(c.resources[r].scopes[s], rm.scopes[ss[s]]);
      var ms :| ScopeExcerptAt(c.resources[r].scopes[s], rm.scopes[ss[s]], ms);
      if m < |ms| {
        assert MetricExcerpt(c.resources[r].scopes[s].metrics[m], rm.scopes[ss[s]].metrics[ms[m]]);
      }
    }
  }
}
