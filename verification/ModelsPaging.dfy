/** The published model catalog and the cursor paging over what a key may see of it.

    Publishing sorts by identifier and keeps the first model of each.  A query may name the model to
    go on behind, and a walk is a sequence of queries each of which names the last model of the page
    before it, going on only while there is more. */
module ModelsPaging {
  import opened Wrappers
  import opened Text

  datatype Provider = Anthropic | OpenAi

  datatype Model = Model(provider: Provider, id: string, displayName: string, createdAt: string)

  datatype Grant = Grant(provider: Provider, groupScope: set<string>, keyScope: set<string>)

  // ----- the catalog -----

  /** Put a model before the first one whose identifier is not smaller. */
  function Insert(m: Model, sorted: seq<Model>): seq<Model> {
    if sorted == [] || !Less(sorted[0].id, m.id) then [m] + sorted else [sorted[0]] + Insert(m, sorted[1..])
  }

  /** Stable sorting by identifier. */
  function SortById(ms: seq<Model>): seq<Model> {
    if ms == [] then [] else Insert(ms[0], SortById(ms[1..]))
  }

  /** Keep a model unless it has the identifier of the one kept before it. */
  function Keep(kept: seq<Model>, m: Model): seq<Model> {
    if kept != [] && kept[|kept| - 1].id == m.id then kept else kept + [m]
  }

  function Dedup(ms: seq<Model>): seq<Model> {
    if ms == [] then [] else Keep(Dedup(ms[..|ms| - 1]), ms[|ms| - 1])
  }

  function Catalog(ms: seq<Model>): seq<Model> {
    Dedup(SortById(ms))
  }

  ghost predicate Sorted(ms: seq<Model>) {
    forall i, j :: 0 <= i < j < |ms| ==> !Less(ms[j].id, ms[i].id)
  }

  ghost predicate StrictlySorted(ms: seq<Model>) {
    forall i, j :: 0 <= i < j < |ms| ==> Less(ms[i].id, ms[j].id)
  }

  ghost predicate DistinctIds(ms: seq<Model>) {
    forall i, j :: 0 <= i < j < |ms| ==> ms[i].id != ms[j].id
  }

  /** The models with one identifier, in order. */
  function WithId(ms: seq<Model>, id: string): seq<Model> {
    if ms == [] then [] else (if ms[0].id == id then [ms[0]] else []) + WithId(ms[1..], id)
  }

  lemma {:induction false} WithIdMembers(ms: seq<Model>, id: string)
    ensures forall m :: m in WithId(ms, id) <==> m in ms && m.id == id
  {
    if ms != [] {
      assert ms == [ms[0]] + ms[1..];
      WithIdMembers(ms[1..], id);
    }
  }

  lemma Regroup(a: seq<Model>, b: seq<Model>, c: seq<Model>)
    ensures a + (b + c) == a + b + c
  {
  }

  lemma {:induction false} WithIdConcat(a: seq<Model>, b: seq<Model>, id: string)
    ensures WithId(a + b, id) == WithId(a, id) + WithId(b, id)
  {
    if a == [] {
      assert a + b == b;
    } else {
      assert (a + b)[0] == a[0] && (a + b)[1..] == a[1..] + b;
      WithIdConcat(a[1..], b, id);
      Regroup(if a[0].id == id then [a[0]] else [], WithId(a[1..], id), WithId(b, id));
    }
  }

  lemma {:induction false} InsertKeepsGroup(m: Model, sorted: seq<Model>, id: string)
    ensures WithId(Insert(m, sorted), id) == (if m.id == id then [m] else []) + WithId(sorted, id)
  {
    if sorted == [] || !Less(sorted[0].id, m.id) {
      WithIdConcat([m], sorted, id);
    } else {
      InsertKeepsGroup(m, sorted[1..], id);
      WithIdConcat([sorted[0]], Insert(m, sorted[1..]), id);
      LessTotal(sorted[0].id, m.id);
    }
  }

  lemma {:induction false} InsertMembers(m: Model, sorted: seq<Model>)
    ensures forall x :: x in Insert(m, sorted) <==> x == m || x in sorted
  {
    if sorted != [] && Less(sorted[0].id, m.id) { InsertMembers(m, sorted[1..]); }
  }

  lemma {:induction false} InsertSorted(m: Model, sorted: seq<Model>)
    requires Sorted(sorted)
    ensures Sorted(Insert(m, sorted))
  {
    if sorted == [] || !Less(sorted[0].id, m.id) {
      forall i | 0 <= i < |sorted| ensures !Less(sorted[i].id, m.id) {
        if Less(sorted[i].id, m.id) && i > 0 { NotLessChain(m.id, sorted[0].id, sorted[i].id); }
      }
    } else {
      InsertSorted(m, sorted[1..]);
      InsertMembers(m, sorted[1..]);
      var rest := Insert(m, sorted[1..]);
      LessTotal(sorted[0].id, m.id);
      forall j | 0 <= j < |rest| ensures !Less(rest[j].id, sorted[0].id) {
        assert rest[j] in rest;
        if rest[j] != m {
          var k :| 0 <= k < |sorted[1..]| && sorted[1..][k] == rest[j];
          assert sorted[k + 1] == rest[j];
        }
      }
    }
  }

  lemma {:induction false} NotLessChain(a: string, b: string, c: string)
    requires !Less(b, a) && !Less(c, b)
    ensures !Less(c, a)
  {
    LessTotal(a, b);
    LessTotal(b, c);
    if Less(a, b) && Less(b, c) { LessTransitive(a, b, c); }
    LessTotal(a, c);
  }

  lemma {:induction false} SortIsStable(ms: seq<Model>, id: string)
    ensures Sorted(SortById(ms)) && WithId(SortById(ms), id) == WithId(ms, id)
  {
    if ms != [] {
      SortIsStable(ms[1..], id);
      InsertSorted(ms[0], SortById(ms[1..]));
      InsertKeepsGroup(ms[0], SortById(ms[1..]), id);
    }
  }

  function Firsts(group: seq<Model>): seq<Model> {
    if group == [] then [] else [group[0]]
  }

  lemma {:induction false} WithIdLast(init: seq<Model>, last: Model, id: string)
    ensures WithId(init + [last], id) == WithId(init, id) + if last.id == id then [last] else []
  {
    WithIdConcat(init, [last], id);
    assert WithId([last], id) == (if last.id == id then [last] else []) + WithId([last][1..], id);
  }

  /** One more model of a sorted list. */
  lemma {:induction false} KeepsFirst(init: seq<Model>, kept: seq<Model>, last: Model, id: string)
    requires Sorted(init) && init != [] && !Less(last.id, init[|init| - 1].id)
    requires StrictlySorted(kept) && kept != [] && kept[|kept| - 1].id == init[|init| - 1].id
    requires WithId(kept, id) == Firsts(WithId(init, id))
    ensures StrictlySorted(Keep(kept, last)) && Keep(kept, last)[|Keep(kept, last)| - 1].id == last.id
    ensures WithId(Keep(kept, last), id) == Firsts(WithId(init + [last], id))
  {
    WithIdLast(init, last, id);
    WithIdLast(kept, last, id);
    var k := kept[|kept| - 1];
    if k.id == last.id {
      WithIdMembers(kept, last.id);
    } else {
      LessTotal(k.id, last.id);
      AppendStrict(kept, last);
      NoneAtEnd(init, last);
    }
  }

  lemma {:induction false} DedupOne(m: Model, id: string)
    ensures Dedup([m]) == [m] && WithId([m], id) == Firsts(WithId([m], id))
  {
    assert Dedup([m][..0]) == [];
    WithIdLast([], m, id);
    assert [] + [m] == [m];
  }

  /** Of a sorted list, deduplication keeps the first of every group, in strictly rising order. */
  lemma {:induction false} DedupKeepsFirsts(ms: seq<Model>, id: string)
    requires Sorted(ms)
    ensures StrictlySorted(Dedup(ms))
    ensures WithId(Dedup(ms), id) == Firsts(WithId(ms, id))
    ensures ms != [] ==> Dedup(ms) != [] && Dedup(ms)[|Dedup(ms)| - 1].id == ms[|ms| - 1].id
  {
    if ms != [] {
      var init, last := ms[..|ms| - 1], ms[|ms| - 1];
      assert ms == init + [last];
      if init == [] {
        assert ms == [last];
        DedupOne(last, id);
      } else {
        DedupKeepsFirsts(init, id);
        KeepsFirst(init, Dedup(init), last, id);
      }
    }
  }

  lemma AppendStrict(d: seq<Model>, last: Model)
    requires StrictlySorted(d) && d != [] && Less(d[|d| - 1].id, last.id)
    ensures StrictlySorted(d + [last])
  {
    forall i | 0 <= i < |d| - 1 ensures Less(d[i].id, last.id) {
      LessTransitive(d[i].id, d[|d| - 1].id, last.id);
    }
  }

  lemma FirstIsIn(ms: seq<Model>)
    ensures ms != [] ==> ms[0] in ms
  {
  }

  /** If the last identifier of a sorted list is smaller, no model in it has the larger one. */
  lemma {:induction false} NoneAtEnd(init: seq<Model>, last: Model)
    requires init != [] && Sorted(init) && Less(init[|init| - 1].id, last.id)
    ensures WithId(init, last.id) == []
  {
    forall m | m in init ensures m.id != last.id {
      var i :| 0 <= i < |init| && init[i] == m;
      LessTotal(init[|init| - 1].id, last.id);
    }
    WithIdMembers(init, last.id);
    FirstIsIn(WithId(init, last.id));
  }

  /** The catalog rises strictly by identifier and holds, of all models published with one
      identifier, exactly the one listed first. */
  lemma {:induction false} CatalogIs(ms: seq<Model>, id: string)
    ensures StrictlySorted(Catalog(ms))
    ensures WithId(Catalog(ms), id) == Firsts(WithId(ms, id))
  {
    SortIsStable(ms, id);
    DedupKeepsFirsts(SortById(ms), id);
  }

  lemma {:induction false} InsertBehind(m: Model, sorted: seq<Model>, i: nat)
    requires i <= |sorted| && forall k :: 0 <= k < i ==> Less(sorted[k].id, m.id)
    requires i < |sorted| ==> !Less(sorted[i].id, m.id)
    ensures Insert(m, sorted) == sorted[..i] + [m] + sorted[i..]
  {
    if i > 0 {
      var rest := sorted[1..];
      assert forall k :: 0 <= k < i - 1 ==> rest[k] == sorted[k + 1];
      InsertBehind(m, rest, i - 1);
      assert sorted[..i] == [sorted[0]] + rest[..i - 1] && sorted[i..] == rest[i - 1..];
      PutBehind([sorted[0]], rest[..i - 1], m, sorted[i..]);
    }
  }

  lemma PutBehind(a: seq<Model>, b: seq<Model>, m: Model, c: seq<Model>)
    ensures a + b + [m] + c == a + (b + [m] + c)
  {
  }

  /** Stable sorting, from the last model to the first. */
  method SortStably(ms: seq<Model>) returns (sorted: seq<Model>)
    ensures sorted == SortById(ms)
  {
    sorted := [];
    for n := |ms| downto 0
      invariant sorted == SortById(ms[n..])
    {
      var i := 0;
      while i < |sorted| && Less(sorted[i].id, ms[n].id)
        invariant i <= |sorted| && forall k :: 0 <= k < i ==> Less(sorted[k].id, ms[n].id)
      {
        i := i + 1;
      }
      InsertBehind(ms[n], sorted, i);
      assert ms[n..][1..] == ms[n + 1..];
      sorted := sorted[..i] + [ms[n]] + sorted[i..];
    }
    assert ms[0..] == ms;
  }

  /** Drop every model with the identifier of the one kept before it. */
  method DropRepeated(ms: seq<Model>) returns (kept: seq<Model>)
    ensures kept == Dedup(ms)
  {
    kept := [];
    for i := 0 to |ms|
      invariant kept == Dedup(ms[..i])
    {
      assert ms[..i + 1][..i] == ms[..i];
      if kept == [] || kept[|kept| - 1].id != ms[i].id {
        kept := kept + [ms[i]];
      }
    }
    assert ms[..|ms|] == ms;
  }

  class StaticModelCatalog {
    const models: seq<Model>

    constructor (models: seq<Model>)
      ensures StrictlySorted(this.models) && this.models == Catalog(models)
      ensures forall id :: WithId(this.models, id) == Firsts(WithId(models, id))
    {
      var sorted := SortStably(models);
      var kept := DropRepeated(sorted);
      forall id ensures StrictlySorted(kept) && WithId(kept, id) == Firsts(WithId(models, id)) { CatalogIs(models, id); }
      assert StrictlySorted(kept) by { CatalogIs(models, ""); }
      this.models := kept;
    }
  }

  // ----- what a key sees -----

  predicate InScope(id: string, scope: set<string>) {
    scope == {} || id in scope
  }

  predicate Sees(grant: Grant, m: Model) {
    m.provider == grant.provider && InScope(m.id, grant.groupScope) && InScope(m.id, grant.keyScope)
  }

  function Visible(catalog: seq<Model>, grant: Grant): (r: seq<Model>)
    ensures forall m :: m in r <==> m in catalog && Sees(grant, m)
  {
    if catalog == [] then [] else (if Sees(grant, catalog[0]) then [catalog[0]] else []) + Visible(catalog[1..], grant)
  }

  lemma {:induction false} VisibleStaysSorted(catalog: seq<Model>, grant: Grant)
    requires StrictlySorted(catalog)
    ensures StrictlySorted(Visible(catalog, grant))
  {
    if catalog != [] {
      VisibleStaysSorted(catalog[1..], grant);
      var rest := Visible(catalog[1..], grant);
      forall j | 0 <= j < |rest| ensures Less(catalog[0].id, rest[j].id) {
        assert rest[j] in rest;
        var k :| 0 <= k < |catalog[1..]| && catalog[1..][k] == rest[j];
        assert catalog[k + 1] == rest[j];
      }
    }
  }

  lemma StrictIsDistinct(ms: seq<Model>)
    requires StrictlySorted(ms)
    ensures DistinctIds(ms)
  {
    forall i, j | 0 <= i < j < |ms| ensures ms[i].id != ms[j].id { LessTotal(ms[i].id, ms[j].id); }
  }

  /** Because duplicates go before the provider is looked at, a model is hidden exactly when a grant
      does not cover it or another model with its identifier was published before it. */
  lemma {:induction false} SeenUnlessShadowed(ms: seq<Model>, grant: Grant, m: Model)
    requires m in ms
    ensures m in Visible(Catalog(ms), grant) <==> Sees(grant, m) && Firsts(WithId(ms, m.id)) == [m]
    ensures Sees(grant, m) <==>
              && m.provider == grant.provider
              && (grant.groupScope == {} || m.id in grant.groupScope) && (grant.keyScope == {} || m.id in grant.keyScope)
  {
    CatalogIs(ms, m.id);
    WithIdMembers(ms, m.id);
    WithIdMembers(Catalog(ms), m.id);
    assert m in Catalog(ms) <==> m in WithId(Catalog(ms), m.id);
  }

  /** Another provider's model may do so. */
  lemma ShadowedAcrossProviders()
    ensures var a, b := Model(Anthropic, "m", "", ""), Model(OpenAi, "m", "", "");
            Sees(Grant(OpenAi, {}, {}), b) && b !in Visible(Catalog([a, b]), Grant(OpenAi, {}, {}))
  {
    var a, b := Model(Anthropic, "m", "", ""), Model(OpenAi, "m", "", "");
    assert b in [a, b];
    assert Firsts(WithId([a, b], "m"))[0] == a;
    SeenUnlessShadowed([a, b], Grant(OpenAi, {}, {}), b);
  }

  // ----- one page -----

  datatype Answer =
    | Page(data: seq<Model>, hasMore: bool, firstId: Option<string>, lastId: Option<string>)
    | InvalidBody

  /** Position of the first model with the identifier, or the length. */
  function Position(ms: seq<Model>, id: string): (i: nat)
    ensures i <= |ms| && (i < |ms| ==> ms[i].id == id) && forall j :: 0 <= j < i ==> ms[j].id != id
  {
    if ms == [] then 0 else if ms[0].id == id then 0 else
      1 + Position(ms[1..], id)
  }

  function PageFrom(visible: seq<Model>, start: nat, limit: nat): Answer
    requires start <= |visible|
  {
    var end := if start + limit < |visible| then start + limit else |visible|;
    var data := visible[start..end];
    Page(data, end < |visible|,
         if data == [] then None else Some(data[0].id), if data == [] then None else Some(data[|data| - 1].id))
  }

  /** Answer a query: at most `limit` models, 20 unless given, behind the one named. */
  function Ask(visible: seq<Model>, limit: Option<nat>, afterId: Option<string>): Answer {
    if limit.Some? && !(1 <= limit.value <= 100) then InvalidBody else
      var n := if limit.Some? then limit.value else 20;
      match afterId
      case None => PageFrom(visible, 0, n)
      case Some(id) =>
        if Position(visible, id) == |visible| then InvalidBody else PageFrom(visible, Position(visible, id) + 1, n)
  }

  /** The models from `start` to `end`, and how the answer describes them. */
  predicate Shows(answer: Answer, visible: seq<Model>, start: nat, end: nat) {
    && answer.Page? && start <= end <= |visible| && answer.data == visible[start..end]
    && (answer.hasMore <==> end < |visible|)
    && answer.firstId == (if start < end then Some(visible[start].id) else None)
    && answer.lastId == (if start < end then Some(visible[end - 1].id) else None)
  }

  /** A query is refused exactly for a limit outside 1 to 100 or a name that is not visible.  Otherwise
      its page starts at the first model, or behind the one named, and ends after the limit, which is
      20 unless given, or with the list. */
  lemma AskAnswers(visible: seq<Model>, limit: Option<nat>, afterId: Option<string>, start: nat)
    requires DistinctIds(visible)
    ensures Ask(visible, limit, afterId) == InvalidBody
            <==> || (limit.Some? && (limit.value < 1 || limit.value > 100))
                 || (afterId.Some? && forall m :: m in visible ==> m.id != afterId.value)
    ensures Ask(visible, limit, afterId) != InvalidBody && StartsAt(visible, afterId, start) ==>
              var n := if limit.Some? then limit.value else 20;
              Shows(Ask(visible, limit, afterId), visible, start, if start + n < |visible| then start + n else |visible|)
  {
    if afterId.Some? {
      var i := Position(visible, afterId.value);
      if i < |visible| { assert visible[i] in visible; }
      if StartsAt(visible, afterId, start) { OnePlace(visible, i, start - 1); }
    }
  }

  lemma OnePlace(visible: seq<Model>, i: nat, j: nat)
    requires DistinctIds(visible) && i < |visible| && j < |visible| && visible[i].id == visible[j].id
    ensures i == j
  {
  }

  /** Where the page of a query starts. */
  predicate StartsAt(visible: seq<Model>, afterId: Option<string>, start: nat) {
    match afterId
    case None => start == 0
    case Some(id) => 0 < start <= |visible| && visible[start - 1].id == id
  }

  // ----- walking -----

  function Limit(limit: Option<nat>): nat { if limit.Some? then limit.value else 20 }

  /** A client's walk: it asks for the start, and while there is more, behind the last model it got. */
  ghost predicate Walk(visible: seq<Model>, limits: seq<Option<nat>>, pages: seq<Answer>) {
    && |limits| == |pages| > 0
    && (forall k :: 0 <= k < |limits| ==> 1 <= Limit(limits[k]) <= 100)
    && pages[0] == Ask(visible, limits[0], None)
    && forall k :: 0 <= k < |pages| - 1 ==> Follows(visible, limits[k + 1], pages[k], pages[k + 1])
  }

  predicate Follows(visible: seq<Model>, limit: Option<nat>, page: Answer, next: Answer) {
    page.Page? && page.hasMore && next == Ask(visible, limit, page.lastId)
  }

  function Sum(limits: seq<Option<nat>>): nat {
    if limits == [] then 0 else Sum(limits[..|limits| - 1]) + Limit(limits[|limits| - 1])
  }

  function Collected(pages: seq<Answer>): seq<Model> {
    if pages == [] then [] else
      var last := pages[|pages| - 1];
      Collected(pages[..|pages| - 1]) + if last.Page? then last.data else []
  }

  /** How far the limits reach into the list. */
  function Reached(visible: seq<Model>, limits: seq<Option<nat>>): (end: nat)
    ensures end <= |visible|
  {
    if Sum(limits) < |visible| then Sum(limits) else |visible|
  }

  /** The page, with what it has to say about its end. */
  function PageUpTo(visible: seq<Model>, page: Answer, end: nat): Answer
    requires end <= |visible|
  {
    if page.Page? then
      page.(hasMore := end < |visible|, lastId := if end == 0 then None else Some(visible[end - 1].id))
    else Page([], false, None, None)
  }

  lemma {:induction false} PositionIs(ms: seq<Model>, i: nat)
    requires DistinctIds(ms) && i < |ms|
    ensures Position(ms, ms[i].id) == i
  {
  }

  lemma NextPage(visible: seq<Model>, start: nat, limit: Option<nat>, page: Answer, next: Answer)
    requires DistinctIds(visible) && 0 < start < |visible| && 1 <= Limit(limit) <= 100
    requires Follows(visible, limit, page, next) && page.lastId == Some(visible[start - 1].id)
    ensures next == PageFrom(visible, start, Limit(limit))
  {
    PositionIs(visible, start - 1);
  }

  lemma PageReaches(visible: seq<Model>, start: nat, n: nat)
    requires n >= 1 && start <= |visible| && (visible != [] ==> start < |visible|)
    ensures var end := if start + n < |visible| then start + n else |visible|;
            var page := PageFrom(visible, start, n);
            page.data == visible[start..end] && page == PageUpTo(visible, page, end)
  {
  }

  /** What has been collected is the start of the visible list, as far as the limits reach; there
      is more exactly while they fall short of its end. */
  lemma {:induction false} WalkCollects(visible: seq<Model>, limits: seq<Option<nat>>, pages: seq<Answer>)
    requires DistinctIds(visible) && Walk(visible, limits, pages)
    ensures pages[|pages| - 1].Page?
    ensures pages[|pages| - 1] == PageUpTo(visible, pages[|pages| - 1], Reached(visible, limits))
    ensures Collected(pages) == visible[..Reached(visible, limits)]
    ensures |pages| <= if visible == [] then 1 else Reached(visible, limits)
    decreases |pages|
  {
    var n := |pages| - 1;
    if n == 0 {
      FirstPage(visible, limits, pages);
    } else {
      WalkPrefix(visible, limits, pages);
      WalkCollects(visible, limits[..n], pages[..n]);
      var start := Reached(visible, limits[..n]);
      var page := pages[..n][n - 1];
      assert page == pages[n - 1] && page.hasMore;
      LaterPage(visible, start, limits[n], page, pages[n]);
      CollectedStep(visible, pages, start, Reached(visible, limits));
    }
  }

  lemma {:induction false} FirstPage(visible: seq<Model>, limits: seq<Option<nat>>, pages: seq<Answer>)
    requires Walk(visible, limits, pages) && |pages| == 1
    ensures pages[0].Page?
    ensures pages[0] == PageUpTo(visible, pages[0], Reached(visible, limits))
    ensures Collected(pages) == visible[..Reached(visible, limits)]
    ensures visible != [] ==> 1 <= Reached(visible, limits)
  {
    assert Sum(limits[..0]) == 0 && Sum(limits) == Limit(limits[0]);
    assert Collected(pages[..0]) == [];
    PageReaches(visible, 0, Limit(limits[0]));
  }

  /** The page behind one that ends at `start`. */
  lemma LaterPage(visible: seq<Model>, start: nat, limit: Option<nat>, page: Answer, next: Answer)
    requires DistinctIds(visible) && 0 < start <= |visible| && 1 <= Limit(limit) <= 100
    requires Follows(visible, limit, page, next) && page == PageUpTo(visible, page, start)
    ensures var end := if start + Limit(limit) < |visible| then start + Limit(limit) else |visible|;
            next.Page? && next.data == visible[start..end] && next == PageUpTo(visible, next, end) && start < end
  {
    NextPage(visible, start, limit, page, next);
    PageReaches(visible, start, Limit(limit));
  }

  lemma {:induction false} CollectedStep(visible: seq<Model>, pages: seq<Answer>, start: nat, end: nat)
    requires pages != [] && pages[|pages| - 1].Page? && start <= end <= |visible|
    requires Collected(pages[..|pages| - 1]) == visible[..start] && pages[|pages| - 1].data == visible[start..end]
    ensures Collected(pages) == visible[..end]
  {
    assert visible[..start] + visible[start..end] == visible[..end];
  }

  lemma WalkPrefix(visible: seq<Model>, limits: seq<Option<nat>>, pages: seq<Answer>)
    requires Walk(visible, limits, pages) && |pages| > 1
    ensures Walk(visible, limits[..|pages| - 1], pages[..|pages| - 1])
    ensures Follows(visible, limits[|pages| - 1], pages[|pages| - 2], pages[|pages| - 1])
  {
    var k := |pages| - 2;
    assert Follows(visible, limits[k + 1], pages[k], pages[k + 1]);
  }

  /** Walking a published catalog: a walk that ends where there is no more has listed everything the
      key sees exactly once, in strictly rising order of identifiers; before that it has listed a
      proper part; and no walk takes more pages than there are models, or one if there is none. */
  lemma {:induction false} WalkListsEverythingOnce(ms: seq<Model>, grant: Grant, limits: seq<Option<nat>>, pages: seq<Answer>)
    requires Walk(Visible(Catalog(ms), grant), limits, pages)
    ensures StrictlySorted(Visible(Catalog(ms), grant))
    ensures Collected(pages) <= Visible(Catalog(ms), grant)
    ensures pages[|pages| - 1].Page?
    ensures pages[|pages| - 1].hasMore <==> Collected(pages) != Visible(Catalog(ms), grant)
    ensures |pages| <= if Visible(Catalog(ms), grant) == [] then 1 else |Visible(Catalog(ms), grant)|
  {
    var visible := Visible(Catalog(ms), grant);
    CatalogIs(ms, "");
    VisibleStaysSorted(Catalog(ms), grant);
    StrictIsDistinct(visible);
    WalkCollects(visible, limits, pages);
  }
}
