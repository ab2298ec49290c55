/** Query and Scan as the adapter passes them on, and paging through the cursors it
    hands out. */
module Paging {
  import opened Common
  import opened Marshal
  import opened Adapter

  // ---- Parameter checks ------------------------------------------------------

  /** A present-but-empty expression is refused; an absent one reaches the engine as "". */
  function ExprString(p: Option<string>): Result<string, AdapterError> {
    match p
    case None => Ok("")
    case Some(e) => if e == "" then Err(Validation) else Ok(e)
  }

  /** rejectEmptySubMaps: a present-but-empty substitution map next to an expression. */
  predicate EmptySubstitution(names: Option<map<string, string>>, values: Option<SdkItem>, exprs: seq<string>) {
    && (exists e :: e in exprs && e != "")
    && (names == Some(map[]) || values == Some(map[]))
  }

  // ---- Requests and pages ----------------------------------------------------

  /** The deprecated pre-expression parameters that both operations have. */
  datatype Legacy = Legacy(filter: set<string>, conditionalOperator: string, attributesToGet: seq<string>)

  datatype QueryInput = QueryInput(
    keyConditions: set<string>, legacy: Legacy,
    table: Option<string>, index: Option<string>, select: string,
    keyCondition: Option<string>, filter: Option<string>, projection: Option<string>,
    names: Option<map<string, string>>, values: Option<SdkItem>,
    startKey: SdkItem, limit: Option<int>, forward: Option<bool>, consistent: Option<bool>)

  datatype ScanInput = ScanInput(
    legacy: Legacy,
    table: Option<string>, index: Option<string>, select: string,
    filter: Option<string>, projection: Option<string>,
    names: Option<map<string, string>>, values: Option<SdkItem>,
    startKey: SdkItem, limit: Option<int>, segment: Option<int>, totalSegments: Option<int>, consistent: Option<bool>)

  /** What either operation asks of the engine; 0 stands for "no limit". */
  datatype CoreRequest = CoreRequest(
    table: string, index: string, select: string,
    keyCondition: string, filter: string, projection: string,
    names: map<string, string>, values: Item,
    startKey: Item, limit: int, forward: bool, consistent: bool, segment: int, totalSegments: int)

  datatype CorePage = CorePage(items: seq<Item>, count: nat, scanned: nat, lastKey: Item)
  datatype SdkPage = SdkPage(items: seq<SdkItem>, count: nat, scanned: nat, lastKey: SdkItem)

  type Client = CoreRequest -> Result<CorePage, string>

  function OrElse<T>(o: Option<T>, d: T): T {
    if o.Some? then o.value else d
  }

  predicate IsLegacy(l: Legacy) {
    l.filter != {} || l.conditionalOperator != "" || l.attributesToGet != []
  }

  /** Some expression is present but empty, or a substitution map is, next to an expression. */
  predicate ExpressionsRefused(exprs: seq<Option<string>>, names: Option<map<string, string>>,
                               values: Option<SdkItem>) {
    || (exists p :: p in exprs && p == Some(""))
    || ((exists p :: p in exprs && p.Some?) && (names == Some(map[]) || values == Some(map[])))
  }

  /** The inputs the adapter refuses before it calls the engine. */
  predicate Refused(exprs: seq<Option<string>>, names: Option<map<string, string>>, values: Option<SdkItem>,
                    limit: Option<int>, startKey: SdkItem) {
    || ExpressionsRefused(exprs, names, values)
    || limit == Some(0)
    || (values.Some? && !ItemConvertible(values.value))
    || !ItemConvertible(startKey)
  }

  predicate QueryRefused(q: QueryInput) {
    || q.keyConditions != {} || IsLegacy(q.legacy)
    || Refused([q.keyCondition, q.filter, q.projection], q.names, q.values, q.limit, q.startKey)
  }

  predicate ScanRefused(q: ScanInput) {
    IsLegacy(q.legacy) || Refused([q.filter, q.projection], q.names, q.values, q.limit, q.startKey)
  }

  function EncodePage(page: CorePage): SdkPage {
    SdkPage(EncodeItems(page.items), page.count, page.scanned, EncodeItem(page.lastKey))
  }

  /** The checks of the expressions and their substitution maps: the expressions as they
      reach the engine. */
  method CheckedExpressions(exprs: seq<Option<string>>, names: Option<map<string, string>>, values: Option<SdkItem>)
    returns (res: Result<seq<string>, AdapterError>)
    ensures res.Ok? <==> !ExpressionsRefused(exprs, names, values)
    ensures res.Ok? ==> |res.value| == |exprs| && forall i | 0 <= i < |exprs| :: res.value[i] == OrElse(exprs[i], "")
    ensures res.Err? ==> res.error == Validation
  {
    var present: seq<string> := [];
    for i := 0 to |exprs|
      invariant |present| == i
      invariant forall j | 0 <= j < i :: ExprString(exprs[j]) == Ok(present[j])
    {
      var e := ExprString(exprs[i]);
      if e.Err? {
        assert exprs[i] in exprs;
        return Err(Validation);
      }
      present := present + [e.value];
    }
    forall i | 0 <= i < |exprs| ensures exprs[i].Some? ==> present[i] in present && present[i] != "" {
    }
    if EmptySubstitution(names, values, present) {
      var i :| 0 <= i < |present| && present[i] != "";
      assert exprs[i] in exprs;
      return Err(Validation);
    }
    return Ok(present);
  }

  /** exprValues: an absent or empty map reaches the engine as nil. */
  method ExprValues(r: SetRules, values: Option<SdkItem>) returns (res: Result<Item, AdapterError>)
    ensures res.Ok? <==> values.None? || ItemConvertible(values.value)
    ensures res.Ok? ==> res.value == if values.Some? then ConvertItem(r, values.value) else map[]
    ensures res.Err? ==> res.error == Validation
  {
    if values == None || values.value == map[] {
      return Ok(map[]);
    }
    var v := FromSDKMap(r, values.value);
    if v.Err? {
      return Err(Validation);
    }
    return Ok(v.value);
  }

  method StartKey(r: SetRules, key: SdkItem) returns (res: Result<Item, AdapterError>)
    ensures res.Ok? <==> ItemConvertible(key)
    ensures res.Ok? ==> res.value == ConvertItem(r, key)
    ensures res.Err? ==> res.error == Validation
  {
    if |key| > 0 {
      var k := FromSDKMap(r, key);
      if k.Err? {
        return Err(Validation);
      }
      return Ok(k.value);
    }
    return Ok(map[]);
  }

  method ToPage(page: CorePage) returns (out: SdkPage)
    ensures out == EncodePage(page)
  {
    var items := EncodeList(page.items);
    var lastKey: SdkItem := map[];
    if |page.lastKey| > 0 {
      lastKey := ToSDKMap(page.lastKey);
    }
    return SdkPage(items, page.count, page.scanned, lastKey);
  }

  /** What reaches the engine when the request is not refused. */
  function QueryRequest(r: SetRules, q: QueryInput): CoreRequest
    requires !QueryRefused(q)
  {
    CoreRequest(OrElse(q.table, ""), OrElse(q.index, ""), q.select,
                OrElse(q.keyCondition, ""), OrElse(q.filter, ""), OrElse(q.projection, ""),
                OrElse(q.names, map[]), if q.values.Some? then ConvertItem(r, q.values.value) else map[],
                ConvertItem(r, q.startKey), OrElse(q.limit, 0), OrElse(q.forward, true), OrElse(q.consistent, false),
                0, 0)
  }

  function ScanRequest(r: SetRules, q: ScanInput): CoreRequest
    requires !ScanRefused(q)
  {
    CoreRequest(OrElse(q.table, ""), OrElse(q.index, ""), q.select,
                "", OrElse(q.filter, ""), OrElse(q.projection, ""),
                OrElse(q.names, map[]), if q.values.Some? then ConvertItem(r, q.values.value) else map[],
                ConvertItem(r, q.startKey), OrElse(q.limit, 0), true, OrElse(q.consistent, false),
                OrElse(q.segment, 0), OrElse(q.totalSegments, 0))
  }

  /** What the engine is asked for, parameter by parameter: an absent one is the engine's
      default, a present one is handed on. */
  ghost predicate CommonAsked(r: SetRules, table: Option<string>, index: Option<string>, select: string,
                              filter: Option<string>, projection: Option<string>, names: Option<map<string, string>>,
                              values: Option<SdkItem>, startKey: SdkItem, limit: Option<int>, consistent: Option<bool>,
                              req: CoreRequest) {
    && (table == None ==> req.table == "") && (forall t | table == Some(t) :: req.table == t)
    && (index == None ==> req.index == "") && (forall i | index == Some(i) :: req.index == i)
    && req.select == select
    && (filter == None ==> req.filter == "") && (forall e | filter == Some(e) :: req.filter == e)
    && (projection == None ==> req.projection == "") && (forall e | projection == Some(e) :: req.projection == e)
    && (names == None ==> req.names == map[]) && (forall n | names == Some(n) :: req.names == n)
    && (values == None ==> req.values == map[]) && (values.Some? ==> ItemMeans(r, values.value, req.values))
    && ItemMeans(r, startKey, req.startKey)
    && (limit == None ==> req.limit == 0) && (forall l | limit == Some(l) :: req.limit == l)
    && (req.consistent <==> consistent == Some(true))
  }

  ghost predicate QueryAsked(r: SetRules, q: QueryInput, req: CoreRequest) {
    && CommonAsked(r, q.table, q.index, q.select, q.filter, q.projection, q.names, q.values, q.startKey, q.limit,
                   q.consistent, req)
    && (q.keyCondition == None ==> req.keyCondition == "")
    && (forall e | q.keyCondition == Some(e) :: req.keyCondition == e)
    && (req.forward <==> q.forward != Some(false))
    && req.segment == 0 && req.totalSegments == 0
  }

  ghost predicate ScanAsked(r: SetRules, q: ScanInput, req: CoreRequest) {
    && CommonAsked(r, q.table, q.index, q.select, q.filter, q.projection, q.names, q.values, q.startKey, q.limit,
                   q.consistent, req)
    && req.keyCondition == "" && req.forward
    && (q.segment == None ==> req.segment == 0) && (forall n | q.segment == Some(n) :: req.segment == n)
    && (q.totalSegments == None ==> req.totalSegments == 0)
    && (forall n | q.totalSegments == Some(n) :: req.totalSegments == n)
  }

  lemma QueryAsks(r: SetRules, q: QueryInput)
    requires !QueryRefused(q)
    ensures QueryAsked(r, q, QueryRequest(r, q))
  {
    hide ExpressionsRefused, ItemMeans, ItemConvertible, ConvertItem;
    if q.values.Some? {
      ItemConvertMeans(r, q.values.value);
    }
    ItemConvertMeans(r, q.startKey);
  }

  lemma ScanAsks(r: SetRules, q: ScanInput)
    requires !ScanRefused(q)
    ensures ScanAsked(r, q, ScanRequest(r, q))
  {
    hide ExpressionsRefused, ItemMeans, ItemConvertible, ConvertItem;
    if q.values.Some? {
      ItemConvertMeans(r, q.values.value);
    }
    ItemConvertMeans(r, q.startKey);
  }

  /** Both refuse an item with a faulty node. */
  lemma FaultyItems(values: Option<SdkItem>, startKey: SdkItem)
    ensures (values.Some? && !ItemConvertible(values.value)) <==> (values.Some? && ItemFault(values.value))
    ensures !ItemConvertible(startKey) <==> ItemFault(startKey)
  {
    hide ItemConvertible, ItemFault;
    if values.Some? {
      ItemAcceptance(values.value);
    }
    ItemAcceptance(startKey);
  }

  lemma QueryRefusedWhen(q: QueryInput)
    ensures QueryRefused(q) <==>
            || q.keyConditions != {} || q.legacy.filter != {} || q.legacy.conditionalOperator != ""
            || q.legacy.attributesToGet != []
            || q.keyCondition == Some("") || q.filter == Some("") || q.projection == Some("")
            || ((q.keyCondition.Some? || q.filter.Some? || q.projection.Some?)
                && (q.names == Some(map[]) || q.values == Some(map[])))
            || q.limit == Some(0)
            || (q.values.Some? && ItemFault(q.values.value)) || ItemFault(q.startKey)
  {
    FaultyItems(q.values, q.startKey);
    hide ItemConvertible, ItemFault;
    var exprs := [q.keyCondition, q.filter, q.projection];
    assert exprs[0] in exprs && exprs[1] in exprs && exprs[2] in exprs;
  }

  lemma ScanRefusedWhen(q: ScanInput)
    ensures ScanRefused(q) <==>
            || q.legacy.filter != {} || q.legacy.conditionalOperator != "" || q.legacy.attributesToGet != []
            || q.filter == Some("") || q.projection == Some("")
            || ((q.filter.Some? || q.projection.Some?) && (q.names == Some(map[]) || q.values == Some(map[])))
            || q.limit == Some(0)
            || (q.values.Some? && ItemFault(q.values.value)) || ItemFault(q.startKey)
  {
    FaultyItems(q.values, q.startKey);
    hide ItemConvertible, ItemFault;
    var exprs := [q.filter, q.projection];
    assert exprs[0] in exprs && exprs[1] in exprs;
  }

  predicate Answered(reply: Result<CorePage, string>, res: Result<SdkPage, AdapterError>) {
    match reply
    case Ok(page) => res == Ok(EncodePage(page))
    case Err(code) => res == Err(Engine(code))
  }

  method Query(r: SetRules, client: Client, q: QueryInput) returns (res: Result<SdkPage, AdapterError>)
    ensures if QueryRefused(q) then res == Err(Validation)
            else QueryAsked(r, q, QueryRequest(r, q)) && Answered(client(QueryRequest(r, q)), res)
    ensures res == Err(Validation) <==>
            || q.keyConditions != {} || q.legacy.filter != {} || q.legacy.conditionalOperator != ""
            || q.legacy.attributesToGet != []
            || q.keyCondition == Some("") || q.filter == Some("") || q.projection == Some("")
            || ((q.keyCondition.Some? || q.filter.Some? || q.projection.Some?)
                && (q.names == Some(map[]) || q.values == Some(map[])))
            || q.limit == Some(0)
            || (q.values.Some? && ItemFault(q.values.value)) || ItemFault(q.startKey)
  {
    QueryRefusedWhen(q);
    if !QueryRefused(q) {
      QueryAsks(r, q);
    }
    hide ConvertItem, ItemConvertible, EncodePage, ExpressionsRefused, QueryAsked, ItemFault;
    if q.keyConditions != {} || IsLegacy(q.legacy) {
      return Err(Validation);
    }
    var exprs := CheckedExpressions([q.keyCondition, q.filter, q.projection], q.names, q.values);
    if exprs.Err? {
      return Err(Validation);
    }
    if q.limit == Some(0) {
      return Err(Validation);
    }
    var values := ExprValues(r, q.values);
    if values.Err? {
      return Err(Validation);
    }
    var startKey := StartKey(r, q.startKey);
    if startKey.Err? {
      return Err(Validation);
    }
    var out := client(CoreRequest(OrElse(q.table, ""), OrElse(q.index, ""), q.select,
                                  exprs.value[0], exprs.value[1], exprs.value[2],
                                  OrElse(q.names, map[]), values.value, startKey.value, OrElse(q.limit, 0),
                                  q.forward == None || q.forward.value, OrElse(q.consistent, false), 0, 0));
    if out.Err? {
      return Err(Engine(out.error));
    }
    var page := ToPage(out.value);
    return Ok(page);
  }

  method Scan(r: SetRules, client: Client, q: ScanInput) returns (res: Result<SdkPage, AdapterError>)
    ensures if ScanRefused(q) then res == Err(Validation)
            else ScanAsked(r, q, ScanRequest(r, q)) && Answered(client(ScanRequest(r, q)), res)
    ensures res == Err(Validation) <==>
            || q.legacy.filter != {} || q.legacy.conditionalOperator != "" || q.legacy.attributesToGet != []
            || q.filter == Some("") || q.projection == Some("")
            || ((q.filter.Some? || q.projection.Some?) && (q.names == Some(map[]) || q.values == Some(map[])))
            || q.limit == Some(0)
            || (q.values.Some? && ItemFault(q.values.value)) || ItemFault(q.startKey)
  {
    ScanRefusedWhen(q);
    if !ScanRefused(q) {
      ScanAsks(r, q);
    }
    hide ConvertItem, ItemConvertible, EncodePage, ExpressionsRefused, ScanAsked, ItemFault;
    if IsLegacy(q.legacy) {
      return Err(Validation);
    }
    var exprs := CheckedExpressions([q.filter, q.projection], q.names, q.values);
    if exprs.Err? {
      return Err(Validation);
    }
    if q.limit == Some(0) {
      return Err(Validation);
    }
    var values := ExprValues(r, q.values);
    if values.Err? {
      return Err(Validation);
    }
    var startKey := StartKey(r, q.startKey);
    if startKey.Err? {
      return Err(Validation);
    }
    var out := client(CoreRequest(OrElse(q.table, ""), OrElse(q.index, ""), q.select,
                                  "", exprs.value[0], exprs.value[1], OrElse(q.names, map[]), values.value,
                                  startKey.value, OrElse(q.limit, 0), true, OrElse(q.consistent, false),
                                  OrElse(q.segment, 0), OrElse(q.totalSegments, 0)));
    if out.Err? {
      return Err(Engine(out.error));
    }
    var page := ToPage(out.value);
    return Ok(page);
  }

  // ---- The engine's paging contract ------------------------------------------

  /** A filter with what it refers to. */
  datatype Test = Test(filter: string, names: map<string, string>, values: Item)

  /** A table at rest: the entries a request ranges over, ascending, each with its cursor
      key; which of them a filter keeps; and how many the engine is willing to scan from a
      given position in one call (its page-size cap). */
  datatype Stored = Stored(entries: seq<Item>, key: Item -> Item, keeps: (Test, Item) -> bool, budget: nat -> nat)

  ghost predicate ValidStored(r: SetRules, st: Stored) {
    && (forall e | e in st.entries :: ValidItem(r, st.key(e)) && st.key(e) != map[])
    && (forall i, j | 0 <= i < j < |st.entries| :: st.key(st.entries[i]) != st.key(st.entries[j]))
    && (forall i: nat :: st.budget(i) >= 1)
  }

  function Reversed(s: seq<Item>): (t: seq<Item>)
    ensures |t| == |s| && forall i | 0 <= i < |s| :: t[i] == s[|s| - 1 - i]
  {
    seq(|s|, i requires 0 <= i < |s| => s[|s| - 1 - i])
  }

  /** What one request sees: the entries in the order it asked for, under its filter. */
  function ViewOf(st: Stored, forward: bool, test: Test): View {
    View(if forward then st.entries else Reversed(st.entries), st.key, x => st.keeps(test, x), st.budget)
  }

  lemma ViewIsValid(r: SetRules, st: Stored, forward: bool, test: Test)
    requires ValidStored(r, st)
    ensures ValidView(r, ViewOf(st, forward, test))
  {
    hide ValidItem;
    var view := ViewOf(st, forward, test);
    forall e | e in view.entries ensures e in st.entries {
      var i :| 0 <= i < |view.entries| && view.entries[i] == e;
      assert e == st.entries[if forward then i else |st.entries| - 1 - i];
    }
  }

  /** The engine's answer to a request over the table. */
  function Reply(st: Stored, req: CoreRequest): CorePage {
    PageFrom(ViewOf(st, req.forward, Test(req.filter, req.names, req.values)), req)
  }

  /** What the caller of the adapter means: ascending unless ScanIndexForward is false; the
      filter, names and values given, none where none is given. */
  function Meant(r: SetRules, st: Stored, forward: Option<bool>, filter: Option<string>,
                 names: Option<map<string, string>>, values: Option<SdkItem>): View
    requires values.Some? ==> ItemConvertible(values.value)
  {
    ViewOf(st, forward != Some(false),
           Test(match filter case None => "" case Some(f) => f,
                match names case None => map[] case Some(n) => n,
                match values case None => map[] case Some(v) => ConvertItem(r, v)))
  }

  datatype View = View(entries: seq<Item>, key: Item -> Item, keep: Item -> bool, budget: nat -> nat)

  ghost predicate ValidView(r: SetRules, view: View) {
    && (forall e | e in view.entries :: ValidItem(r, view.key(e)) && view.key(e) != map[])
    && (forall i, j | 0 <= i < j < |view.entries| :: view.key(view.entries[i]) != view.key(view.entries[j]))
    && (forall i: nat :: view.budget(i) >= 1)
  }

  /** The position after the entry with this cursor key; an absent cursor is position 0. */
  function After(view: View, entries: seq<Item>, cursor: Item): (pos: nat)
    ensures pos <= |entries|
  {
    if entries == [] || cursor == map[] then 0
    else if view.key(entries[|entries| - 1]) == cursor then |entries|
    else After(view, entries[..|entries| - 1], cursor)
  }

  function Filter(keep: Item -> bool, items: seq<Item>): seq<Item> {
    if items == [] then []
    else Filter(keep, items[..|items| - 1]) + (if keep(items[|items| - 1]) then [items[|items| - 1]] else [])
  }

  /** How many entries one call scans: as many as remain, at most the limit, at most the cap. */
  function Scanned(view: View, pos: nat, limit: int): (n: nat)
    requires pos <= |view.entries|
    ensures pos + n <= |view.entries|
  {
    var cap := if 0 < limit < view.budget(pos) then limit else view.budget(pos);
    if cap <= |view.entries| - pos then cap else |view.entries| - pos
  }

  /** With Select=COUNT the items are counted and not returned. */
  function Shown(select: string, items: seq<Item>): seq<Item> {
    if select == "COUNT" then [] else items
  }

  /** The stop reason decides the cursor: it is set exactly when the limit or the cap was
      reached, even if that is also the end, and absent when the entries ran out. */
  function PageFrom(view: View, req: CoreRequest): CorePage {
    var pos := After(view, view.entries, req.startKey);
    var n := Scanned(view, pos, req.limit);
    var stopped := n == view.budget(pos) || n == req.limit;
    var kept := Filter(view.keep, view.entries[pos..pos + n]);
    CorePage(Shown(req.select, kept), |kept|, n,
             if stopped && n > 0 then view.key(view.entries[pos + n - 1]) else map[])
  }

  lemma {:induction false} AfterFinds(r: SetRules, view: View, entries: seq<Item>, i: nat)
    requires ValidView(r, view) && entries <= view.entries && i < |entries|
    ensures After(view, entries, view.key(entries[i])) == i + 1
  {
    assert entries[i] == view.entries[i] && view.entries[i] in view.entries;
    if i < |entries| - 1 {
      assert entries[|entries| - 1] == view.entries[|entries| - 1];
      AfterFinds(r, view, entries[..|entries| - 1], i);
    }
  }

  lemma {:induction false} FilterAppend(keep: Item -> bool, xs: seq<Item>, ys: seq<Item>)
    ensures Filter(keep, xs + ys) == Filter(keep, xs) + Filter(keep, ys)
    decreases |ys|
  {
    if ys == [] {
      assert xs + ys == xs;
    } else {
      assert (xs + ys)[..|xs + ys| - 1] == xs + ys[..|ys| - 1];
      FilterAppend(keep, xs, ys[..|ys| - 1]);
    }
  }

  lemma FilterOne(keep: Item -> bool, x: Item)
    ensures Filter(keep, [x]) == if keep(x) then [x] else []
  {
    assert [x][..0] == [];
  }

  /** The cursor the adapter returns, sent back, stands for the position the page ended at. */
  lemma CursorResumes(r: SetRules, view: View, pos: nat)
    requires ValidView(r, view) && 0 < pos <= |view.entries|
    ensures var cursor := EncodeItem(view.key(view.entries[pos - 1]));
            && cursor != map[] && ItemConvertible(cursor)
            && After(view, view.entries, ConvertItem(r, cursor)) == pos
  {
    var k := view.key(view.entries[pos - 1]);
    assert view.entries[pos - 1] in view.entries;
    ItemRoundTrip(r, k);
    var name :| name in k;
    assert name in EncodeItem(k);
    AfterFinds(r, view, view.entries, pos - 1);
  }

  // ---- The resume loop -------------------------------------------------------

  /** The engine's page for a request whose cursor stands for position pos. */
  lemma PageAt(r: SetRules, view: View, req: CoreRequest, pos: nat)
    requires ValidView(r, view) && req.limit >= 0
    requires After(view, view.entries, req.startKey) == pos
    ensures var page := PageFrom(view, req);
            && pos + page.scanned <= |view.entries|
            && page.items == Shown(req.select, Filter(view.keep, view.entries[pos..pos + page.scanned]))
            && page.count == |Filter(view.keep, view.entries[pos..pos + page.scanned])|
            && (page.lastKey == map[] ==> pos + page.scanned == |view.entries|)
            && (page.lastKey != map[] ==> page.scanned > 0
                                          && page.lastKey == view.key(view.entries[pos + page.scanned - 1]))
  {
    hide ValidItem, After, Filter;
    var n := Scanned(view, pos, req.limit);
    if n > 0 {
      assert view.entries[pos + n - 1] in view.entries;
    }
    assert view.budget(pos) >= 1;
  }

  /** What a request returns for the entries before a position, and how many it counts. */
  function ReturnedUpTo(view: View, select: string, pos: nat): seq<SdkItem>
    requires pos <= |view.entries|
  {
    EncodeItems(Shown(select, Filter(view.keep, view.entries[..pos])))
  }

  function CountedUpTo(view: View, pos: nat): nat
    requires pos <= |view.entries|
  {
    |Filter(view.keep, view.entries[..pos])|
  }

  lemma ShownAppend(select: string, xs: seq<Item>, ys: seq<Item>)
    ensures EncodeItems(Shown(select, xs + ys)) == EncodeItems(Shown(select, xs)) + EncodeItems(Shown(select, ys))
  {
    hide EncodeItem;
  }

  lemma PagesJoin(view: View, select: string, pos: nat, next: nat)
    requires pos <= next <= |view.entries|
    ensures var kept := Filter(view.keep, view.entries[pos..next]);
            && ReturnedUpTo(view, select, next) == ReturnedUpTo(view, select, pos) + EncodeItems(Shown(select, kept))
            && CountedUpTo(view, next) == CountedUpTo(view, pos) + |kept|
  {
    hide EncodeItems, Shown, Filter;
    assert view.entries[..next] == view.entries[..pos] + view.entries[pos..next];
    FilterAppend(view.keep, view.entries[..pos], view.entries[pos..next]);
    ShownAppend(select, Filter(view.keep, view.entries[..pos]), Filter(view.keep, view.entries[pos..next]));
  }

  /** Sending a cursor back does not change whether the request is refused. */
  lemma RefusedByItself(q: ScanInput, cursor: SdkItem)
    requires ItemConvertible(cursor) && ItemConvertible(q.startKey)
    ensures ScanRefused(q.(startKey := cursor)) <==> ScanRefused(q)
  {
  }

  lemma QueryRefusedByItself(q: QueryInput, cursor: SdkItem)
    requires ItemConvertible(cursor) && ItemConvertible(q.startKey)
    ensures QueryRefused(q.(startKey := cursor)) <==> QueryRefused(q)
  {
  }

  /** One page of the loop: what it adds, and where its cursor stands. */
  lemma NextPage(r: SetRules, view: View, req: CoreRequest, pos: nat, page: SdkPage)
    requires ValidView(r, view) && req.limit >= 0 && After(view, view.entries, req.startKey) == pos
    requires page == EncodePage(PageFrom(view, req))
    ensures var next := pos + page.scanned;
            && next <= |view.entries|
            && ReturnedUpTo(view, req.select, next) == ReturnedUpTo(view, req.select, pos) + page.items
            && CountedUpTo(view, next) == CountedUpTo(view, pos) + page.count
            && if page.lastKey == map[] then next == |view.entries|
               else next > pos && ItemConvertible(page.lastKey)
                    && After(view, view.entries, ConvertItem(r, page.lastKey)) == next
  {
    hide ValidView, After, Filter, EncodeItems, EncodeItem, ConvertItem, ItemConvertible, PageFrom, Shown,
         ReturnedUpTo, CountedUpTo;
    PageAt(r, view, req, pos);
    PagesJoin(view, req.select, pos, pos + page.scanned);
    EncodedEmpty(PageFrom(view, req).lastKey);
    if page.lastKey != map[] {
      CursorResumes(r, view, pos + page.scanned);
    }
  }

  lemma RequestOf(r: SetRules, q: ScanInput)
    requires !ScanRefused(q)
    ensures ScanRequest(r, q).limit == OrElse(q.limit, 0) && ScanRequest(r, q).select == q.select
    ensures ItemConvertible(q.startKey) && ScanRequest(r, q).startKey == ConvertItem(r, q.startKey)
  {
  }

  lemma QueryRequestOf(r: SetRules, q: QueryInput)
    requires !QueryRefused(q)
    ensures QueryRequest(r, q).limit == OrElse(q.limit, 0) && QueryRequest(r, q).select == q.select
    ensures ItemConvertible(q.startKey) && QueryRequest(r, q).startKey == ConvertItem(r, q.startKey)
  {
  }

  /** What the loop has collected, and where its cursor stands. */
  datatype Progress = Progress(total: seq<SdkItem>, count: nat, cursor: SdkItem)

  ghost predicate CollectedUpTo(r: SetRules, view: View, select: string, pr: Progress, pos: nat) {
    && pos <= |view.entries|
    && ItemConvertible(pr.cursor) && After(view, view.entries, ConvertItem(r, pr.cursor)) == pos
    && pr.total == ReturnedUpTo(view, select, pos) && pr.count == CountedUpTo(view, pos)
  }

  function Extended(pr: Progress, page: SdkPage): Progress {
    Progress(pr.total + page.items, pr.count + page.count, page.lastKey)
  }

  const NO_PROGRESS := Progress([], 0, map[])

  lemma LoopStart(r: SetRules, view: View, select: string)
    ensures CollectedUpTo(r, view, select, NO_PROGRESS, 0) && ItemConvertible(NO_PROGRESS.cursor)
  {
    assert ConvertItem(r, map[]) == map[];
  }

  /** A page got at position pos was the last one, or takes the loop further. */
  ghost predicate Advanced(r: SetRules, view: View, select: string, pr: Progress, pos: nat, page: SdkPage) {
    if page.lastKey == map[]
    then Complete(view, select, Extended(pr, page))
    else page.scanned > 0 && pos + page.scanned <= |view.entries| && ItemConvertible(page.lastKey)
         && CollectedUpTo(r, view, select, Extended(pr, page), pos + page.scanned)
  }

  /** Everything an unpaged request would return and count. */
  ghost predicate Complete(view: View, select: string, pr: Progress) {
    && pr.total == EncodeItems(Shown(select, Filter(view.keep, view.entries)))
    && pr.count == |Filter(view.keep, view.entries)|
  }

  lemma LoopStep(r: SetRules, view: View, req: CoreRequest, pr: Progress, pos: nat, page: SdkPage)
    requires ValidView(r, view) && CollectedUpTo(r, view, req.select, pr, pos)
    requires req.limit >= 0 && ItemConvertible(pr.cursor) && req.startKey == ConvertItem(r, pr.cursor)
    requires page == EncodePage(PageFrom(view, req))
    ensures Advanced(r, view, req.select, pr, pos, page)
  {
    hide ValidView, After, Filter, EncodeItems, ConvertItem, ItemConvertible, EncodePage, PageFrom, Shown;
    NextPage(r, view, req, pos, page);
    assert view.entries[..|view.entries|] == view.entries;
  }

  lemma MeantIsValid(r: SetRules, st: Stored, forward: Option<bool>, filter: Option<string>,
                     names: Option<map<string, string>>, values: Option<SdkItem>)
    requires ValidStored(r, st)
    ensures (values.Some? ==> ItemConvertible(values.value)) ==>
              ValidView(r, Meant(r, st, forward, filter, names, values))
  {
    hide ItemConvertible, ConvertItem, ValidView, ViewOf, ValidStored;
    if values.Some? ==> ItemConvertible(values.value) {
      ViewIsValid(r, st, forward != Some(false),
                  Test(match filter case None => "" case Some(f) => f,
                       match names case None => map[] case Some(n) => n,
                       match values case None => map[] case Some(v) => ConvertItem(r, v)));
    }
  }

  /** The request the adapter makes is answered over the view the caller means. */
  lemma ScanMeant(r: SetRules, st: Stored, q: ScanInput)
    requires !ScanRefused(q)
    ensures q.values.Some? ==> ItemConvertible(q.values.value)
    ensures Reply(st, ScanRequest(r, q)) ==
            PageFrom(Meant(r, st, None, q.filter, q.names, q.values), ScanRequest(r, q))
  {
    hide ExpressionsRefused, PageFrom, ConvertItem, ItemConvertible;
  }

  /** One turn of the resume loop. */
  method ScanPage(r: SetRules, st: Stored, q: ScanInput, ghost view: View, ghost pr: Progress, ghost pos: nat)
    returns (res: Result<SdkPage, AdapterError>)
    requires !ScanRefused(q) ==> view == Meant(r, st, None, q.filter, q.names, q.values)
    requires ValidView(r, view) && CollectedUpTo(r, view, q.select, pr, pos) && q.startKey == pr.cursor
    requires q.limit.Some? ==> q.limit.value >= 1
    ensures res.Err? <==> ScanRefused(q)
    ensures res.Ok? ==> Advanced(r, view, q.select, pr, pos, res.value)
  {
    hide ValidView, CollectedUpTo, Advanced, ConvertItem, ItemConvertible, ScanRefused, ScanRequest, EncodePage,
         PageFrom, Reply, Meant, ScanAsked;
    var client: Client := req => Ok(Reply(st, req));
    res := Scan(r, client, q);
    if res.Ok? {
      RequestOf(r, q);
      ScanMeant(r, st, q);
      LoopStep(r, view, ScanRequest(r, q), pr, pos, res.value);
    }
  }

  /** Scanning page by page until there is no cursor. For every limit of at least one, or
      none, the loop ends, and the pages together are the unpaged entries that the caller's
      filter keeps, in ascending order: none skipped, none repeated, whether or not the last
      page is empty. The counts add up too, with Select=COUNT as well. */
  method ScanAll(r: SetRules, st: Stored, q: ScanInput) returns (res: Result<Progress, AdapterError>)
    requires ValidStored(r, st)
    requires q.startKey == map[] && (q.limit.Some? ==> q.limit.value >= 1)
    ensures res.Err? <==> ScanRefused(q)
    ensures res.Ok? ==> (q.values.Some? ==> ItemConvertible(q.values.value))
                        && Complete(Meant(r, st, None, q.filter, q.names, q.values), q.select, res.value)
  {
    hide ValidStored, ValidView, CollectedUpTo, ItemConvertible, ScanRefused, Complete, Meant, ViewOf, ItemFault;
    ghost var view := ScanStart(r, st, q);
    var pr := NO_PROGRESS;
    ghost var pos: nat := 0;
    while true
      invariant pos <= |view.entries| && ItemConvertible(pr.cursor)
      invariant CollectedUpTo(r, view, q.select, pr, pos)
      invariant pos > 0 ==> !ScanRefused(q)
      decreases |view.entries| - pos
    {
      RefusedByItself(q, pr.cursor);
      var page := ScanPage(r, st, q.(startKey := pr.cursor), view, pr, pos);
      if page.Err? {
        return Err(page.error);
      }
      pr := Extended(pr, page.value);
      if pr.cursor == map[] {
        return Ok(pr);
      }
      pos := pos + page.value.scanned;
    }
  }

  lemma AcceptedValues(q: ScanInput)
    ensures !ScanRefused(q) && q.values.Some? ==> ItemConvertible(q.values.value)
  {
  }

  lemma ScanStart(r: SetRules, st: Stored, q: ScanInput) returns (view: View)
    requires ValidStored(r, st)
    ensures ValidView(r, view) && CollectedUpTo(r, view, q.select, NO_PROGRESS, 0)
    ensures ItemConvertible(NO_PROGRESS.cursor)
    ensures !ScanRefused(q) && q.values.Some? ==> ItemConvertible(q.values.value)
    ensures !ScanRefused(q) ==> view == Meant(r, st, None, q.filter, q.names, q.values)
  {
    hide *;
    AcceptedValues(q);
    view := ViewOf(st, true, Test("", map[], map[]));
    ViewIsValid(r, st, true, Test("", map[], map[]));
    if !ScanRefused(q) {
      view := Meant(r, st, None, q.filter, q.names, q.values);
      MeantIsValid(r, st, None, q.filter, q.names, q.values);
    }
    LoopStart(r, view, q.select);
  }

  lemma QueryMeant(r: SetRules, st: Stored, q: QueryInput)
    requires !QueryRefused(q)
    ensures q.values.Some? ==> ItemConvertible(q.values.value)
    ensures Reply(st, QueryRequest(r, q)) ==
            PageFrom(Meant(r, st, q.forward, q.filter, q.names, q.values), QueryRequest(r, q))
  {
    hide ExpressionsRefused, PageFrom, ConvertItem, ItemConvertible;
  }

  method QueryPage(r: SetRules, st: Stored, q: QueryInput, ghost view: View, ghost pr: Progress, ghost pos: nat)
    returns (res: Result<SdkPage, AdapterError>)
    requires !QueryRefused(q) ==> view == Meant(r, st, q.forward, q.filter, q.names, q.values)
    requires ValidView(r, view) && CollectedUpTo(r, view, q.select, pr, pos) && q.startKey == pr.cursor
    requires q.limit.Some? ==> q.limit.value >= 1
    ensures res.Err? <==> QueryRefused(q)
    ensures res.Ok? ==> Advanced(r, view, q.select, pr, pos, res.value)
  {
    hide ValidView, CollectedUpTo, Advanced, ConvertItem, ItemConvertible, QueryRefused, QueryRequest, EncodePage,
         PageFrom, Reply, Meant, QueryAsked;
    var client: Client := req => Ok(Reply(st, req));
    res := Query(r, client, q);
    if res.Ok? {
      QueryRequestOf(r, q);
      QueryMeant(r, st, q);
      LoopStep(r, view, QueryRequest(r, q), pr, pos, res.value);
    }
  }

  /** The same loop over Query: in descending order exactly if ScanIndexForward is false. */
  method QueryAll(r: SetRules, st: Stored, q: QueryInput) returns (res: Result<Progress, AdapterError>)
    requires ValidStored(r, st)
    requires q.startKey == map[] && (q.limit.Some? ==> q.limit.value >= 1)
    ensures res.Err? <==> QueryRefused(q)
    ensures res.Ok? ==> (q.values.Some? ==> ItemConvertible(q.values.value))
                        && Complete(Meant(r, st, q.forward, q.filter, q.names, q.values), q.select, res.value)
  {
    hide ValidStored, ValidView, CollectedUpTo, ItemConvertible, QueryRefused, Complete, Meant, ViewOf, ItemFault;
    ghost var view := QueryStart(r, st, q);
    var pr := NO_PROGRESS;
    ghost var pos: nat := 0;
    while true
      invariant pos <= |view.entries| && ItemConvertible(pr.cursor)
      invariant CollectedUpTo(r, view, q.select, pr, pos)
      invariant pos > 0 ==> !QueryRefused(q)
      decreases |view.entries| - pos
    {
      QueryRefusedByItself(q, pr.cursor);
      var page := QueryPage(r, st, q.(startKey := pr.cursor), view, pr, pos);
      if page.Err? {
        return Err(page.error);
      }
      pr := Extended(pr, page.value);
      if pr.cursor == map[] {
        return Ok(pr);
      }
      pos := pos + page.value.scanned;
    }
  }

  lemma QueryAcceptedValues(q: QueryInput)
    ensures !QueryRefused(q) && q.values.Some? ==> ItemConvertible(q.values.value)
  {
  }

  lemma QueryStart(r: SetRules, st: Stored, q: QueryInput) returns (view: View)
    requires ValidStored(r, st)
    ensures ValidView(r, view) && CollectedUpTo(r, view, q.select, NO_PROGRESS, 0)
    ensures ItemConvertible(NO_PROGRESS.cursor)
    ensures !QueryRefused(q) && q.values.Some? ==> ItemConvertible(q.values.value)
    ensures !QueryRefused(q) ==> view == Meant(r, st, q.forward, q.filter, q.names, q.values)
  {
    hide *;
    QueryAcceptedValues(q);
    view := ViewOf(st, true, Test("", map[], map[]));
    ViewIsValid(r, st, true, Test("", map[], map[]));
    if !QueryRefused(q) {
      view := Meant(r, st, q.forward, q.filter, q.names, q.values);
      MeantIsValid(r, st, q.forward, q.filter, q.names, q.values);
    }
    LoopStart(r, view, q.select);
  }

  lemma EncodedEmpty(item: Item)
    ensures EncodeItem(item) == map[] <==> item == map[]
  {
    if item != map[] {
      var k :| k in item;
      assert k in EncodeItem(item);
    }
  }
}
