/** BatchGetItem: request translation, and the echo of keys the engine left unprocessed. */
module BatchGet {
  import opened Common
  import opened Marshal
  import opened Adapter

  /** types.KeysAndAttributes; absent pointers and nil maps are None. */
  datatype SdkKeys = SdkKeys(keys: seq<SdkItem>, consistent: Option<bool>, projection: Option<string>,
                             names: Option<map<string, string>>, attributesToGet: seq<string>)

  /** The engine's form: plain values, where "" and an empty map mean absent. */
  datatype CoreKeys = CoreKeys(keys: seq<Item>, consistent: bool, projection: string,
                               names: map<string, string>, attributesToGet: seq<string>)

  type SdkRequest = map<string, SdkKeys>
  type CoreRequest = map<string, CoreKeys>

  datatype CoreReply = CoreReply(responses: map<string, seq<Item>>, unprocessed: CoreRequest)
  datatype SdkReply = SdkReply(responses: map<string, seq<SdkItem>>, unprocessed: SdkRequest)

  type Client = CoreRequest -> Result<CoreReply, string>

  // ---- Translation and echo as functions -------------------------------------

  /** The input checks of one table's entry. */
  predicate Accepted(ka: SdkKeys) {
    && ka.projection != Some("")
    && !(ka.projection.Some? && ka.names == Some(map[]))
    && forall i | 0 <= i < |ka.keys| :: ItemConvertible(ka.keys[i])
  }

  predicate AllAccepted(req: SdkRequest) {
    forall t | t in req :: Accepted(req[t])
  }

  function Translate(r: SetRules, ka: SdkKeys): CoreKeys
    requires Accepted(ka)
  {
    CoreKeys(seq(|ka.keys|, i requires 0 <= i < |ka.keys| => ConvertItem(r, ka.keys[i])),
             ka.consistent == Some(true),
             if ka.projection.Some? then ka.projection.value else "",
             if ka.names.Some? then ka.names.value else map[],
             ka.attributesToGet)
  }

  function TranslateAll(r: SetRules, req: SdkRequest): CoreRequest
    requires AllAccepted(req)
  {
    map t | t in req :: Translate(r, req[t])
  }

  function Echo(ka: CoreKeys): SdkKeys {
    SdkKeys(seq(|ka.keys|, i requires 0 <= i < |ka.keys| => EncodeItem(ka.keys[i])),
            if ka.consistent then Some(true) else None,
            if ka.projection != "" then Some(ka.projection) else None,
            if ka.names != map[] then Some(ka.names) else None,
            [])
  }

  function EchoAll(req: CoreRequest): SdkRequest {
    map t | t in req :: Echo(req[t])
  }

  function Returned(reply: CoreReply): SdkReply {
    SdkReply(map t | t in reply.responses :: EncodeItems(reply.responses[t]), EchoAll(reply.unprocessed))
  }

  // ---- What is asked of the engine, and what comes back ------------------------

  /** What the engine is asked for, parameter by parameter: an absent one is the engine's
      default, a present one is handed on, and every key says what it said. */
  ghost predicate Asked(r: SetRules, ka: SdkKeys, core: CoreKeys) {
    && |core.keys| == |ka.keys| && (forall i | 0 <= i < |ka.keys| :: ItemMeans(r, ka.keys[i], core.keys[i]))
    && (core.consistent <==> ka.consistent == Some(true))
    && (ka.projection == None ==> core.projection == "")
    && (ka.projection.Some? ==> core.projection == ka.projection.value)
    && (ka.names == None ==> core.names == map[])
    && (ka.names.Some? ==> core.names == ka.names.value)
    && core.attributesToGet == ka.attributesToGet
  }

  ghost predicate AskedAll(r: SetRules, params: SdkRequest, req: CoreRequest) {
    req.Keys == params.Keys && forall t | t in params :: Asked(r, params[t], req[t])
  }

  /** What makes the adapter refuse a request: in some table's entry, an empty projection,
      an empty name map beside a projection, or a key with a faulty node. */
  ghost predicate IsRefused(params: SdkRequest) {
    exists t | t in params ::
      var ka := params[t];
      || ka.projection == Some("")
      || (ka.projection.Some? && ka.names == Some(map[]))
      || exists i :: 0 <= i < |ka.keys| && ItemFault(ka.keys[i])
  }

  lemma TranslatesAsAsked(r: SetRules, ka: SdkKeys)
    requires Accepted(ka)
    ensures Asked(r, ka, Translate(r, ka))
  {
    hide ItemMeans, ItemConvertible;
    forall i | 0 <= i < |ka.keys| ensures ItemMeans(r, ka.keys[i], Translate(r, ka).keys[i]) {
      ItemConvertMeans(r, ka.keys[i]);
    }
  }

  lemma RefusedExactly(params: SdkRequest)
    ensures IsRefused(params) <==> !AllAccepted(params)
  {
    hide ItemFault, ItemConvertible;
    forall t, i | t in params && 0 <= i < |params[t].keys|
      ensures ItemConvertible(params[t].keys[i]) <==> !ItemFault(params[t].keys[i])
    {
      ItemAcceptance(params[t].keys[i]);
    }
  }

  predicate ValidReply(r: SetRules, reply: CoreReply) {
    && (forall t, i | t in reply.responses && 0 <= i < |reply.responses[t]| :: ValidItem(r, reply.responses[t][i]))
    && ValidRequest(r, reply.unprocessed)
    && forall t | t in reply.unprocessed :: reply.unprocessed[t].attributesToGet == []
  }

  /** The adapter's reply says what the engine's says: the same tables with the same items
      in the same order, and as UnprocessedKeys a request for just what is left. */
  ghost predicate Delivers(r: SetRules, reply: CoreReply, out: SdkReply) {
    && out.responses.Keys == reply.responses.Keys
    && (forall t | t in reply.responses :: ReadsAs(r, out.responses[t], reply.responses[t]))
    && AllAccepted(out.unprocessed) && TranslateAll(r, out.unprocessed) == reply.unprocessed
  }

  lemma ReturnedDelivers(r: SetRules, reply: CoreReply)
    requires ValidReply(r, reply)
    ensures Delivers(r, reply, Returned(reply))
  {
    hide ValidItem, ReadsAs, ValidKeys;
    forall t | t in reply.responses ensures ReadsAs(r, EncodeItems(reply.responses[t]), reply.responses[t]) {
      EncodedReadsAs(r, reply.responses[t]);
    }
    EchoAllResubmits(r, reply.unprocessed);
  }

  // ---- The adapter method ----------------------------------------------------

  method DecodeKeys(r: SetRules, keys: seq<SdkItem>) returns (res: Result<seq<Item>, AdapterError>)
    ensures res.Ok? <==> forall i | 0 <= i < |keys| :: ItemConvertible(keys[i])
    ensures res.Ok? ==> |res.value| == |keys| && forall i | 0 <= i < |keys| :: res.value[i] == ConvertItem(r, keys[i])
    ensures res.Err? ==> res.error == Validation
  {
    var list: seq<Item> := [];
    for i := 0 to |keys|
      invariant |list| == i
      invariant forall j | 0 <= j < i :: ItemConvertible(keys[j]) && list[j] == ConvertItem(r, keys[j])
    {
      var key := FromSDKMap(r, keys[i]);
      if key.Err? {
        return Err(Validation);
      }
      list := list + [key.value];
    }
    return Ok(list);
  }

  method TranslateRequest(r: SetRules, params: SdkRequest) returns (res: Result<CoreRequest, AdapterError>)
    ensures res.Ok? <==> AllAccepted(params)
    ensures res.Err? <==> IsRefused(params)
    ensures res.Ok? ==> res.value == TranslateAll(r, params) && AskedAll(r, params, res.value)
    ensures res.Err? ==> res.error == Validation
  {
    RefusedExactly(params);
    forall t | t in params && Accepted(params[t]) ensures Asked(r, params[t], Translate(r, params[t])) {
      TranslatesAsAsked(r, params[t]);
    }
    hide IsRefused, Asked, ItemConvertible, ItemFault;
    var req: CoreRequest := map[];
    var rest := params.Keys;
    while rest != {}
      invariant rest <= params.Keys && req.Keys == params.Keys - rest
      invariant forall t | t in req :: Accepted(params[t]) && req[t] == Translate(r, params[t])
      decreases rest
    {
      var table :| table in rest;
      var ka := params[table];
      if ka.projection.Some? && ka.projection.value == "" {
        return Err(Validation);
      }
      if ka.projection.Some? && ka.names.Some? && |ka.names.value| == 0 {
        return Err(Validation);
      }
      var keys := DecodeKeys(r, ka.keys);
      if keys.Err? {
        return Err(Validation);
      }
      assert keys.value == Translate(r, ka).keys;
      req := req[table := CoreKeys(keys.value, ka.consistent == Some(true),
                                   if ka.projection.Some? then ka.projection.value else "",
                                   if ka.names.Some? then ka.names.value else map[], ka.attributesToGet)];
      rest := rest - {table};
    }
    return Ok(req);
  }

  method EchoUnprocessed(unprocessed: CoreRequest) returns (out: SdkRequest)
    ensures out == EchoAll(unprocessed)
  {
    out := map[];
    var rest := unprocessed.Keys;
    while rest != {}
      invariant rest <= unprocessed.Keys && out.Keys == unprocessed.Keys - rest
      invariant forall t | t in out :: out[t] == Echo(unprocessed[t])
      decreases rest
    {
      var table :| table in rest;
      var ka := unprocessed[table];
      var keys := EncodeList(ka.keys);
      var echo := SdkKeys(keys, None, None, None, []);
      if ka.consistent {
        echo := echo.(consistent := Some(true));
      }
      if ka.projection != "" {
        echo := echo.(projection := Some(ka.projection));
      }
      if |ka.names| > 0 {
        echo := echo.(names := Some(ka.names));
      }
      assert echo.keys == Echo(ka).keys;
      out, rest := out[table := echo], rest - {table};
    }
  }

  method BatchGetItem(r: SetRules, client: Client, params: SdkRequest) returns (res: Result<SdkReply, AdapterError>)
    ensures if !AllAccepted(params) then res == Err(Validation)
            else match client(TranslateAll(r, params))
                 case Err(code) => res == Err(Engine(code))
                 case Ok(reply) => res == Ok(Returned(reply))
                                   && (ValidReply(r, reply) ==> Delivers(r, reply, res.value))
    ensures res == Err(Validation) <==> IsRefused(params)
  {
    RefusedExactly(params);
    forall reply | ValidReply(r, reply) ensures Delivers(r, reply, Returned(reply)) {
      ReturnedDelivers(r, reply);
    }
    hide ValidReply, Delivers, IsRefused, TranslateAll, AllAccepted, AskedAll, EchoAll;
    var req := TranslateRequest(r, params);
    if req.Err? {
      return Err(Validation);
    }
    var out := client(req.value);
    if out.Err? {
      return Err(Engine(out.error));
    }
    var responses: map<string, seq<SdkItem>> := map[];
    var rest := out.value.responses.Keys;
    while rest != {}
      invariant rest <= out.value.responses.Keys && responses.Keys == out.value.responses.Keys - rest
      invariant forall t | t in responses :: responses[t] == EncodeItems(out.value.responses[t])
      decreases rest
    {
      var table :| table in rest;
      var list := EncodeList(out.value.responses[table]);
      responses, rest := responses[table := list], rest - {table};
    }
    var unprocessed := EchoUnprocessed(out.value.unprocessed);
    assert responses == Returned(out.value).responses;
    return Ok(SdkReply(responses, unprocessed));
  }

  // ---- The echo can be sent back ---------------------------------------------

  predicate ValidKeys(r: SetRules, ka: CoreKeys) {
    forall i | 0 <= i < |ka.keys| :: ValidItem(r, ka.keys[i])
  }

  predicate ValidRequest(r: SetRules, req: CoreRequest) {
    forall t | t in req :: ValidKeys(r, req[t])
  }

  /** Every echoed entry passes the adapter's own checks, and translates back to the
      entry it came from, keys in order. The echo has no AttributesToGet, which the engine
      refuses. */
  lemma EchoResubmits(r: SetRules, ka: CoreKeys)
    requires ValidKeys(r, ka)
    ensures Accepted(Echo(ka))
    ensures Translate(r, Echo(ka)) == ka.(attributesToGet := [])
  {
    forall i | 0 <= i < |ka.keys|
      ensures ItemConvertible(Echo(ka).keys[i]) && ConvertItem(r, Echo(ka).keys[i]) == ka.keys[i]
    {
      ItemRoundTrip(r, ka.keys[i]);
    }
    assert Translate(r, Echo(ka)).keys == ka.keys;
  }

  lemma EchoAllResubmits(r: SetRules, req: CoreRequest)
    requires ValidRequest(r, req) && forall t | t in req :: req[t].attributesToGet == []
    ensures AllAccepted(EchoAll(req)) && TranslateAll(r, EchoAll(req)) == req
  {
    hide Translate, Echo, Accepted, ValidKeys;
    forall t | t in req ensures Accepted(Echo(req[t])) && Translate(r, Echo(req[t])) == req[t] {
      EchoResubmits(r, req[t]);
    }
  }

  /** What a reply leaves unprocessed is part of the request, entry by entry. */
  predicate PartOf(left: CoreRequest, req: CoreRequest) {
    forall t | t in left ::
      t in req && left[t] == req[t].(keys := left[t].keys) && forall k | k in left[t].keys :: k in req[t].keys
  }

  /** The engine's contract as far as the echo needs it: a request with the legacy
      AttributesToGet is refused, and a reply leaves unprocessed a part of the request. */
  ghost predicate EngineContract(client: Client) {
    forall req: CoreRequest | client(req).Ok? ::
      (forall t | t in req :: req[t].attributesToGet == []) && PartOf(client(req).value.unprocessed, req)
  }

  lemma TranslatedIsValid(r: SetRules, params: SdkRequest)
    requires Lawful(r) && AllAccepted(params)
    ensures ValidRequest(r, TranslateAll(r, params))
  {
    hide Lawful;
    forall t, i, k | t in params && 0 <= i < |params[t].keys| && k in params[t].keys[i]
      ensures ValidValue(r, Convert(r, params[t].keys[i][k]))
    {
      ConvertIsValid(r, params[t].keys[i][k]);
    }
  }

  lemma PartIsValid(r: SetRules, left: CoreRequest, req: CoreRequest)
    requires PartOf(left, req) && ValidRequest(r, req)
    ensures ValidRequest(r, left)
  {
    hide ValidItem;
    forall t, i | t in left && 0 <= i < |left[t].keys| ensures ValidItem(r, left[t].keys[i]) {
      assert left[t].keys[i] in req[t].keys;
    }
  }

  /** Whatever request the adapter accepted and the engine answered, the UnprocessedKeys it
      returns is a request: it passes the adapter's own checks and translates back to just
      what the engine left, keys in order, flags, projection and names included. */
  lemma UnprocessedResubmits(r: SetRules, client: Client, params: SdkRequest)
    requires Lawful(r) && EngineContract(client) && AllAccepted(params) && client(TranslateAll(r, params)).Ok?
    ensures var reply := client(TranslateAll(r, params)).value;
            && AllAccepted(Returned(reply).unprocessed)
            && TranslateAll(r, Returned(reply).unprocessed) == reply.unprocessed
  {
    hide Lawful, ValidRequest, AllAccepted, TranslateAll, EchoAll;
    var req := TranslateAll(r, params);
    TranslatedIsValid(r, params);
    PartIsValid(r, client(req).value.unprocessed, req);
    EchoAllResubmits(r, client(req).value.unprocessed);
  }

  // ---- Draining --------------------------------------------------------------

  /** A requested key, with its table. */
  datatype Wanted = Wanted(table: string, key: Item)

  function KeySet(req: CoreRequest): set<Wanted> {
    set t, k | t in req && k in req[t].keys :: Wanted(t, k)
  }

  /** One BatchGetItem: what the caller asked the adapter, what that became for the engine,
      what the engine replied, and what the caller got. `answered` are the existing keys the
      engine looked up, in the order of its responses. */
  datatype Round = Round(params: SdkRequest, req: CoreRequest, reply: CoreReply, out: SdkReply, answered: seq<Wanted>)

  function ItemsFor(table: string, answered: seq<Wanted>, stored: map<Wanted, Item>): seq<Item>
    requires forall w | w in answered :: w in stored
  {
    if answered == [] then []
    else
      var last := answered[|answered| - 1];
      assert last in answered;
      ItemsFor(table, answered[..|answered| - 1], stored)
      + (if last.table == table then [stored[last]] else [])
  }

  /** The engine's contract for one round it does not refuse: no entry uses AttributesToGet;
      what it leaves unprocessed is part of the request; it answers each existing key among
      the others once; and it processes at least one key. */
  ghost predicate Serves(stored: map<Wanted, Item>, round: Round) {
    var left := round.reply.unprocessed;
    && (forall t | t in round.req :: round.req[t].attributesToGet == [])
    && PartOf(left, round.req)
    && KeySet(left) < KeySet(round.req)
    && Distinct(round.answered)
    && (forall w :: w in round.answered <==> w in KeySet(round.req) - KeySet(left) && w in stored)
    && (forall t :: (if t in round.reply.responses then round.reply.responses[t] else [])
                    == ItemsFor(t, round.answered, stored))
  }

  /** The round is a call of the adapter: what BatchGetItem ensures of one. */
  ghost predicate Passed(r: SetRules, round: Round) {
    && AllAccepted(round.params) && round.req == TranslateAll(r, round.params)
    && (ValidReply(r, round.reply) ==> Delivers(r, round.reply, round.out))
  }

  /** Calls in which each request is the UnprocessedKeys of the one before, sent back. */
  ghost predicate Draining(r: SetRules, stored: map<Wanted, Item>, rounds: seq<Round>)
    decreases |rounds|
  {
    rounds != [] ==>
      && Serves(stored, rounds[0]) && Passed(r, rounds[0])
      && (|rounds| > 1 ==> rounds[1].params == rounds[0].out.unprocessed && Draining(r, stored, rounds[1..]))
  }

  /** Stored items are engine values. */
  predicate ValidStore(r: SetRules, stored: map<Wanted, Item>) {
    forall w | w in stored :: ValidItem(r, stored[w])
  }

  lemma {:induction false} ItemsAreStored(table: string, answered: seq<Wanted>, stored: map<Wanted, Item>)
    requires forall w | w in answered :: w in stored
    ensures forall x | x in ItemsFor(table, answered, stored) :: exists w :: w in stored && stored[w] == x
    decreases |answered|
  {
    if answered == [] {
    } else {
      assert answered[|answered| - 1] in answered;
      ItemsAreStored(table, answered[..|answered| - 1], stored);
    }
  }

  lemma ServedIsValid(r: SetRules, stored: map<Wanted, Item>, round: Round)
    requires ValidStore(r, stored) && Serves(stored, round) && ValidRequest(r, round.req)
    ensures ValidReply(r, round.reply)
  {
    PartIsValid(r, round.reply.unprocessed, round.req);
    hide ValidItem, KeySet, Distinct, ItemsFor, ValidRequest;
    forall t, i | t in round.reply.responses && 0 <= i < |round.reply.responses[t]|
      ensures ValidItem(r, round.reply.responses[t][i])
    {
      assert round.reply.responses[t] == ItemsFor(t, round.answered, stored);
      ItemsAreStored(t, round.answered, stored);
      assert round.reply.responses[t][i] in ItemsFor(t, round.answered, stored);
    }
  }

  function AllAnswered(rounds: seq<Round>): seq<Wanted> {
    if rounds == [] then [] else rounds[0].answered + AllAnswered(rounds[1..])
  }

  /** What `answered` and `left` must satisfy for a request that started as `wanted`. */
  ghost predicate Accounted(stored: map<Wanted, Item>, wanted: set<Wanted>, answered: seq<Wanted>, left: set<Wanted>) {
    && left <= wanted
    && Distinct(answered)
    && forall w :: w in answered <==> w in wanted - left && w in stored
  }

  lemma RoundAccounts(stored: map<Wanted, Item>, round: Round)
    requires Serves(stored, round)
    ensures Accounted(stored, KeySet(round.req), round.answered, KeySet(round.reply.unprocessed))
    ensures |KeySet(round.reply.unprocessed)| < |KeySet(round.req)|
  {
    hide KeySet, ItemsFor;
    SubsetSize(KeySet(round.reply.unprocessed), KeySet(round.req));
  }

  lemma AccountsJoin(stored: map<Wanted, Item>, wanted: set<Wanted>, xs: seq<Wanted>, mid: set<Wanted>,
                     ys: seq<Wanted>, left: set<Wanted>)
    requires Accounted(stored, wanted, xs, mid) && Accounted(stored, mid, ys, left)
    ensures Accounted(stored, wanted, xs + ys, left)
  {
    JoinDistinct(xs, ys);
  }

  /** The echo, sent back, is the request for what was left. */
  lemma ResentIsLeft(r: SetRules, stored: map<Wanted, Item>, before: Round, after: Round)
    requires ValidStore(r, stored) && Serves(stored, before) && ValidRequest(r, before.req)
    requires Passed(r, before) && Passed(r, after) && after.params == before.out.unprocessed
    ensures after.req == before.reply.unprocessed && ValidRequest(r, after.req)
  {
    hide ValidStore, ValidRequest, KeySet, ItemsFor, TranslateAll, AllAccepted, ReadsAs, ValidItem;
    ServedIsValid(r, stored, before);
    PartIsValid(r, before.reply.unprocessed, before.req);
  }

  /** Sending the echo back until nothing is left: the rounds are at most as many as the
      keys; no key is answered twice; and what has been answered is exactly the existing
      keys of the request that are not still left over, so all of them once none is. */
  lemma {:induction false} DrainExactlyOnce(r: SetRules, stored: map<Wanted, Item>, rounds: seq<Round>)
    requires ValidStore(r, stored) && rounds != [] && Draining(r, stored, rounds) && ValidRequest(r, rounds[0].req)
    ensures var left := KeySet(rounds[|rounds| - 1].reply.unprocessed);
            && Accounted(stored, KeySet(rounds[0].req), AllAnswered(rounds), left)
            && |rounds| + |left| <= |KeySet(rounds[0].req)|
    decreases |rounds|
  {
    hide KeySet, Serves, ValidRequest, Accounted, Passed, ValidStore;
    var first, rest := rounds[0], rounds[1..];
    RoundAccounts(stored, first);
    if rest == [] {
      assert AllAnswered(rounds) == first.answered;
    } else {
      assert rest[0] == rounds[1] && rest[|rest| - 1] == rounds[|rounds| - 1];
      ResentIsLeft(r, stored, first, rest[0]);
      DrainExactlyOnce(r, stored, rest);
      AccountsJoin(stored, KeySet(first.req), first.answered, KeySet(rest[0].req), AllAnswered(rest),
                   KeySet(rest[|rest| - 1].reply.unprocessed));
    }
  }

  /** What the caller has been handed for one table, over all calls. */
  function ReturnedFor(table: string, rounds: seq<Round>): seq<SdkItem> {
    if rounds == [] then []
    else (if table in rounds[0].out.responses then rounds[0].out.responses[table] else [])
         + ReturnedFor(table, rounds[1..])
  }

  lemma {:induction false} ItemsForAppend(table: string, xs: seq<Wanted>, ys: seq<Wanted>, stored: map<Wanted, Item>)
    requires forall w | w in xs :: w in stored
    requires forall w | w in ys :: w in stored
    ensures forall w | w in xs + ys :: w in stored
    ensures ItemsFor(table, xs + ys, stored) == ItemsFor(table, xs, stored) + ItemsFor(table, ys, stored)
    decreases |ys|
  {
    if ys == [] {
      assert xs + ys == xs;
    } else {
      assert (xs + ys)[..|xs + ys| - 1] == xs + ys[..|ys| - 1];
      ItemsForAppend(table, xs, ys[..|ys| - 1], stored);
    }
  }

  lemma RoundReads(r: SetRules, stored: map<Wanted, Item>, round: Round, table: string)
    requires ValidStore(r, stored) && Serves(stored, round) && Passed(r, round) && ValidRequest(r, round.req)
    ensures forall w | w in round.answered :: w in stored
    ensures ReadsAs(r, if table in round.out.responses then round.out.responses[table] else [],
                    ItemsFor(table, round.answered, stored))
  {
    ServedIsValid(r, stored, round);
    hide ValidStore, ValidRequest, KeySet, ItemsFor, TranslateAll, AllAccepted, ValidItem, ItemMeans, ItemConvertible;
  }

  lemma ItemsForOne(table: string, w: Wanted, stored: map<Wanted, Item>)
    requires w in stored
    ensures ItemsFor(table, [w], stored) == if w.table == table then [stored[w]] else []
  {
    assert [w][..0] == [];
  }

  /** What the caller has been handed by all calls together reads, table by table, as the
      items of the answered keys, in order. */
  lemma {:induction false} ResponsesAreAnswers(r: SetRules, stored: map<Wanted, Item>, rounds: seq<Round>,
                                               table: string)
    requires ValidStore(r, stored) && Draining(r, stored, rounds)
    requires rounds != [] ==> ValidRequest(r, rounds[0].req)
    ensures forall w | w in AllAnswered(rounds) :: w in stored
    ensures ReadsAs(r, ReturnedFor(table, rounds), ItemsFor(table, AllAnswered(rounds), stored))
    decreases |rounds|
  {
    if rounds == [] {
    } else {
      var first, rest := rounds[0], rounds[1..];
      RoundReads(r, stored, first, table);
      hide ValidStore, ValidRequest, Serves, Passed, ItemsFor, ReadsAs;
      if rest != [] {
        assert rest[0] == rounds[1];
        ResentIsLeft(r, stored, first, rest[0]);
      }
      ResponsesAreAnswers(r, stored, rest, table);
      ItemsForAppend(table, first.answered, AllAnswered(rest), stored);
      ReadsAsAppend(r, if table in first.out.responses then first.out.responses[table] else [],
                    ItemsFor(table, first.answered, stored),
                    ReturnedFor(table, rest), ItemsFor(table, AllAnswered(rest), stored));
    }
  }

  /** When no key is left over, the caller has been handed every existing requested item,
      once: for any request the adapter accepts. */
  lemma DrainedCompletely(r: SetRules, stored: map<Wanted, Item>, params: SdkRequest, rounds: seq<Round>)
    requires Lawful(r) && ValidStore(r, stored) && AllAccepted(params)
    requires rounds != [] && Draining(r, stored, rounds) && rounds[0].params == params
    requires rounds[|rounds| - 1].out.unprocessed == map[]
    ensures var all := AllAnswered(rounds);
            && Distinct(all)
            && (forall w :: w in all <==> w in KeySet(TranslateAll(r, params)) && w in stored)
            && forall table :: ReadsAs(r, ReturnedFor(table, rounds), ItemsFor(table, all, stored))
  {
    TranslatedIsValid(r, params);
    assert rounds[0].req == TranslateAll(r, params);
    hide KeySet, Draining, ItemsFor, ReturnedFor, Serves, ValidRequest, Lawful, AllAccepted, TranslateAll, ValidStore,
         ReadsAs, Passed;
    DrainExactlyOnce(r, stored, rounds);
    LastReply(r, stored, rounds);
    NoKeys();
    forall table {
      ResponsesAreAnswers(r, stored, rounds, table);
    }
  }

  lemma NoKeys()
    ensures KeySet(map[]) == {}
  {
  }

  lemma NothingLeft(r: SetRules, stored: map<Wanted, Item>, round: Round)
    requires ValidStore(r, stored) && Serves(stored, round) && Passed(r, round) && ValidRequest(r, round.req)
    requires round.out.unprocessed == map[]
    ensures round.reply.unprocessed == map[]
  {
    ServedIsValid(r, stored, round);
    hide ValidStore, ValidRequest, ValidReply, Serves, ReadsAs, ItemsFor, KeySet, Accepted, Translate;
    assert TranslateAll(r, map[]) == map[];
  }

  /** If the caller is handed no UnprocessedKeys, the engine has left none. */
  lemma {:induction false} LastReply(r: SetRules, stored: map<Wanted, Item>, rounds: seq<Round>)
    requires ValidStore(r, stored) && rounds != [] && Draining(r, stored, rounds) && ValidRequest(r, rounds[0].req)
    requires rounds[|rounds| - 1].out.unprocessed == map[]
    ensures rounds[|rounds| - 1].reply.unprocessed == map[]
    decreases |rounds|
  {
    hide *;
    var first, rest := rounds[0], rounds[1..];
    DrainingParts(r, stored, rounds);
    if rest == [] {
      NothingLeft(r, stored, first);
    } else {
      ResentIsLeft(r, stored, first, rest[0]);
      LastReply(r, stored, rest);
    }
  }

  lemma DrainingParts(r: SetRules, stored: map<Wanted, Item>, rounds: seq<Round>)
    requires rounds != [] && Draining(r, stored, rounds)
    ensures Serves(stored, rounds[0]) && Passed(r, rounds[0])
    ensures rounds[1..] != [] ==>
              && rounds[1..][0].params == rounds[0].out.unprocessed && Passed(r, rounds[1..][0])
              && Draining(r, stored, rounds[1..])
              && rounds[1..][|rounds[1..]| - 1] == rounds[|rounds| - 1]
  {
    hide Serves, Passed;
  }
}
