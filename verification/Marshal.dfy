/** Conversion between the SDK's attribute values and the engine's values. */
module Marshal {
  import opened Common
  import opened Decimals

  type Bytes = seq<bv8>

  datatype Tag = TagS | TagN | TagB | TagBOOL | TagNULL | TagL | TagM | TagSS | TagNS | TagBS

  /** types.AttributeValue: one member per wire type. TypedNil is a nil pointer of a
      member type; Unknown is anything else an interface value can hold. */
  datatype AttributeValue =
    | S(s: string)
    | N(n: string)
    | B(b: Bytes)
    | BOOL(flag: bool)
    | NULL(isNull: bool)
    | L(elems: seq<AttributeValue>)
    | M(fields: map<string, AttributeValue>)
    | SS(ss: seq<string>)
    | NS(ns: seq<string>)
    | BS(bs: seq<Bytes>)
    | TypedNil(tag: Tag)
    | Unknown

  /** attrval.Value, the engine's value. */
  datatype Value =
    | Str(s: string)
    | Num(d: Decimal)
    | Bin(b: Bytes)
    | Bool(v: bool)
    | Null
    | List(elems: seq<Value>)
    | Map(fields: map<string, Value>)
    | StrSet(ss: seq<string>)
    | NumSet(ns: seq<Decimal>)
    | BinSet(bs: seq<Bytes>)

  type SdkItem = map<string, AttributeValue>
  type Item = map<string, Value>

  /** What the engine's set constructors do to the member list they are given (keep it,
      remove repetitions, sort it). The constructors are not part of this model. */
  datatype SetRules = SetRules(ss: seq<string> -> seq<string>, ns: seq<Decimal> -> seq<Decimal>,
                               bs: seq<Bytes> -> seq<Bytes>)

  /** The only demands on them: same members, and nothing more to do the second time. */
  ghost predicate Lawful(r: SetRules) {
    && (forall x :: r.ss(r.ss(x)) == r.ss(x)) && (forall x, m :: m in r.ss(x) <==> m in x)
    && (forall x :: r.ns(r.ns(x)) == r.ns(x)) && (forall x, m :: m in r.ns(x) <==> m in x)
    && (forall x :: r.bs(r.bs(x)) == r.bs(x)) && (forall x, m :: m in r.bs(x) <==> m in x)
  }

  // ---- What is refused -------------------------------------------------------

  datatype Reason = NilMember(tag: Tag) | EmptySet(tag: Tag) | BadNumber | UnsupportedType

  /** The reason one node by itself is refused, its children aside. */
  function NodeFault(av: AttributeValue): Option<Reason> {
    match av
    case TypedNil(tag) => Some(NilMember(tag))
    case Unknown => Some(UnsupportedType)
    case N(n) => if Parse(n) == None then Some(BadNumber) else None
    case SS(ss) => if ss == [] then Some(EmptySet(TagSS)) else None
    case NS(ns) =>
      if ns == [] then Some(EmptySet(TagNS))
      else if exists m :: m in ns && Parse(m) == None then Some(BadNumber) else None
    case BS(bs) => if bs == [] then Some(EmptySet(TagBS)) else None
    case _ => None
  }

  datatype Hop = Index(i: nat) | Attr(k: string)

  /** The node a path leads to, if it leads anywhere. */
  function At(av: AttributeValue, path: seq<Hop>): Option<AttributeValue>
    decreases |path|
  {
    if path == [] then Some(av)
    else match (av, path[0])
         case (L(es), Index(i)) => if i < |es| then At(es[i], path[1..]) else None
         case (M(fs), Attr(k)) => if k in fs then At(fs[k], path[1..]) else None
         case _ => None
  }

  /** What is wrong with a node by itself: a typed nil, an unknown member, an empty set, a
      number or a number-set member that cannot be read. */
  predicate HasFault(node: AttributeValue, reason: Reason) {
    || (node.TypedNil? && reason == NilMember(node.tag))
    || (node.Unknown? && reason == UnsupportedType)
    || (node == SS([]) && reason == EmptySet(TagSS))
    || (node == NS([]) && reason == EmptySet(TagNS))
    || (node == BS([]) && reason == EmptySet(TagBS))
    || (node.N? && Parse(node.n) == None && reason == BadNumber)
    || (node.NS? && (exists i :: 0 <= i < |node.ns| && Parse(node.ns[i]) == None) && reason == BadNumber)
  }

  lemma NodeFaultExact(av: AttributeValue, reason: Reason)
    ensures NodeFault(av) == Some(reason) <==> HasFault(av, reason)
  {
    hide Parse;
    if av.NS? && NodeFault(av) == Some(BadNumber) {
      var m :| m in av.ns && Parse(m) == None;
    }
    if av.NS? && exists i :: 0 <= i < |av.ns| && Parse(av.ns[i]) == None {
      var i :| 0 <= i < |av.ns| && Parse(av.ns[i]) == None;
      assert av.ns[i] in av.ns;
    }
  }

  predicate FaultAt(av: AttributeValue, path: seq<Hop>, reason: Reason) {
    At(av, path).Some? && HasFault(At(av, path).value, reason)
  }

  predicate Convertible(av: AttributeValue) {
    && NodeFault(av) == None
    && match av
       case L(es) => forall i | 0 <= i < |es| :: Convertible(es[i])
       case M(fs) => forall k | k in fs :: Convertible(fs[k])
       case _ => true
  }

  // ---- The two directions as functions ---------------------------------------

  function ParseAll(ns: seq<string>): (ds: seq<Decimal>)
    requires forall m | m in ns :: Parse(m).Some?
    ensures |ds| == |ns| && forall i | 0 <= i < |ns| :: Parse(ns[i]) == Some(ds[i])
  {
    seq(|ns|, i requires 0 <= i < |ns| => assert ns[i] in ns; Parse(ns[i]).value)
  }

  function PrintAll(ds: seq<Decimal>): (ns: seq<string>)
    ensures |ns| == |ds| && forall i | 0 <= i < |ds| :: ns[i] == Print(ds[i])
  {
    seq(|ds|, i requires 0 <= i < |ds| => Print(ds[i]))
  }

  function Convert(r: SetRules, av: AttributeValue): Value
    requires Convertible(av)
    decreases av
  {
    match av
    case S(s) => Str(s)
    case N(n) => Num(Parse(n).value)
    case B(b) => Bin(b)
    case BOOL(b) => Bool(b)
    case NULL(_) => Null
    case L(es) => List(seq(|es|, i requires 0 <= i < |es| => Convert(r, es[i])))
    case M(fs) => Map(map k | k in fs :: Convert(r, fs[k]))
    case SS(ss) => StrSet(r.ss(ss))
    case NS(ns) => NumSet(r.ns(ParseAll(ns)))
    case BS(bs) => BinSet(r.bs(bs))
  }

  function Encode(v: Value): AttributeValue
    decreases v
  {
    match v
    case Str(s) => S(s)
    case Num(d) => N(Print(d))
    case Bin(b) => B(b)
    case Bool(b) => BOOL(b)
    case Null => NULL(true)
    case List(es) => L(seq(|es|, i requires 0 <= i < |es| => Encode(es[i])))
    case Map(fs) => M(map k | k in fs :: Encode(fs[k]))
    case StrSet(ss) => SS(ss)
    case NumSet(ds) => NS(PrintAll(ds))
    case BinSet(bs) => BS(bs)
  }

  function EncodeItem(item: Item): SdkItem {
    map k | k in item :: Encode(item[k])
  }

  predicate ItemConvertible(m: SdkItem) {
    forall k | k in m :: Convertible(m[k])
  }

  function ConvertItem(r: SetRules, m: SdkItem): Item
    requires ItemConvertible(m)
  {
    map k | k in m :: Convert(r, m[k])
  }

  /** The two sides say the same: same text, bytes, flag or number; the same of every list
      element and map attribute; and for sets, what the engine makes of the members. */
  ghost predicate Means(r: SetRules, av: AttributeValue, v: Value)
    decreases av
  {
    match av
    case S(s) => v == Str(s)
    case N(n) => v.Num? && Parse(n) == Some(v.d)
    case B(b) => v == Bin(b)
    case BOOL(b) => v == Bool(b)
    case NULL(_) => v == Null
    case L(es) => v.List? && |v.elems| == |es| && forall i | 0 <= i < |es| :: Means(r, es[i], v.elems[i])
    case M(fs) => v.Map? && v.fields.Keys == fs.Keys && forall k | k in fs :: Means(r, fs[k], v.fields[k])
    case SS(ss) => v == StrSet(r.ss(ss))
    case NS(ns) =>
      v.NumSet? && exists ds :: v.ns == r.ns(ds) && |ds| == |ns|
                                && forall i | 0 <= i < |ns| :: Parse(ns[i]) == Some(ds[i])
    case BS(bs) => v == BinSet(r.bs(bs))
    case _ => false
  }

  ghost predicate ItemMeans(r: SetRules, m: SdkItem, item: Item) {
    item.Keys == m.Keys && forall k | k in m :: Means(r, m[k], item[k])
  }

  lemma {:induction false} ConvertMeans(r: SetRules, av: AttributeValue)
    requires Convertible(av)
    ensures Means(r, av, Convert(r, av))
    decreases av
  {
    hide Parse;
    match av
    case L(es) =>
      forall i | 0 <= i < |es| ensures Means(r, es[i], Convert(r, es[i])) {
        ConvertMeans(r, es[i]);
      }
    case M(fs) =>
      forall k | k in fs ensures Means(r, fs[k], Convert(r, fs[k])) {
        ConvertMeans(r, fs[k]);
      }
    case NS(ns) => assert Convert(r, av).ns == r.ns(ParseAll(ns));
    case _ =>
  }

  /** ToSDK says what the engine value says. */
  lemma EncodeMeans(r: SetRules, v: Value)
    requires ValidValue(r, v)
    ensures Convertible(Encode(v)) && Means(r, Encode(v), v)
  {
    EngineRoundTrip(r, v);
    ConvertMeans(r, Encode(v));
  }

  lemma ItemEncodeMeans(r: SetRules, item: Item)
    requires ValidItem(r, item)
    ensures ItemConvertible(EncodeItem(item)) && ItemMeans(r, EncodeItem(item), item)
  {
    forall k | k in item ensures Convertible(Encode(item[k])) && Means(r, Encode(item[k]), item[k]) {
      EncodeMeans(r, item[k]);
    }
  }

  lemma ItemConvertMeans(r: SetRules, m: SdkItem)
    requires ItemConvertible(m)
    ensures ItemMeans(r, m, ConvertItem(r, m))
  {
    forall k | k in m ensures Means(r, m[k], Convert(r, m[k])) {
      ConvertMeans(r, m[k]);
    }
  }

  // ---- Acceptance ------------------------------------------------------------

  lemma {:induction false} ConvertibleEverywhere(av: AttributeValue, path: seq<Hop>)
    requires Convertible(av) && At(av, path).Some?
    ensures Convertible(At(av, path).value)
    decreases |path|
  {
    if path == [] {
    } else {
      match (av, path[0])
      case (L(es), Index(i)) => ConvertibleEverywhere(es[i], path[1..]);
      case (M(fs), Attr(k)) => ConvertibleEverywhere(fs[k], path[1..]);
    }
  }

  lemma FaultBelow(av: AttributeValue, hop: Hop, child: AttributeValue, path: seq<Hop>, reason: Reason)
    requires At(av, [hop]) == Some(child) && FaultAt(child, path, reason)
    ensures FaultAt(av, [hop] + path, reason)
  {
    assert ([hop] + path)[1..] == path;
    assert [hop][1..] == [];
  }

  /** Refusal is exactly the presence of a faulty node somewhere in the tree. */
  lemma {:induction false} Acceptance(av: AttributeValue)
    ensures !Convertible(av) <==> exists path, reason :: FaultAt(av, path, reason)
    decreases av
  {
    if Convertible(av) {
      forall path, reason ensures !FaultAt(av, path, reason) {
        if At(av, path).Some? {
          ConvertibleEverywhere(av, path);
          NodeFaultExact(At(av, path).value, reason);
        }
      }
    } else if NodeFault(av).Some? {
      NodeFaultExact(av, NodeFault(av).value);
      assert FaultAt(av, [], NodeFault(av).value);
    } else if av.L? {
      var i :| 0 <= i < |av.elems| && !Convertible(av.elems[i]);
      Acceptance(av.elems[i]);
      var path, reason :| FaultAt(av.elems[i], path, reason);
      assert [Index(i)][1..] == [];
      FaultBelow(av, Index(i), av.elems[i], path, reason);
    } else {
      var k :| k in av.fields && !Convertible(av.fields[k]);
      Acceptance(av.fields[k]);
      var path, reason :| FaultAt(av.fields[k], path, reason);
      assert [Attr(k)][1..] == [];
      FaultBelow(av, Attr(k), av.fields[k], path, reason);
    }
  }

  /** Some attribute has a faulty node somewhere in its tree. */
  ghost predicate ItemFault(m: SdkItem) {
    exists k, path, reason :: k in m && FaultAt(m[k], path, reason)
  }

  lemma ItemAcceptance(m: SdkItem)
    ensures ItemConvertible(m) <==> !ItemFault(m)
  {
    hide FaultAt, Convertible;
    forall k | k in m {
      Acceptance(m[k]);
    }
  }

  // ---- The converters --------------------------------------------------------

  /** Succeeds exactly when no node is faulty, with a result that does not depend on the
      order in which a map is traversed; a failure names a fault that is there. */
  method FromSDK(r: SetRules, av: AttributeValue) returns (res: Result<Value, Reason>)
    ensures res.Ok? <==> Convertible(av)
    ensures res.Ok? <==> !exists path, reason :: FaultAt(av, path, reason)
    ensures res.Ok? ==> res.value == Convert(r, av) && Means(r, av, res.value)
    ensures res.Err? ==> exists path :: FaultAt(av, path, res.error)
    decreases av
  {
    hide Parse, HasFault;
    Acceptance(av);
    if Convertible(av) {
      ConvertMeans(r, av);
    }
    hide Means;
    if NodeFault(av).Some? {
      NodeFaultExact(av, NodeFault(av).value);
      assert FaultAt(av, [], NodeFault(av).value);
      return Err(NodeFault(av).value);
    }
    match av {
      case S(s) => return Ok(Str(s));
      case N(n) => return Ok(Num(Parse(n).value));
      case B(b) => return Ok(Bin(b));
      case BOOL(b) => return Ok(Bool(b));
      case NULL(_) => return Ok(Null);
      case L(es) =>
        var elems: seq<Value> := [];
        for i := 0 to |es|
          invariant |elems| == i
          invariant forall j | 0 <= j < i :: Convertible(es[j]) && elems[j] == Convert(r, es[j])
        {
          var ev := FromSDK(r, es[i]);
          if ev.Err? {
            var path :| FaultAt(es[i], path, ev.error);
            assert [Index(i)][1..] == [];
            FaultBelow(av, Index(i), es[i], path, ev.error);
            return Err(ev.error);
          }
          elems := elems + [ev.value];
        }
        assert elems == Convert(r, av).elems;
        return Ok(List(elems));
      case M(fs) =>
        var m: map<string, Value> := map[];
        var rest := fs.Keys;
        while rest != {}
          invariant rest <= fs.Keys && m.Keys == fs.Keys - rest
          invariant forall k | k in m :: Convertible(fs[k]) && m[k] == Convert(r, fs[k])
          decreases rest
        {
          var k :| k in rest;
          var ev := FromSDK(r, fs[k]);
          if ev.Err? {
            var path :| FaultAt(fs[k], path, ev.error);
            assert [Attr(k)][1..] == [];
            FaultBelow(av, Attr(k), fs[k], path, ev.error);
            return Err(ev.error);
          }
          m, rest := m[k := ev.value], rest - {k};
        }
        assert m == Convert(r, av).fields;
        return Ok(Map(m));
      case SS(ss) => return Ok(StrSet(r.ss(ss)));
      case NS(ns) => return Ok(NumSet(r.ns(ParseAll(ns))));
      case BS(bs) => return Ok(BinSet(r.bs(bs)));
    }
  }

  method ToSDK(v: Value) returns (av: AttributeValue)
    ensures av == Encode(v)
    decreases v
  {
    match v {
      case Str(s) => return S(s);
      case Num(d) => return N(Print(d));
      case Bin(b) => return B(b);
      case Bool(b) => return BOOL(b);
      case Null => return NULL(true);
      case List(es) =>
        var elems: seq<AttributeValue> := [];
        for i := 0 to |es|
          invariant |elems| == i
          invariant forall j | 0 <= j < i :: elems[j] == Encode(es[j])
        {
          var e := ToSDK(es[i]);
          elems := elems + [e];
        }
        assert elems == Encode(v).elems;
        return L(elems);
      case Map(fs) =>
        var m: SdkItem := map[];
        var rest := fs.Keys;
        while rest != {}
          invariant rest <= fs.Keys && m.Keys == fs.Keys - rest
          invariant forall k | k in m :: m[k] == Encode(fs[k])
          decreases rest
        {
          var k :| k in rest;
          var e := ToSDK(fs[k]);
          m, rest := m[k := e], rest - {k};
        }
        assert m == Encode(v).fields;
        return M(m);
      case StrSet(ss) => return SS(ss);
      case NumSet(ds) =>
        var out: seq<string> := [];
        for i := 0 to |ds|
          invariant |out| == i
          invariant forall j | 0 <= j < i :: out[j] == Print(ds[j])
        {
          out := out + [Print(ds[i])];
        }
        assert out == PrintAll(ds);
        return NS(out);
      case BinSet(bs) => return BS(bs);
    }
  }

  method FromSDKMap(r: SetRules, m: SdkItem) returns (res: Result<Item, Reason>)
    ensures res.Ok? <==> ItemConvertible(m)
    ensures res.Ok? <==> !ItemFault(m)
    ensures res.Ok? ==> res.value == ConvertItem(r, m) && ItemMeans(r, m, res.value)
  {
    ItemAcceptance(m);
    hide Parse, ItemFault;
    if ItemConvertible(m) {
      ItemConvertMeans(r, m);
    }
    var item: Item := map[];
    var rest := m.Keys;
    while rest != {}
      invariant rest <= m.Keys && item.Keys == m.Keys - rest
      invariant forall k | k in item :: Convertible(m[k]) && item[k] == Convert(r, m[k])
      decreases rest
    {
      var k :| k in rest;
      var v := FromSDK(r, m[k]);
      if v.Err? {
        return Err(v.error);
      }
      item, rest := item[k := v.value], rest - {k};
    }
    return Ok(item);
  }

  method ToSDKMap(item: Item) returns (out: SdkItem)
    ensures out == EncodeItem(item)
  {
    out := map[];
    var rest := item.Keys;
    while rest != {}
      invariant rest <= item.Keys && out.Keys == item.Keys - rest
      invariant forall k | k in out :: out[k] == Encode(item[k])
      decreases rest
    {
      var k :| k in rest;
      var av := ToSDK(item[k]);
      out, rest := out[k := av], rest - {k};
    }
  }

  // ---- Round trips -----------------------------------------------------------

  /** Values the engine's constructors can build. */
  predicate ValidValue(r: SetRules, v: Value) {
    match v
    case Num(d) => Valid(d)
    case List(es) => forall i | 0 <= i < |es| :: ValidValue(r, es[i])
    case Map(fs) => forall k | k in fs :: ValidValue(r, fs[k])
    case StrSet(ss) => ss != [] && r.ss(ss) == ss
    case NumSet(ds) => ds != [] && r.ns(ds) == ds && forall d | d in ds :: Valid(d)
    case BinSet(bs) => bs != [] && r.bs(bs) == bs
    case _ => true
  }

  predicate ValidItem(r: SetRules, item: Item) {
    forall k | k in item :: ValidValue(r, item[k])
  }

  lemma ParsePrintAll(ds: seq<Decimal>)
    requires forall d | d in ds :: Valid(d)
    ensures forall m | m in PrintAll(ds) :: Parse(m).Some?
    ensures ParseAll(PrintAll(ds)) == ds
  {
    hide Parse, Print, Valid;
    forall i | 0 <= i < |ds| ensures Parse(PrintAll(ds)[i]) == Some(ds[i]) {
      assert ds[i] in ds;
      ParsePrint(ds[i]);
    }
  }

  /** Every engine value of any nesting survives the trip through the SDK exactly. */
  lemma {:induction false} EngineRoundTrip(r: SetRules, v: Value)
    requires ValidValue(r, v)
    ensures Convertible(Encode(v)) && Convert(r, Encode(v)) == v
    decreases v
  {
    hide Parse, Print, Valid;
    match v
    case Num(d) => ParsePrint(d);
    case List(es) =>
      forall i | 0 <= i < |es|
        ensures Convertible(Encode(v).elems[i]) && Convert(r, Encode(v).elems[i]) == es[i]
      {
        EngineRoundTrip(r, es[i]);
      }
      assert Convert(r, Encode(v)).elems == es;
    case Map(fs) =>
      forall k | k in fs
        ensures Convertible(Encode(v).fields[k]) && Convert(r, Encode(v).fields[k]) == fs[k]
      {
        EngineRoundTrip(r, fs[k]);
      }
      assert Convert(r, Encode(v)).fields == fs;
    case NumSet(ds) => ParsePrintAll(ds);
    case _ =>
  }

  lemma ItemRoundTrip(r: SetRules, item: Item)
    requires ValidItem(r, item)
    ensures ItemConvertible(EncodeItem(item)) && ConvertItem(r, EncodeItem(item)) == item
  {
    forall k | k in item ensures Convertible(Encode(item[k])) && Convert(r, Encode(item[k])) == item[k] {
      EngineRoundTrip(r, item[k]);
    }
  }

  /** Whatever FromSDK accepts is an engine value. */
  lemma {:induction false} ConvertIsValid(r: SetRules, av: AttributeValue)
    requires Lawful(r) && Convertible(av)
    ensures ValidValue(r, Convert(r, av))
    decreases av
  {
    hide Parse, Valid;
    match av
    case N(n) => ParseIsValid(n);
    case L(es) =>
      forall i | 0 <= i < |es| ensures ValidValue(r, Convert(r, es[i])) {
        ConvertIsValid(r, es[i]);
      }
    case M(fs) =>
      forall k | k in fs ensures ValidValue(r, Convert(r, fs[k])) {
        ConvertIsValid(r, fs[k]);
      }
    case SS(ss) => assert ss[0] in r.ss(ss);
    case NS(ns) =>
      var ds := ParseAll(ns);
      assert ds[0] in r.ns(ds);
      forall i | 0 <= i < |ds| ensures Valid(ds[i]) {
        ParseIsValid(ns[i]);
      }
    case BS(bs) => assert bs[0] in r.bs(bs);
    case _ =>
  }

  lemma ParseIsValid(n: string)
    ensures Parse(n).Some? ==> Valid(Parse(n).value)
  {
  }

  // ---- Normalisation ---------------------------------------------------------

  /** What an SDK value looks like after one trip through the engine. */
  function Normal(r: SetRules, av: AttributeValue): AttributeValue
    requires Convertible(av)
  {
    Encode(Convert(r, av))
  }

  /** The trip is an idempotent normaliser. */
  lemma NormalIdempotent(r: SetRules, av: AttributeValue)
    requires Lawful(r) && Convertible(av)
    ensures Convertible(Normal(r, av)) && Normal(r, Normal(r, av)) == Normal(r, av)
  {
    ConvertIsValid(r, av);
    EngineRoundTrip(r, Convert(r, av));
  }

  /** The part of a node the trip preserves: everything but the spelling of numbers, the
      NULL flag, and the order and multiplicity of set members. */
  predicate SameNode(av: AttributeValue, av': AttributeValue) {
    match av
    case S(_) => av' == av
    case N(n) => av'.N? && Parse(av'.n) == Parse(n)
    case B(_) => av' == av
    case BOOL(_) => av' == av
    case NULL(_) => av' == NULL(true)
    case L(es) => av'.L? && |av'.elems| == |es|
    case M(fs) => av'.M? && av'.fields.Keys == fs.Keys
    case SS(ss) => av'.SS? && (forall m | m in ss :: m in av'.ss) && (forall m | m in av'.ss :: m in ss)
    case NS(ns) =>
      && av'.NS?
      && (forall m | m in ns :: exists m' :: m' in av'.ns && Parse(m') == Parse(m))
      && (forall m' | m' in av'.ns :: exists m :: m in ns && Parse(m') == Parse(m))
    case BS(bs) => av'.BS? && (forall m | m in bs :: m in av'.bs) && (forall m | m in av'.bs :: m in bs)
    case _ => false
  }

  lemma NumbersKept(r: SetRules, ns: seq<string>)
    requires Lawful(r) && forall m | m in ns :: Parse(m).Some?
    ensures var ns' := PrintAll(r.ns(ParseAll(ns)));
            && (forall m | m in ns :: exists m' :: m' in ns' && Parse(m') == Parse(m))
            && (forall m' | m' in ns' :: exists m :: m in ns && Parse(m') == Parse(m))
  {
    var ds := ParseAll(ns);
    var ds' := r.ns(ds);
    var ns' := PrintAll(ds');
    forall i | 0 <= i < |ns| ensures exists m' :: m' in ns' && Parse(m') == Parse(ns[i]) {
      assert ds[i] in ds';
      var j :| 0 <= j < |ds'| && ds'[j] == ds[i];
      ParseIsValid(ns[i]);
      ParsePrint(ds[i]);
      assert ns'[j] in ns';
    }
    forall j | 0 <= j < |ns'| ensures exists m :: m in ns && Parse(ns'[j]) == Parse(m) {
      assert ds'[j] in r.ns(ds);
      assert ds'[j] in ds;
      var i :| 0 <= i < |ds| && ds[i] == ds'[j];
      ParseIsValid(ns[i]);
      ParsePrint(ds[i]);
      assert ns[i] in ns;
    }
  }

  lemma NormalNode(r: SetRules, av: AttributeValue)
    requires Lawful(r) && Convertible(av)
    ensures SameNode(av, Normal(r, av))
  {
    hide Parse, Print;
    match av
    case N(n) =>
      ParseIsValid(n);
      ParsePrint(Parse(n).value);
    case NS(ns) => NumbersKept(r, ns);
    case _ =>
  }

  /** Every path leads to a node after the trip exactly when it did before, and to the
      normal form of that node: nesting, list order and map keys are preserved. */
  lemma {:induction false} NormalAt(r: SetRules, av: AttributeValue, path: seq<Hop>)
    requires Convertible(av)
    ensures At(av, path).Some? ==> Convertible(At(av, path).value)
    ensures At(Normal(r, av), path) ==
            match At(av, path) case Some(node) => Some(Normal(r, node)) case None => None
    decreases |path|
  {
    hide Parse, Print;
    if path == [] {
    } else {
      match (av, path[0])
      case (L(es), Index(i)) => if i < |es| { NormalAt(r, es[i], path[1..]); }
      case (M(fs), Attr(k)) => if k in fs { NormalAt(r, fs[k], path[1..]); }
      case _ =>
    }
  }

  /** Taken together: at every path the node is kept up to spelling, flag and set order. */
  lemma Normalisation(r: SetRules, av: AttributeValue, path: seq<Hop>)
    requires Lawful(r) && Convertible(av)
    ensures match At(av, path)
            case Some(node) => At(Normal(r, av), path).Some? && SameNode(node, At(Normal(r, av), path).value)
            case None => At(Normal(r, av), path) == None
  {
    hide Parse, Print, SameNode, Normal, At;
    NormalAt(r, av, path);
    if At(av, path).Some? {
      NormalNode(r, At(av, path).value);
    }
  }
}
