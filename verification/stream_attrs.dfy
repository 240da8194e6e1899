/** cli.go, sdkDDBStreamItemToWire and sdkDDBStreamAttrToWire: DynamoDB Streams attribute
    values in wire form. */
module StreamAttrs {

  type Bytes = seq<bv8>

  /** The SDK's attribute value union. `Unknown` stands for a nil value or a member this
      code does not list. */
  datatype Attr =
    | S(str: string)
    | N(num: string)
    | BOOL(flag: bool)
    | NULL(isNull: bool)
    | B(bytes: Bytes)
    | SS(strs: seq<string>)
    | NS(nums: seq<string>)
    | BS(blobs: seq<Bytes>)
    | M(entries: map<string, Attr>)
    | L(elems: seq<Attr>)
    | Unknown(tag: string)

  /** Values of the `any` type the conversion builds; `Nil` is a nil map. */
  datatype Wire =
    | Nil
    | Text(text: string)
    | Bool(flag: bool)
    | Blob(bytes: Bytes)
    | Texts(texts: seq<string>)
    | Blobs(blobs: seq<Bytes>)
    | Object(fields: map<string, Wire>)
    | Array(elems: seq<Wire>)

  /** sdkDDBStreamAttrToWire. A list keeps a place for an unknown element, a map drops it. */
  function AttrToWire(a: Attr): Wire {
    match a
    case S(v) => Object(map["S" := Text(v)])
    case N(v) => Object(map["N" := Text(v)])
    case BOOL(v) => Object(map["BOOL" := Bool(v)])
    case NULL(v) => Object(map["NULL" := Bool(v)])
    case B(v) => Object(map["B" := Blob(v)])
    case SS(v) => Object(map["SS" := Texts(v)])
    case NS(v) => Object(map["NS" := Texts(v)])
    case BS(v) => Object(map["BS" := Blobs(v)])
    case M(v) => Object(map["M" := Object(map k | k in v && AttrToWire(v[k]) != Nil :: AttrToWire(v[k]))])
    case L(v) => Object(map["L" := Array(seq(|v|, i requires 0 <= i < |v| => AttrToWire(v[i])))])
    case Unknown(_) => Nil
  }

  /** sdkDDBStreamItemToWire. */
  function ItemToWire(item: map<string, Attr>): map<string, Wire> {
    map k | k in item && AttrToWire(item[k]) != Nil :: AttrToWire(item[k])
  }

  // The conversion as the code runs it, filling maps and slices. Go visits map entries in
  // an unspecified order.

  method ConvertItem(item: map<string, Attr>, ghost parent: Attr) returns (out: map<string, Wire>)
    requires parent == M(item)
    ensures out == ItemToWire(item)
    decreases parent, 0
  {
    hide ItemToWire, AttrToWire;
    out := map[];
    var todo := item.Keys;
    NoEntries(map k | k in item && k !in todo :: item[k]);
    while todo != {}
      invariant todo <= item.Keys
      invariant out == ItemToWire(map k | k in item && k !in todo :: item[k])
      decreases todo
    {
      var k :| k in todo;
      assert item[k] in parent.entries.Values;
      var w := ConvertAttr(item[k]);
      OneMoreEntry(item, todo, k);
      if w != Nil {
        out := out[k := w];
      }
      todo := todo - {k};
    }
    assert (map k | k in item && k !in todo :: item[k]) == item;
  }

  lemma NoEntries(item: map<string, Attr>)
    requires item == map[]
    ensures ItemToWire(item) == map[]
  {
  }

  lemma OneMoreEntry(item: map<string, Attr>, todo: set<string>, k: string)
    requires k in todo && todo <= item.Keys
    ensures var before := ItemToWire(map j | j in item && j !in todo :: item[j]);
            ItemToWire(map j | j in item && j !in todo - {k} :: item[j]) ==
            if AttrToWire(item[k]) == Nil then before else before[k := AttrToWire(item[k])]
  {
    hide AttrToWire;
  }

  method ConvertAttr(a: Attr) returns (w: Wire)
    ensures w == AttrToWire(a)
    decreases a, 1
  {
    match a {
      case S(v) => w := Object(map["S" := Text(v)]);
      case N(v) => w := Object(map["N" := Text(v)]);
      case BOOL(v) => w := Object(map["BOOL" := Bool(v)]);
      case NULL(v) => w := Object(map["NULL" := Bool(v)]);
      case B(v) => w := Object(map["B" := Blob(v)]);
      case SS(v) => w := Object(map["SS" := Texts(v)]);
      case NS(v) => w := Object(map["NS" := Texts(v)]);
      case BS(v) => w := Object(map["BS" := Blobs(v)]);
      case M(v) =>
        var fields := ConvertItem(v, a);
        w := Object(map["M" := Object(fields)]);
      case L(v) =>
        var items: seq<Wire> := [];
        for i := 0 to |v|
          invariant |items| == i && forall j :: 0 <= j < i ==> items[j] == AttrToWire(v[j])
        {
          var elem := ConvertAttr(v[i]);
          items := items + [elem];
        }
        assert items == seq(|v|, i requires 0 <= i < |v| => AttrToWire(v[i]));
        w := Object(map["L" := Array(items)]);
      case Unknown(_) => w := Nil;
    }
  }

  // What survives the conversion.

  /** Reads a wire value back: an object of one entry, named like the variant. */
  function WireToAttr(w: Wire): Attr {
    if !w.Object? || |w.fields| != 1 then Unknown("")
    else
      var f := w.fields;
      if "S" in f && f["S"].Text? then S(f["S"].text)
      else if "N" in f && f["N"].Text? then N(f["N"].text)
      else if "BOOL" in f && f["BOOL"].Bool? then BOOL(f["BOOL"].flag)
      else if "NULL" in f && f["NULL"].Bool? then NULL(f["NULL"].flag)
      else if "B" in f && f["B"].Blob? then B(f["B"].bytes)
      else if "SS" in f && f["SS"].Texts? then SS(f["SS"].texts)
      else if "NS" in f && f["NS"].Texts? then NS(f["NS"].texts)
      else if "BS" in f && f["BS"].Blobs? then BS(f["BS"].blobs)
      else if "M" in f && f["M"].Object? then
        var g := f["M"].fields;
        M(map k | k in g :: WireToAttr(g[k]))
      else if "L" in f && f["L"].Array? then
        var e := f["L"].elems;
        L(seq(|e|, i requires 0 <= i < |e| => WireToAttr(e[i])))
      else Unknown("")
  }

  /** The part of a value the wire form can tell: entries with an unknown value are gone,
      unknown list elements have lost their identity. */
  function Prune(a: Attr): Attr {
    match a
    case M(v) => M(map k | k in v && !v[k].Unknown? :: Prune(v[k]))
    case L(v) => L(seq(|v|, i requires 0 <= i < |v| => Prune(v[i])))
    case Unknown(_) => Unknown("")
    case _ => a
  }

  /** No unknown member at any depth. */
  ghost predicate Known(a: Attr) {
    match a
    case M(v) => forall k :: k in v ==> Known(v[k])
    case L(v) => forall i :: 0 <= i < |v| ==> Known(v[i])
    case Unknown(_) => false
    case _ => true
  }

  lemma NilIffUnknown(a: Attr)
    ensures AttrToWire(a) == Nil <==> a.Unknown?
  {
  }

  lemma {:induction false} ReadBack(a: Attr)
    ensures WireToAttr(AttrToWire(a)) == Prune(a)
  {
    hide *;
    match a
    case M(v) => ReadBackMap(v, a);
    case L(v) => ReadBackList(v, a);
    case _ => ReadBackScalar(a);
  }

  lemma ReadBackScalar(a: Attr)
    requires !a.M? && !a.L?
    ensures WireToAttr(AttrToWire(a)) == Prune(a)
  {
  }

  lemma ReadObject(g: map<string, Wire>)
    ensures WireToAttr(Object(map["M" := Object(g)])) == M(map k | k in g :: WireToAttr(g[k]))
  {
  }

  lemma SamePrunedMap(v: map<string, Attr>, g: map<string, Wire>)
    requires forall k :: k in g <==> k in v && !v[k].Unknown?
    requires forall k :: k in g ==> WireToAttr(g[k]) == Prune(v[k])
    ensures (map k | k in g :: WireToAttr(g[k])) == (map k | k in v && !v[k].Unknown? :: Prune(v[k]))
  {
    hide *;
  }

  lemma WireOfMap(v: map<string, Attr>)
    ensures AttrToWire(M(v)) == Object(map["M" := Object(ItemToWire(v))])
    ensures forall k :: (k in ItemToWire(v) <==> k in v && AttrToWire(v[k]) != Nil) &&
                        (k in ItemToWire(v) ==> ItemToWire(v)[k] == AttrToWire(v[k]))
  {
  }

  lemma PruneOfMap(v: map<string, Attr>)
    ensures Prune(M(v)) == M(map k | k in v && !v[k].Unknown? :: Prune(v[k]))
  {
  }

  lemma {:induction false} ReadBackMap(v: map<string, Attr>, a: Attr)
    requires a == M(v)
    ensures WireToAttr(AttrToWire(a)) == Prune(a)
    decreases a, 0
  {
    hide WireToAttr, AttrToWire, Prune, ItemToWire;
    var g := ItemToWire(v);
    WireOfMap(v);
    PruneOfMap(v);
    ReadObject(g);
    forall k | k in v ensures WireToAttr(AttrToWire(v[k])) == Prune(v[k]) && (k in g <==> !v[k].Unknown?) {
      assert v[k] in a.entries.Values;
      ReadBack(v[k]);
      NilIffUnknown(v[k]);
    }
    SamePrunedMap(v, g);
  }

  lemma {:induction false} ReadBackList(v: seq<Attr>, a: Attr)
    requires a == L(v)
    ensures WireToAttr(AttrToWire(a)) == Prune(a)
    decreases a, 0
  {
    var e := seq(|v|, i requires 0 <= i < |v| => AttrToWire(v[i]));
    assert AttrToWire(a) == Object(map["L" := Array(e)]);
    forall i | 0 <= i < |v| ensures WireToAttr(e[i]) == Prune(v[i]) {
      ReadBack(v[i]);
    }
    assert seq(|e|, i requires 0 <= i < |e| => WireToAttr(e[i])) == seq(|v|, i requires 0 <= i < |v| => Prune(v[i]));
  }

  lemma {:induction false} PruneLosesNothing(a: Attr)
    ensures AttrToWire(Prune(a)) == AttrToWire(a)
  {
    match a
    case M(v) =>
      var p := map k | k in v && !v[k].Unknown? :: Prune(v[k]);
      forall k | k in v ensures AttrToWire(Prune(v[k])) == AttrToWire(v[k]) && (AttrToWire(v[k]) == Nil <==> v[k].Unknown?) {
        assert v[k] in a.entries.Values;
        PruneLosesNothing(v[k]);
        NilIffUnknown(v[k]);
      }
      assert (map k | k in p && AttrToWire(p[k]) != Nil :: AttrToWire(p[k])) ==
             (map k | k in v && AttrToWire(v[k]) != Nil :: AttrToWire(v[k]));
    case L(v) =>
      var p := seq(|v|, i requires 0 <= i < |v| => Prune(v[i]));
      forall i | 0 <= i < |v| ensures AttrToWire(p[i]) == AttrToWire(v[i]) {
        PruneLosesNothing(v[i]);
      }
      assert seq(|p|, i requires 0 <= i < |p| => AttrToWire(p[i])) == seq(|v|, i requires 0 <= i < |v| => AttrToWire(v[i]));
    case _ =>
  }

  /** Two values get the same wire form exactly when they agree up to what is dropped. */
  lemma SameWireIffSamePruned(a: Attr, b: Attr)
    ensures AttrToWire(a) == AttrToWire(b) <==> Prune(a) == Prune(b)
  {
    ReadBack(a);
    ReadBack(b);
    PruneLosesNothing(a);
    PruneLosesNothing(b);
  }

  lemma {:induction false} KnownIsUnpruned(a: Attr)
    requires Known(a)
    ensures Prune(a) == a
  {
    match a
    case M(v) =>
      forall k | k in v ensures Prune(v[k]) == v[k] && !v[k].Unknown? {
        assert v[k] in a.entries.Values;
        KnownIsUnpruned(v[k]);
      }
      assert (map k | k in v && !v[k].Unknown? :: Prune(v[k])) == v;
    case L(v) =>
      forall i | 0 <= i < |v| ensures Prune(v[i]) == v[i] {
        KnownIsUnpruned(v[i]);
      }
      assert seq(|v|, i requires 0 <= i < |v| => Prune(v[i])) == v;
    case _ =>
  }

  /** On values without unknown members the conversion is injective, and reading back undoes it. */
  lemma KnownRoundTrip(a: Attr, b: Attr)
    requires Known(a) && Known(b)
    ensures WireToAttr(AttrToWire(a)) == a
    ensures AttrToWire(a) == AttrToWire(b) ==> a == b
  {
    KnownIsUnpruned(a);
    KnownIsUnpruned(b);
    ReadBack(a);
    ReadBack(b);
  }

  /** Lists keep their length and positions; a map keeps exactly the keys whose value is a
      known variant. */
  lemma ContainersKeepShape(a: Attr)
    ensures a.L? ==> AttrToWire(a).Object? && AttrToWire(a).fields.Keys == {"L"} && AttrToWire(a).fields["L"].Array? &&
                     var e := AttrToWire(a).fields["L"].elems;
                     |e| == |a.elems| && forall i :: 0 <= i < |e| ==> e[i] == AttrToWire(a.elems[i])
    ensures a.M? ==> AttrToWire(a) == Object(map["M" := Object(ItemToWire(a.entries))]) &&
                     forall k :: k in ItemToWire(a.entries) <==> k in a.entries && !a.entries[k].Unknown?
  {
    if a.M? {
      forall k | k in a.entries ensures AttrToWire(a.entries[k]) == Nil <==> a.entries[k].Unknown? {
        NilIffUnknown(a.entries[k]);
      }
    }
  }
}
