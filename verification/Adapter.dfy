/** What the adapter's operations share: its errors, and lists of items on the way out. */
module Adapter {
  import opened Common
  import opened Marshal

  datatype AdapterError = Validation | Engine(code: string)

  function EncodeItems(items: seq<Item>): (out: seq<SdkItem>)
    ensures |out| == |items| && forall i | 0 <= i < |items| :: out[i] == EncodeItem(items[i])
  {
    seq(|items|, i requires 0 <= i < |items| => EncodeItem(items[i]))
  }

  /** What a caller of the SDK is handed reads as the engine's items, one by one. */
  ghost predicate ReadsAs(r: SetRules, out: seq<SdkItem>, items: seq<Item>) {
    |out| == |items| &&
    forall i | 0 <= i < |items| ::
      ItemConvertible(out[i]) && ConvertItem(r, out[i]) == items[i] && ItemMeans(r, out[i], items[i])
  }

  lemma EncodedReadsAs(r: SetRules, items: seq<Item>)
    requires forall i | 0 <= i < |items| :: ValidItem(r, items[i])
    ensures ReadsAs(r, EncodeItems(items), items)
  {
    hide ValidItem, ItemConvertible, ItemMeans;
    forall i | 0 <= i < |items|
      ensures ItemConvertible(EncodeItem(items[i])) && ConvertItem(r, EncodeItem(items[i])) == items[i]
              && ItemMeans(r, EncodeItem(items[i]), items[i])
    {
      ItemRoundTrip(r, items[i]);
      ItemEncodeMeans(r, items[i]);
    }
  }

  lemma ReadsAsAppend(r: SetRules, out: seq<SdkItem>, items: seq<Item>, out': seq<SdkItem>, items': seq<Item>)
    requires ReadsAs(r, out, items) && ReadsAs(r, out', items')
    ensures ReadsAs(r, out + out', items + items')
  {
    hide ItemConvertible, ConvertItem, ItemMeans;
    var n, all, all' := |items|, out + out', items + items';
    assert forall i | 0 <= i < n :: all[i] == out[i] && all'[i] == items[i];
    assert forall i | n <= i < |all'| :: all[i] == out'[i - n] && all'[i] == items'[i - n];
  }

  method EncodeList(items: seq<Item>) returns (list: seq<SdkItem>)
    ensures list == EncodeItems(items)
  {
    list := [];
    for i := 0 to |items|
      invariant |list| == i && forall j | 0 <= j < i :: list[j] == EncodeItem(items[j])
    {
      var item := ToSDKMap(items[i]);
      list := list + [item];
    }
  }
}
