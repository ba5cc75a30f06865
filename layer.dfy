/**
 * The layer view's lookup of where a layer sits in the layer table: the
 * index it shows next to the layer's name.
 */
module LayerView {
  import opened Wrappers
  import opened Layout

  /** `layers.findIndex(l => l.name === name)`: the first index with that name, or -1. */
  function FindIndex(layers: seq<Layer>, name: string): (i: int)
    ensures -1 <= i < |layers|
    ensures i == -1 <==> forall j :: 0 <= j < |layers| ==> layers[j].name != name
    ensures 0 <= i ==> layers[i].name == name && forall j :: 0 <= j < i ==> layers[j].name != name
  {
    if layers == [] then -1
    else if layers[0].name == name then 0
    else
      var k := FindIndex(layers[1..], name);
      if k == -1 then -1 else k + 1
  }

  /**
   * The index the view shows and the keys it draws come from the same layer:
   * `getFull` finds keys exactly when `findIndex` finds an index, and they are
   * the keys of the layer at that index.
   */
  lemma IndexAndKeys(table: LayerMap, name: string)
    ensures var i := FindIndex(table.layers, name);
            && (table.GetFull(name).Some? <==> 0 <= i)
            && (0 <= i ==> table.GetFull(name) == Some(table.layers[i].keys))
  {
    var i := FindIndex(table.layers, name);
    var r := table.GetFull(name);
    if r.Some? {
      var k :| 0 <= k < |table.layers| && table.layers[k].name == name && r.value == table.layers[k].keys
               && forall j :: 0 <= j < k ==> table.layers[j].name != name;
      assert k == i;
    }
  }
}
